/**
 * Start-up: decides between the first-run setup window and the main
 * window. The setup window opens outside a live session when the
 * configuration file tolitica.conf holds an `initialSetup` line whose value
 * is 0. The live-session probe's exit code is a parameter; the file is
 * `Option<seq<string>>`, its lines as QTextStream::readLine gives them, None
 * when it cannot be opened.
 */
module Startup {
  import opened Text

  const FlagKey := "initialSetup"
  const Word := "tolitica"

  /** A configuration line read as `initialSetup` set to 0: trimmed, it
      starts with "initialSetup" and holds '=', and the text between its
      first and second '=' trims to "0". */
  predicate ReadsAsZero(rawLine: string) {
    var line := Trim(rawLine);
    var parts := Split(line, "=");
    StartsWith(line, FlagKey) && Contains(line, "=") && |parts| >= 2 && Trim(parts[1]) == "0"
  }

  /** The `|parts| >= 2` conjunct above adds nothing: a line holding '='
      always splits into at least two fields. */
  lemma ContainsEqualsSplits(line: string)
    requires Contains(line, "=")
    ensures |Split(line, "=")| >= 2
  {
    ContainsChar(line, '=');
    SplitHasTwo(line, '=');
  }

  /** main's read loop: scans the lines in order and stops at the first one
      read as 0. An unreadable file leaves the flag false. */
  method InitialSetupIs0(configFile: Option<seq<string>>) returns (initialSetupIs0: bool, scanned: nat)
    ensures configFile.None? ==> !initialSetupIs0 && scanned == 0
    ensures configFile.Some? ==>
      (initialSetupIs0 <==> exists i :: 0 <= i < |configFile.value| && ReadsAsZero(configFile.value[i]))
    ensures configFile.Some? ==> scanned <= |configFile.value|
    ensures configFile.Some? ==> forall i :: 0 <= i < scanned - 1 ==> !ReadsAsZero(configFile.value[i])
    ensures initialSetupIs0 ==> scanned >= 1 && ReadsAsZero(configFile.value[scanned - 1])
  {
    initialSetupIs0 := false;
    scanned := 0;
    if configFile.None? {
      return;
    }
    var lines := configFile.value;
    while scanned < |lines|
      invariant scanned <= |lines|
      invariant forall i :: 0 <= i < scanned ==> !ReadsAsZero(lines[i])
    {
      var line := Trim(lines[scanned]);
      scanned := scanned + 1;
      if StartsWith(line, FlagKey) && Contains(line, "=") {
        ContainsEqualsSplits(line);
        var value := Trim(Split(line, "=")[1]);
        if value == "0" {
          initialSetupIs0 := true;
          break;
        }
      }
    }
  }

  /** main's decision: the setup window only outside a live session and only
      when the flag reads 0 (the word test always holds). */
  function ShouldShowInitialSetup(isLiveEnv: bool, word: string, initialSetupIs0: bool): (r: bool)
    ensures word == Word ==> (r <==> !isLiveEnv && initialSetupIs0)
    ensures r ==> !isLiveEnv && initialSetupIs0
  {
    !isLiveEnv && word == "tolitica" && initialSetupIs0
  }

  datatype Window = InitialSetup | MainWindow

  /** The window main opens: the live probe (`grep -q '/cow' /proc/mounts
      || [ -f /run/live/medium ]`) succeeds in a live session. */
  method ChooseWindow(liveProbeExit: int, configFile: Option<seq<string>>) returns (w: Window)
    ensures w == InitialSetup <==>
      liveProbeExit != 0 && configFile.Some? &&
      exists i :: 0 <= i < |configFile.value| && ReadsAsZero(configFile.value[i])
  {
    var isLiveEnv := liveProbeExit == 0;
    var word := Word;
    var initialSetupIs0, _ := InitialSetupIs0(configFile);
    w := if ShouldShowInitialSetup(isLiveEnv, word, initialSetupIs0) then InitialSetup else MainWindow;
  }

  /** A flag written without spaces, `initialSetup=0`, reads as 0. */
  lemma ZeroLineReads()
    ensures ReadsAsZero("initialSetup=0")
  {
    var line := "initialSetup=0";
    TrimNoop(line);
    assert line == FlagKey + "=" + "0";
    assert line[..|FlagKey|] == FlagKey;
    ContainsInfix(FlagKey, "=", "0");
    SplitAtSep(FlagKey, '=', "0");
    SplitNoSep("0", '=');
    TrimNoop("0");
  }
}
