/**
 * The tweak helpers behind the main window: the installed-shell list read
 * from /etc/shells, the current login shell taken from the passwd entry,
 * the tri-state status classifiers for Bluetooth, Flatpak, Snapd and
 * AppArmor, the Bluetooth toggle, the mirror-count dialog's result rule and
 * the mirror-ranking command. Process results (exit codes, standard
 * output) are parameters; files are `Option<...>`, None when they cannot
 * be opened.
 */
module CoreFunctions {
  import opened Text

  // ---------------------------------------------------------------------
  // Shells
  // ---------------------------------------------------------------------

  const ShellDir := "/bin"

  /** The shells listed in a file: its trimmed lines that start with
      "/bin", in file order. */
  function Shells(lines: seq<string>): seq<string> {
    if lines == [] then []
    else
      var line := Trim(lines[|lines| - 1]);
      Shells(lines[..|lines| - 1]) + (if StartsWith(line, ShellDir) then [line] else [])
  }

  /** getInstalledShells: reads /etc/shells line by line; an unreadable file
      gives no shells. */
  method InstalledShells(file: Option<seq<string>>) returns (availableShells: seq<string>)
    ensures file.None? ==> availableShells == []
    ensures file.Some? ==> availableShells == Shells(file.value)
  {
    availableShells := [];
    if file.None? {
      return;
    }
    var lines := file.value;
    var i := 0;
    while i < |lines|
      invariant 0 <= i <= |lines|
      invariant availableShells == Shells(lines[..i])
    {
      var line := Trim(lines[i]);
      if StartsWith(line, ShellDir) {
        availableShells := availableShells + [line];
      }
      assert lines[..i + 1][..i] == lines[..i];
      i := i + 1;
    }
    assert lines[..|lines|] == lines;
  }

  /** A shell is listed exactly when it is some line of the file, trimmed,
      and starts with "/bin"; listed shells carry no surrounding blanks. */
  lemma {:induction false} ShellsMembers(lines: seq<string>)
    ensures forall s :: s in Shells(lines) <==>
      exists i :: 0 <= i < |lines| && s == Trim(lines[i]) && StartsWith(s, ShellDir)
    ensures forall s :: s in Shells(lines) ==> Trim(s) == s
  {
    if lines != [] {
      var init := lines[..|lines| - 1];
      ShellsMembers(init);
      forall s | s in Shells(lines)
        ensures Trim(s) == s
      {
        if s !in Shells(init) {
          TrimIdempotent(lines[|lines| - 1]);
        }
      }
      forall s, i | 0 <= i < |lines| && s == Trim(lines[i]) && StartsWith(s, ShellDir)
        ensures s in Shells(lines)
      {
        if i < |lines| - 1 {
          assert init[i] == lines[i];
        }
      }
      forall s | s in Shells(lines)
        ensures exists i :: 0 <= i < |lines| && s == Trim(lines[i]) && StartsWith(s, ShellDir)
      {
        if s in Shells(init) {
          var i :| 0 <= i < |init| && s == Trim(init[i]) && StartsWith(s, ShellDir);
          assert lines[i] == init[i];
        } else {
          assert s == Trim(lines[|lines| - 1]);
        }
      }
    }
  }

  /** The file order is kept: the shells of two consecutive parts of a file
      are those of the first part followed by those of the second. */
  lemma {:induction false} ShellsAppend(a: seq<string>, b: seq<string>)
    ensures Shells(a + b) == Shells(a) + Shells(b)
    decreases |b|
  {
    if b == [] {
      assert a + b == a;
    } else {
      var init := b[..|b| - 1];
      ShellsAppend(a, init);
      assert (a + b)[..|a + b| - 1] == a + init;
      assert (a + b)[|a + b| - 1] == b[|b| - 1];
    }
  }

  /** f is the text after the last c of s, or the whole of s when s has
      no c. */
  predicate IsLastField(s: string, c: char, f: string) {
    c !in f && EndsWith(s, f) && (|f| == |s| || s[|s| - |f| - 1] == c)
  }

  /** A last field of s[1..] is still one of s, unless it is all of s[1..]
      and s starts with another character. */
  lemma LastFieldCons(s: string, c: char, f: string)
    requires |s| >= 1 && IsLastField(s[1..], c, f)
    requires |f| < |s| - 1 || s[0] == c
    ensures IsLastField(s, c, f)
  {
    assert s[|s| - |f|..] == s[1..][|s| - 1 - |f|..];
    if |f| < |s| - 1 {
      assert s[|s| - |f| - 1] == s[1..][|s| - 1 - |f| - 1];
    }
  }

  /** The last field QString::split gives is the text after the last
      separator. */
  lemma {:induction false} SplitLastField(s: string, c: char)
    ensures var f := Split(s, [c]); IsLastField(s, c, f[|f| - 1])
    decreases |s|
  {
    var f := Split(s, [c]);
    if |s| < 1 {
      assert f == [s];
    } else if s[..1] == [c] {
      var rest := Split(s[1..], [c]);
      SplitLastField(s[1..], c);
      assert f == [""] + rest;
      LastFieldCons(s, c, rest[|rest| - 1]);
    } else if c in s[1..] {
      var rest := Split(s[1..], [c]);
      SplitHasTwo(s[1..], c);
      SplitLastField(s[1..], c);
      assert f == [[s[0]] + rest[0]] + rest[1..];
      var last := rest[|rest| - 1];
      LastFieldCons(s, c, last);
    } else {
      assert s == [s[0]] + s[1..];
      assert s[0] != c;
      SplitNoSep(s, c);
    }
  }

  /** getCurrentShell: "Unknown" when the trimmed passwd entry is empty,
      otherwise its last ':'-separated field, the text after its last ':'. */
  function CurrentShell(passwdOut: string): (r: string)
    ensures TrimAscii(passwdOut) == [] ==> r == "Unknown"
    ensures var t := TrimAscii(passwdOut);
      t != [] ==> ':' !in r && EndsWith(t, r) && (|r| == |t| || t[|t| - |r| - 1] == ':')
  {
    var output := TrimAscii(passwdOut);
    if output == [] then "Unknown"
    else
      var fields := Split(output, ":");
      SplitLastField(output, ':');
      assert IsLastField(output, ':', fields[|fields| - 1]);
      fields[|fields| - 1]
  }

  // ---------------------------------------------------------------------
  // Tri-state status classifiers
  // ---------------------------------------------------------------------

  /** bluetoothStatus: 0 when bluetooth.service is enabled and active, 1
      when it is neither, 2 otherwise. */
  function BluetoothStatus(bluetoothEnabled: bool, bluetoothActive: bool): (r: int)
    ensures r == 0 || r == 1 || r == 2
    ensures r == 0 <==> bluetoothEnabled && bluetoothActive
    ensures r == 1 <==> !bluetoothEnabled && !bluetoothActive
  {
    if bluetoothEnabled && bluetoothActive then 0
    else if !bluetoothEnabled && !bluetoothActive then 1
    else 2
  }

  /** flatpakStatus: 0 when the package is installed and the flathub remote
      is set, 1 when neither, 2 otherwise. */
  function FlatpakStatus(pkgInstalled: bool, repoSet: bool): (r: int)
    ensures r == 0 || r == 1 || r == 2
    ensures r == 0 <==> pkgInstalled && repoSet
    ensures r == 1 <==> !pkgInstalled && !repoSet
  {
    if pkgInstalled && repoSet then 0
    else if !pkgInstalled && !repoSet then 1
    else 2
  }

  const SnapLink := "/var/lib/snapd/snap"

  /** snapdStatus: the /snap link counts when `readlink /snap` prints, after
      trimming, exactly /var/lib/snapd/snap. 0 when package, socket and link
      are all in place, 1 when none is, 2 otherwise. */
  function SnapdStatus(pkgInstalled: bool, isEnabled: bool, readlinkOut: string): (r: int)
    ensures r == 0 || r == 1 || r == 2
    ensures r == 0 <==> pkgInstalled && isEnabled && Trim(readlinkOut) == SnapLink
    ensures r == 1 <==> !pkgInstalled && !isEnabled && Trim(readlinkOut) != SnapLink
  {
    var linkExist := Trim(readlinkOut) == SnapLink;
    if pkgInstalled && isEnabled && linkExist then 0
    else if !pkgInstalled && !isEnabled && !linkExist then 1
    else 2
  }

  // ---------------------------------------------------------------------
  // AppArmor
  // ---------------------------------------------------------------------

  const ProbeModule := "lsmod | grep apparmor"
  const ProbeConfigGrep := "zgrep \"CONFIG_SECURITY_APPARMOR=y\""
  const ProbeConfig := ProbeConfigGrep + " /proc/config.gz"
  const ProbeEnabledPath := " /sys/module/apparmor/parameters/enabled"
  const ProbeEnabled := "cat" + ProbeEnabledPath
  const KernelProbes: seq<string> := [ProbeModule, ProbeConfig, ProbeEnabled]

  /** A kernel probe passes when its trimmed output is exactly "Y" for a
      command containing "cat", and non-empty for any other command. */
  predicate ProbePasses(test: string, output: string) {
    if Contains(test, "cat") then TrimAscii(output) == "Y" else TrimAscii(output) != []
  }

  lemma ModuleProbeNoCat()
    ensures !Contains(ProbeModule, "cat")
  {
    NotContainsChar(ProbeModule, "cat", 0);
  }

  lemma ConfigProbeNoCat()
    ensures !Contains(ProbeConfig, "cat")
  {
    assert 't' !in ProbeConfigGrep && 't' !in " /proc/config.gz";
    NotContainsChar(ProbeConfig, "cat", 2);
  }

  lemma EnabledProbeCat()
    ensures Contains(ProbeEnabled, "cat")
  {
    StartsWithExtends("cat", ProbeEnabledPath, "cat");
  }

  /** Only the third probe reads the module parameter and needs exactly
      "Y"; the other two only need some output. */
  lemma CatProbeOnly(out0: string, out1: string, out2: string)
    ensures ProbePasses(KernelProbes[0], out0) <==> TrimAscii(out0) != []
    ensures ProbePasses(KernelProbes[1], out1) <==> TrimAscii(out1) != []
    ensures ProbePasses(KernelProbes[2], out2) <==> TrimAscii(out2) == "Y"
  {
    ModuleProbeNoCat();
    ConfigProbeNoCat();
    EnabledProbeCat();
  }

  /** The kernel-support loop of apparmorStatus: runs the probes in order
      and stops at the first that fails. */
  method KernelSupport(probeOut: string -> string) returns (supportsApparmor: bool, probed: nat)
    ensures supportsApparmor <==> forall i :: 0 <= i < |KernelProbes| ==> ProbePasses(KernelProbes[i], probeOut(KernelProbes[i]))
    ensures 1 <= probed <= |KernelProbes|
    ensures forall i :: 0 <= i < probed - 1 ==> ProbePasses(KernelProbes[i], probeOut(KernelProbes[i]))
    ensures supportsApparmor ==> probed == |KernelProbes|
    ensures !supportsApparmor ==> !ProbePasses(KernelProbes[probed - 1], probeOut(KernelProbes[probed - 1]))
  {
    var tests := KernelProbes;
    supportsApparmor := true;
    probed := 0;
    while probed < |tests|
      invariant probed <= |tests|
      invariant forall i :: 0 <= i < probed ==> ProbePasses(tests[i], probeOut(tests[i]))
    {
      var test := tests[probed];
      var result := TrimAscii(probeOut(test));
      var valid := if Contains(test, "cat") then result == "Y" else result != [];
      probed := probed + 1;
      if !valid {
        supportsApparmor := false;
        break;
      }
    }
  }

  const GrubCmdlineKey := "GRUB_CMDLINE_LINUX_DEFAULT="
  const LsmParams := "lsm=landlock lockdown yama integrity apparmor bpf"

  predicate IsQuote(c: char) {
    c == '\'' || c == '"'
  }

  /** The lazy `(.*?)\1` part of the grub pattern: the text before the first
      closing quote q, provided no line break comes first. */
  function QuotedPrefix(s: string, q: char): (r: Option<string>)
    ensures r.Some? ==> q !in r.value && '\n' !in r.value && StartsWith(s, r.value + [q])
    ensures r.None? ==> forall k :: 0 <= k < |s| && s[k] == q ==> '\n' in s[..k]
    decreases |s|
  {
    if s == [] then None
    else if s[0] == q then Some([])
    else if s[0] == '\n' then None
    else
      match QuotedPrefix(s[1..], q)
      case None =>
        assert forall k :: 1 <= k < |s| && s[k] == q ==> '\n' in s[1..][..k - 1];
        assert forall k :: 1 <= k < |s| ==> s[1..][..k - 1] == s[1..k];
        None
      case Some(t) =>
        assert s[..|t| + 2] == [s[0]] + s[1..][..|t| + 1];
        Some([s[0]] + t)
  }

  /** An attempt of the pattern at the start of s. */
  function MatchAt(s: string): Option<string> {
    var n := |GrubCmdlineKey|;
    if StartsWith(s, GrubCmdlineKey) && |s| > n && IsQuote(s[n]) then QuotedPrefix(s[n + 1..], s[n])
    else None
  }

  /** The pattern matches at offset i of content and at no earlier offset. */
  predicate LeftmostMatch(content: string, i: int) {
    && 0 <= i <= |content|
    && MatchAt(content[i..]).Some?
    && forall j :: 0 <= j < i ==> MatchAt(content[j..]).None?
  }

  /** The first match of `GRUB_CMDLINE_LINUX_DEFAULT=(['"])(.*?)\1` in the
      grub file: its captured parameters. */
  function GrubParams(content: string): (r: Option<string>)
    ensures r.Some? <==> exists i :: 0 <= i <= |content| && MatchAt(content[i..]).Some?
    ensures forall i :: LeftmostMatch(content, i) ==> r == MatchAt(content[i..])
    decreases |content|
  {
    match MatchAt(content)
    case Some(params) =>
      assert content[0..] == content;
      Some(params)
    case None =>
      if content == [] then None
      else
        var tail := content[1..];
        var r := GrubParams(tail);
        assert content[0..] == content;
        assert forall i :: 1 <= i <= |content| ==> tail[i - 1..] == content[i..];
        assert r.Some? ==> exists i :: 0 <= i <= |content| && MatchAt(content[i..]).Some? by {
          if r.Some? {
            var i :| 0 <= i <= |tail| && MatchAt(tail[i..]).Some?;
            assert tail[i..] == content[i + 1..];
          }
        }
        forall i | LeftmostMatch(content, i)
          ensures r == MatchAt(content[i..])
        {
          assert i >= 1;
          forall j | 0 <= j < i - 1
            ensures MatchAt(tail[j..]).None?
          {
            assert tail[j..] == content[j + 1..];
          }
          assert tail[i - 1..] == content[i..];
        }
        r
  }

  /** grubSet: the file opens, the pattern matches, and the captured
      parameters contain the lsm list. */
  predicate GrubSet(grub: Option<string>) {
    grub.Some? && GrubParams(grub.value).Some? && Contains(GrubParams(grub.value).value, LsmParams)
  }

  lemma {:induction false} QuotedPrefixOf(params: string, q: char, rest: string)
    requires q !in params && '\n' !in params
    ensures QuotedPrefix(params + [q] + rest, q) == Some(params)
    decreases |params|
  {
    var s := params + [q] + rest;
    if params != [] {
      assert params[0] in params;
      assert s[0] == params[0];
      assert s[1..] == params[1..] + [q] + rest;
      assert forall x :: x in params[1..] ==> x in params;
      QuotedPrefixOf(params[1..], q, rest);
      assert [params[0]] + params[1..] == params;
    } else {
      assert s[0] == q;
    }
  }

  /** Lines before the setting: nothing, or whole lines without the key. */
  predicate KeyFreeLines(prefix: string) {
    !Contains(prefix, GrubCmdlineKey) && (prefix == [] || prefix[|prefix| - 1] == '\n')
  }

  /** No attempt of the pattern succeeds at an offset inside such lines. */
  lemma NoMatchInPrefix(prefix: string, tail: string, j: nat)
    requires KeyFreeLines(prefix) && j < |prefix|
    ensures MatchAt((prefix + tail)[j..]).None?
  {
    var c := (prefix + tail)[j..];
    var key := GrubCmdlineKey;
    if StartsWith(c, key) {
      if j + |key| <= |prefix| {
        assert prefix[j..][..|key|] == c[..|key|];
        ContainsFrom(prefix, key, j);
      } else {
        var k := |prefix| - 1 - j;
        assert c[k] == '\n';
        assert '\n' !in key;
        StartsWithPast(c, key, k);
      }
    }
  }

  /** The pattern matches at the setting itself and captures its
      parameters. */
  lemma MatchAtSetting(q: char, params: string, rest: string)
    requires IsQuote(q) && q !in params && '\n' !in params
    ensures MatchAt(GrubCmdlineKey + [q] + params + [q] + rest) == Some(params)
  {
    var s := GrubCmdlineKey + [q] + params + [q] + rest;
    var n := |GrubCmdlineKey|;
    assert s[..n] == GrubCmdlineKey;
    assert s[n] == q;
    assert s[n + 1..] == params + [q] + rest;
    QuotedPrefixOf(params, q, rest);
  }

  /** A grub file whose setting comes after key-free whole lines, quoted
      with either quote character on one line, yields exactly the quoted
      parameters: the leftmost match is the setting's. */
  lemma GrubParamsFound(prefix: string, q: char, params: string, rest: string)
    requires KeyFreeLines(prefix)
    requires IsQuote(q) && q !in params && '\n' !in params
    ensures GrubParams(prefix + GrubCmdlineKey + [q] + params + [q] + rest) == Some(params)
  {
    var tail := GrubCmdlineKey + [q] + params + [q] + rest;
    var s := prefix + tail;
    assert s == prefix + GrubCmdlineKey + [q] + params + [q] + rest;
    assert s[|prefix|..] == tail;
    MatchAtSetting(q, params, rest);
    forall j | 0 <= j < |prefix|
      ensures MatchAt(s[j..]).None?
    {
      NoMatchInPrefix(prefix, tail, j);
    }
    assert LeftmostMatch(s, |prefix|);
  }

  /** Such a file whose parameters include the lsm list counts as set. */
  lemma GrubSetWithLsm(prefix: string, q: char, before: string, after: string, rest: string)
    requires KeyFreeLines(prefix)
    requires IsQuote(q)
    requires q !in before && q !in after && q !in LsmParams
    requires '\n' !in before && '\n' !in after && '\n' !in LsmParams
    ensures GrubSet(Some(prefix + GrubCmdlineKey + [q] + (before + LsmParams + after) + [q] + rest))
  {
    var params := before + LsmParams + after;
    GrubParamsFound(prefix, q, params, rest);
    ContainsInfix(before, LsmParams, after);
  }

  /** The final classification of apparmorStatus: 1 when package, service
      and grub parameters are all in place, 2 when none is, 3 otherwise. */
  function AppArmorState(pkgInstalled: bool, isEnabled: bool, grubSet: bool): (r: int)
    ensures r == 1 || r == 2 || r == 3
    ensures r == 1 <==> pkgInstalled && isEnabled && grubSet
    ensures r == 2 <==> !pkgInstalled && !isEnabled && !grubSet
  {
    if pkgInstalled && isEnabled && grubSet then 1
    else if !pkgInstalled && !isEnabled && !grubSet then 2
    else 3
  }

  /** apparmorStatus: 0 when the kernel lacks support (some probe fails),
      otherwise the classification of package, service and grub file. */
  method ApparmorStatus(probeOut: string -> string, pkgInstalled: bool, isEnabled: bool, grub: Option<string>)
    returns (r: int)
    ensures r == 0 <==> exists i :: 0 <= i < |KernelProbes| && !ProbePasses(KernelProbes[i], probeOut(KernelProbes[i]))
    ensures r != 0 ==> r == AppArmorState(pkgInstalled, isEnabled, GrubSet(grub))
  {
    var supportsApparmor, _ := KernelSupport(probeOut);
    if !supportsApparmor {
      return 0;
    }
    var grubSet := false;
    if grub.Some? {
      var m := GrubParams(grub.value);
      if m.Some? {
        grubSet := Contains(m.value, LsmParams);
      }
    }
    r := AppArmorState(pkgInstalled, isEnabled, grubSet);
  }

  // ---------------------------------------------------------------------
  // Bluetooth toggle
  // ---------------------------------------------------------------------

  const DisableBluetooth := "systemctl disable --now bluetooth.service"
  const EnableBluetoothCommand := "systemctl enable --now bluetooth.service"

  /** The checkbox that shows and switches the Bluetooth state. */
  class Toggle {
    var checked: bool
    var text: string

    constructor (checked: bool, text: string)
      ensures this.checked == checked && this.text == text
    {
      this.checked := checked;
      this.text := text;
    }
  }

  /** The service state after the toggle command: a successful disable
      leaves it neither enabled nor active, a successful enable both, and a
      failed command changes nothing. */
  function BluetoothAfter(status: int, exitCode: int): (r: int)
    ensures exitCode != 0 ==> r == status
    ensures exitCode == 0 ==> (r == 1 <==> status == 0) && (r == 0 <==> status != 0)
  {
    if exitCode != 0 then status else if status == 0 then 1 else 0
  }

  /** enableBluetooth: disables when the service was fully up and enables
      otherwise; the checkbox ends up checked exactly when Bluetooth is then
      fully up, and its label offers the opposite action. */
  method EnableBluetooth(toggle: Toggle, status: int, exitCode: int) returns (command: string)
    modifies toggle
    ensures command == DisableBluetooth <==> status == 0
    ensures command == EnableBluetoothCommand <==> status != 0
    ensures toggle.checked <==> BluetoothAfter(status, exitCode) == 0
    ensures toggle.text == if toggle.checked then "Disable Bluetooth" else "Enable Bluetooth"
  {
    command := if status == 0 then DisableBluetooth else EnableBluetoothCommand;
    if exitCode == 0 {
      toggle.checked := status != 0;
      toggle.text := if status != 0 then "Disable Bluetooth" else "Enable Bluetooth";
    } else {
      toggle.checked := status == 0;
      toggle.text := if status == 0 then "Disable Bluetooth" else "Enable Bluetooth";
    }
  }

  // ---------------------------------------------------------------------
  // Mirror ranking
  // ---------------------------------------------------------------------

  /** A spin box's value after QSpinBox::setRange(lo, hi): values are kept
      in range, and a reversed range admits only lo. */
  function SpinValue(v: int, lo: int, hi: int): (r: int)
    ensures lo <= r && (lo <= hi ==> r <= hi)
    ensures lo <= v && v <= hi ==> r == v
  {
    if hi < lo || v < lo then lo else if v > hi then hi else v
  }

  /** getMirrorCount: -1 when the dialog is cancelled, 0 for "Rank All
      Mirrors", otherwise the spin box's value (the default unless the user
      entered one). */
  function MirrorCount(accepted: bool, rankAll: bool, entered: Option<int>, defaultValue: int, minValue: int, maxValue: int): (r: int)
    ensures !accepted ==> r == -1
    ensures accepted && rankAll ==> r == 0
    ensures accepted && !rankAll ==> minValue <= r && (minValue <= maxValue ==> r <= maxValue)
    ensures accepted && !rankAll && entered.None? && minValue <= defaultValue <= maxValue ==> r == defaultValue
  {
    if !accepted then -1
    else if rankAll then 0
    else
      var shown := SpinValue(defaultValue, minValue, maxValue);
      match entered
      case None => shown
      case Some(v) => SpinValue(v, minValue, maxValue)
  }

  const MirrorList := "/etc/pacman.d/mirrorlist"

  /** The words of the ranking command: reflector (run through sudo) when it
      is installed, rankmirrors otherwise, with `--latest N` or `-n N` only
      for a non-zero count. */
  function RankArgv(hasReflector: bool, mirrorCount: int): seq<string> {
    var countArg := IntToString(mirrorCount);
    if hasReflector then
      ["exec", "sudo", "reflector"] + (if mirrorCount != 0 then ["--latest", countArg] else []) +
      ["--sort", "rate", "--save", MirrorList]
    else
      ["exec", "rankmirrors"] + (if mirrorCount != 0 then ["-n", countArg] else []) + [MirrorList]
  }

  /** Words joined by single spaces. */
  function JoinWords(ws: seq<string>): string {
    if ws == [] then "" else if |ws| == 1 then ws[0] else ws[0] + " " + JoinWords(ws[1..])
  }

  /** rankMirrors' command line, the words above separated by one space. */
  function RankMirrorsCommand(hasReflector: bool, mirrorCount: int): string {
    JoinWords(RankArgv(hasReflector, mirrorCount))
  }

  /** Reflector counts as found when `which reflector` succeeds and prints
      something besides blanks. */
  predicate HasReflector(whichExit: int, whichOut: string) {
    whichExit == 0 && Trim(whichOut) != []
  }

  /** Words without blanks survive joining and splitting unchanged. */
  lemma {:induction false} WordsOfJoin(ws: seq<string>)
    requires forall w :: w in ws ==> w != [] && ' ' !in w
    ensures Words(JoinWords(ws)) == ws
  {
    if ws == [] {
      assert Split("", " ") == [""];
      assert NonEmpty([""]) == [] + NonEmpty([]);
    } else if |ws| == 1 {
      assert ws[0] in ws;
      WordsSingle(ws[0]);
    } else {
      assert ws[0] in ws;
      assert forall w :: w in ws[1..] ==> w in ws;
      WordsOfJoin(ws[1..]);
      WordsCons(ws[0], JoinWords(ws[1..]));
      assert ws == [ws[0]] + ws[1..];
    }
  }

  /** The words handed to the shell are exactly the intended ones. */
  lemma RankCommandWords(hasReflector: bool, mirrorCount: int)
    ensures Words(RankMirrorsCommand(hasReflector, mirrorCount)) == RankArgv(hasReflector, mirrorCount)
  {
    var countArg := IntToString(mirrorCount);
    assert ' ' !in countArg;
    assert ' ' !in MirrorList;
    WordsOfJoin(RankArgv(hasReflector, mirrorCount));
  }

  /** The count never reads as one of the option or tool words. */
  lemma CountArgIsNoKeyword(mirrorCount: int)
    ensures var countArg := IntToString(mirrorCount);
      countArg != "reflector" && countArg != "rankmirrors" && countArg != "--latest" && countArg != "-n"
  {
    var countArg := IntToString(mirrorCount);
    assert "reflector"[1] == 'e' && "rankmirrors"[1] == 'a' && "--latest"[1] == '-' && "-n"[1] == 'n';
    assert |countArg| >= 2 ==> '0' <= countArg[1] <= '9';
  }

  /** The option words of a reflector command line. */
  lemma ReflectorArgv(mirrorCount: int)
    ensures var ws := RankArgv(true, mirrorCount);
      "reflector" in ws && "rankmirrors" !in ws && "-n" !in ws &&
      ("--latest" in ws <==> mirrorCount != 0)
  {
    CountArgIsNoKeyword(mirrorCount);
    assert MirrorList[0] == '/';
  }

  /** The option words of a rankmirrors command line. */
  lemma RankmirrorsArgv(mirrorCount: int)
    ensures var ws := RankArgv(false, mirrorCount);
      "rankmirrors" in ws && "reflector" !in ws && "--latest" !in ws &&
      ("-n" in ws <==> mirrorCount != 0)
  {
    CountArgIsNoKeyword(mirrorCount);
    assert MirrorList[0] == '/';
  }

  /** The tool is reflector iff it was found, and the count option
      (`--latest` for reflector, `-n` for rankmirrors) is present iff the
      count is non-zero, directly followed by the count. */
  lemma RankArgvOptions(hasReflector: bool, mirrorCount: int)
    ensures var ws := RankArgv(hasReflector, mirrorCount);
      ("reflector" in ws <==> hasReflector) &&
      ("rankmirrors" in ws <==> !hasReflector) &&
      ("--latest" in ws <==> hasReflector && mirrorCount != 0) &&
      ("-n" in ws <==> !hasReflector && mirrorCount != 0) &&
      ws[|ws| - 1] == MirrorList &&
      (mirrorCount != 0 ==> ws[if hasReflector then 4 else 3] == IntToString(mirrorCount))
  {
    if hasReflector {
      ReflectorArgv(mirrorCount);
    } else {
      RankmirrorsArgv(mirrorCount);
    }
  }

  /** The backup rankMirrors starts before anything else. */
  const MirrorBackup := "cp -r /etc/pacman.d/mirrorlist /etc/pacman.d/mirrorlist.backup"

  /** The Rank Mirrors button followed through rankMirrors: the commands
      started, in order. A cancelled count dialog starts nothing. Otherwise
      the mirror list is backed up first, and the ranking command follows
      only when the progress dialog was not cancelled and the backup exited
      0. Its words are the tool's argument vector with no count for "Rank
      All Mirrors", the default 10 when nothing was entered, and a count
      between 1 and 100 otherwise. */
  function RankMirrorsClicked(accepted: bool, rankAll: bool, entered: Option<int>,
                              progressCancelled: bool, backupExit: int, hasReflector: bool): (started: seq<string>)
    ensures started == [] <==> !accepted
    ensures accepted ==> started[0] == MirrorBackup
    ensures |started| <= 2
    ensures |started| == 2 <==> accepted && !progressCancelled && backupExit == 0
    ensures |started| == 2 && rankAll ==> Words(started[1]) == RankArgv(hasReflector, 0)
    ensures |started| == 2 && !rankAll && entered.None? ==> Words(started[1]) == RankArgv(hasReflector, 10)
    ensures |started| == 2 && !rankAll ==> exists n :: 1 <= n <= 100 && Words(started[1]) == RankArgv(hasReflector, n)
  {
    var mirrorCount := MirrorCount(accepted, rankAll, entered, 10, 1, 100);
    if mirrorCount == -1 then []
    else if progressCancelled || backupExit != 0 then [MirrorBackup]
    else
      RankCommandWords(hasReflector, mirrorCount);
      [MirrorBackup, RankMirrorsCommand(hasReflector, mirrorCount)]
  }

  /** With the dialog's defaults (10, range 1..100) the ranking command is
      the one built from the dialog's count, which is 0 for "Rank All
      Mirrors" and between 1 and 100 for any other acceptance. */
  lemma RankMirrorsFlow(accepted: bool, rankAll: bool, entered: Option<int>,
                        progressCancelled: bool, backupExit: int, hasReflector: bool)
    requires accepted && !progressCancelled && backupExit == 0
    ensures var started := RankMirrorsClicked(accepted, rankAll, entered, progressCancelled, backupExit, hasReflector);
      started == [MirrorBackup, RankMirrorsCommand(hasReflector, MirrorCount(accepted, rankAll, entered, 10, 1, 100))]
    ensures rankAll ==> MirrorCount(accepted, rankAll, entered, 10, 1, 100) == 0
    ensures !rankAll ==> 1 <= MirrorCount(accepted, rankAll, entered, 10, 1, 100) <= 100
    ensures !rankAll && entered.None? ==> MirrorCount(accepted, rankAll, entered, 10, 1, 100) == 10
  {
  }
}
