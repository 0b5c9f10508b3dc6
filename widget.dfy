/**
 * The main window's status checks and maintenance actions: the Chaotic-AUR
 * and VMware status classifiers, the terminal-theming toggle on
 * config.fish, the sequential package-removal stepper and the package
 * cache cleaner. Process results (exit codes, standard output) are
 * parameters; files are `Option<seq<string>>`, None when they cannot be
 * opened.
 */
module Widget {
  import opened Text

  // ---------------------------------------------------------------------
  // Chaotic-AUR and VMware status
  // ---------------------------------------------------------------------

  /** checkChaoticAURStatus: 1 when fully configured, 2 when nothing is set
      up, 3 for a partial setup. */
  function ChaoticStatus(keyExist: bool, packagesInstalled: bool, repoHeaderExists: bool, includeLineExists: bool): (r: int)
    ensures r == 1 || r == 2 || r == 3
    ensures r == 1 <==> keyExist && packagesInstalled && repoHeaderExists && includeLineExists
    ensures r == 2 <==> !keyExist && !packagesInstalled && !repoHeaderExists && !includeLineExists
  {
    if keyExist && packagesInstalled && repoHeaderExists && includeLineExists then 1
    else if !keyExist && !packagesInstalled && !repoHeaderExists && !includeLineExists then 2
    else 3
  }

  const VmwareServices: seq<string> := ["vmware-networks.service", "vmware-usbarbitrator.service"]

  /** A service whose `systemctl is-enabled` output trims to "enabled" and
      whose `systemctl is-active` output trims to "active". */
  predicate ServiceUp(service: string, enabledOut: string -> string, activeOut: string -> string) {
    TrimAscii(enabledOut(service)) == "enabled" && TrimAscii(activeOut(service)) == "active"
  }

  /** vmwareServiceStatus' loop: true when every service is up; it probes
      the services in order and stops at the first one that is not. */
  method ServicesStatus(services: seq<string>, enabledOut: string -> string, activeOut: string -> string)
    returns (allServicesActive: bool, probed: nat)
    ensures allServicesActive <==> forall i :: 0 <= i < |services| ==> ServiceUp(services[i], enabledOut, activeOut)
    ensures probed <= |services|
    ensures forall i :: 0 <= i < probed - 1 ==> ServiceUp(services[i], enabledOut, activeOut)
    ensures allServicesActive ==> probed == |services|
    ensures !allServicesActive ==> probed >= 1 && !ServiceUp(services[probed - 1], enabledOut, activeOut)
  {
    allServicesActive := true;
    probed := 0;
    while probed < |services|
      invariant probed <= |services|
      invariant forall i :: 0 <= i < probed ==> ServiceUp(services[i], enabledOut, activeOut)
    {
      var service := services[probed];
      var isEnabled := TrimAscii(enabledOut(service)) == "enabled";
      var isActive := TrimAscii(activeOut(service)) == "active";
      probed := probed + 1;
      if !isActive || !isEnabled {
        allServicesActive := false;
        break;
      }
    }
  }

  /** vmwareStatus: 0 when the package is installed and its services are
      up, 1 when neither holds, 2 otherwise. */
  function VmwareStatus(pkgInstalled: bool, servicesUp: bool): (r: int)
    ensures r == 0 || r == 1 || r == 2
    ensures r == 0 <==> pkgInstalled && servicesUp
    ensures r == 1 <==> !pkgInstalled && !servicesUp
  {
    if pkgInstalled && servicesUp then 0
    else if !pkgInstalled && !servicesUp then 1
    else 2
  }

  // ---------------------------------------------------------------------
  // Terminal theming in config.fish
  // ---------------------------------------------------------------------

  const OhMyPosh := "oh-my-posh"
  const TargetLine := OhMyPosh + " init fish --config $HOME/.config/oh-my-posh-themes/ada-atomic.omp.json"

  /** The index of the first line containing p. */
  function FirstContaining(lines: seq<string>, p: string): (r: Option<nat>)
    ensures r.Some? ==> r.value < |lines| && Contains(lines[r.value], p)
                        && forall j :: 0 <= j < r.value ==> !Contains(lines[j], p)
    ensures r.None? ==> forall j :: 0 <= j < |lines| ==> !Contains(lines[j], p)
  {
    if lines == [] then None
    else if Contains(lines[0], p) then Some(0)
    else
      match FirstContaining(lines[1..], p)
      case None => None
      case Some(k) => Some(k + 1)
  }

  /** checkTermThemingStatus: 0 when config.fish cannot be read or no line
      holds the oh-my-posh command; otherwise the first such line decides,
      2 when it is commented out, 1 when it is not. */
  function TermThemingStatus(config: Option<seq<string>>): (r: int)
    ensures r == 0 || r == 1 || r == 2
    ensures r == 0 <==> config.None? || forall j :: 0 <= j < |config.value| ==> !Contains(config.value[j], TargetLine)
    ensures r != 0 ==> exists k ::
      && 0 <= k < |config.value| && Contains(config.value[k], TargetLine)
      && (forall j :: 0 <= j < k ==> !Contains(config.value[j], TargetLine))
      && (r == 2 <==> StartsWith(config.value[k], "#"))
  {
    if config.None? then 0
    else match FirstContaining(config.value, TargetLine)
      case None => 0
      case Some(k) => if StartsWith(config.value[k], "#") then 2 else 1
  }

  /** QString::mid(1). */
  function DropFirst(s: string): string {
    if s == [] then s else s[1..]
  }

  /** disableTermTheme's per-line rewrite: a line holding the command is
      commented out when the status is 1 and loses its first character
      otherwise; other lines are kept. */
  function ToggleLine(line: string, status: int): string {
    if Contains(line, TargetLine) then (if status == 1 then "#" + line else DropFirst(line)) else line
  }

  function ToggledLines(lines: seq<string>, status: int): seq<string> {
    seq(|lines|, i requires 0 <= i < |lines| => ToggleLine(lines[i], status))
  }

  /** disableTermTheme: nothing is written when the status is 0, when the
      theme json is missing, or when the user declines; otherwise every
      line holding the command is toggled, all other lines are kept in
      order. */
  method DisableTermTheme(config: Option<seq<string>>, jsonExists: bool, confirmed: bool)
    returns (written: Option<seq<string>>)
    ensures var status := TermThemingStatus(config);
      status == 0 || !jsonExists || !confirmed ==> written.None?
    ensures var status := TermThemingStatus(config);
      status != 0 && jsonExists && confirmed ==> written == Some(ToggledLines(config.value, status))
  {
    var status := TermThemingStatus(config);
    if status == 0 {
      return None;
    }
    if !jsonExists {
      return None;
    }
    if !confirmed {
      return None;
    }
    var lines := ToggleLoop(config.value, status);
    written := Some(lines);
  }

  /** disableTermTheme's read loop, toggling each line that holds the
      command. */
  method ToggleLoop(lines: seq<string>, status: int) returns (out: seq<string>)
    ensures out == ToggledLines(lines, status)
  {
    out := [];
    var i := 0;
    while i < |lines|
      invariant 0 <= i <= |lines|
      invariant |out| == i && forall k :: 0 <= k < i ==> out[k] == ToggleLine(lines[k], status)
    {
      var line := lines[i];
      if Contains(line, TargetLine) {
        line := if status == 1 then "#" + line else DropFirst(line);
      }
      out := out + [line];
      i := i + 1;
    }
  }

  /** The command does not start with '#', so commenting a line out neither
      adds nor removes an occurrence. */
  lemma CommentKeepsTarget(line: string)
    ensures Contains("#" + line, TargetLine) <==> Contains(line, TargetLine)
  {
    var hashed := "#" + line;
    assert hashed[1..] == line;
    assert TargetLine[0] == OhMyPosh[0] == 'o';
    assert !StartsWith(hashed, TargetLine) by {
      assert hashed[0] == '#';
    }
    if Contains(line, TargetLine) {
      ContainsAfter("#", line, TargetLine);
    }
  }

  lemma {:induction false} FirstContainingSame(a: seq<string>, b: seq<string>, p: string)
    requires |a| == |b|
    requires forall k :: 0 <= k < |a| ==> (Contains(a[k], p) <==> Contains(b[k], p))
    ensures FirstContaining(a, p) == FirstContaining(b, p)
  {
    if a != [] {
      assert forall k :: 0 <= k < |a| - 1 ==> a[1..][k] == a[k + 1] && b[1..][k] == b[k + 1];
      FirstContainingSame(a[1..], b[1..], p);
    }
  }

  /** From an enabled theme, one toggle disables it and a second toggle
      restores config.fish exactly. */
  lemma TermToggleTwice(lines: seq<string>)
    requires TermThemingStatus(Some(lines)) == 1
    ensures var once := ToggledLines(lines, 1);
      TermThemingStatus(Some(once)) == 2 && ToggledLines(once, 2) == lines
  {
    var once := ToggledLines(lines, 1);
    forall k | 0 <= k < |lines|
      ensures Contains(once[k], TargetLine) <==> Contains(lines[k], TargetLine)
      ensures Contains(lines[k], TargetLine) ==> once[k] == "#" + lines[k]
    {
      CommentKeepsTarget(lines[k]);
    }
    FirstContainingSame(once, lines, TargetLine);
    var k := FirstContaining(lines, TargetLine).value;
    assert StartsWith(once[k], "#");
    var twice := ToggledLines(once, 2);
    forall j | 0 <= j < |lines|
      ensures twice[j] == lines[j]
    {
      if Contains(lines[j], TargetLine) {
        assert ("#" + lines[j])[1..] == lines[j];
      }
    }
  }

  // ---------------------------------------------------------------------
  // Removing the meta packages step by step
  // ---------------------------------------------------------------------

  const YayClean := "yay -Yc --noconfirm"
  const OrphanRemoval := "pacman -Rns $(pacman -Qtdq) --noconfirm"
  const OrphanRemovalAsWritten := "pacman -Rns &(pacman -Qtdq) --noconfirm"

  /** The last removal step: clean up with yay when it is installed, remove
      orphans with pacman otherwise. */
  function CleanupStep(yayInstalled: bool, orphanRemoval: string): string {
    if yayInstalled then YayClean else orphanRemoval
  }

  const GamingPackages: seq<string> := [
    "pacman -R ada-gaming-meta --noconfirm",
    "pacman -R steam-native-runtime --noconfirm",
    "pacman -R steam lutris bottles dosbox goverlay heroic-games-launcher-bin portproton protonplus protonup-qt vkbasalt gamemode lib32-gamemode q4wine-git wine-gecko wine-mono wine-nine protontricks --noconfirm",
    "pacman -R winetricks wine-staging --noconfirm",
    "pacman -R gamescope mangohud vkd3d proton-ge-custom-bin --noconfirm",
    "pacman -R lib32-vkd3d vkbasalt-cli reshade-shaders-git --noconfirm"
  ]

  const DevelopmentPackages: seq<string> := [
    "pacman -R ada-development-meta --noconfirm",
    "pacman -R geany-themes --noconfirm",
    "pacman -R geany visual-studio-code-bin zed jetbrains-toolbox github-desktop sublime-text-4 --noconfirm"
  ]

  /** removeAdaGamingMeta's command list: six removals and the cleanup
      step. */
  function GamingRemoveCommands(yayInstalled: bool): (r: seq<string>)
    ensures |r| == 7 && r[..6] == GamingPackages
    ensures r[6] == CleanupStep(yayInstalled, OrphanRemoval)
  {
    GamingPackages + [CleanupStep(yayInstalled, OrphanRemoval)]
  }

  /** removeAdaDevelopmentMeta's command list as written: without yay its
      last command spells the command substitution `&(` instead of `$(`. */
  function DevelopmentRemoveCommandsAsWritten(yayInstalled: bool): (r: seq<string>)
    ensures |r| == 4 && r[..3] == DevelopmentPackages
    ensures r[3] == CleanupStep(yayInstalled, OrphanRemovalAsWritten)
  {
    DevelopmentPackages + [CleanupStep(yayInstalled, OrphanRemovalAsWritten)]
  }

  /** The evidently intended list: the same cleanup step as the gaming
      list. */
  function DevelopmentRemoveCommands(yayInstalled: bool): (r: seq<string>)
    ensures |r| == 4 && r[..3] == DevelopmentPackages
    ensures r[3] == GamingRemoveCommands(yayInstalled)[6]
  {
    DevelopmentPackages + [CleanupStep(yayInstalled, OrphanRemoval)]
  }

  /** Without yay, the list as written ends in a command with no command
      substitution, unlike the gaming list's orphan removal. */
  lemma OrphanCommandTypo()
    ensures DevelopmentRemoveCommandsAsWritten(false)[3] != GamingRemoveCommands(false)[6]
    ensures '$' !in DevelopmentRemoveCommandsAsWritten(false)[3] && '$' in OrphanRemoval
  {
    assert OrphanRemoval[12] == '$';
    assert forall i :: 0 <= i < |OrphanRemovalAsWritten| ==> OrphanRemovalAsWritten[i] != '$';
  }

  function Min(a: int, b: int): int {
    if a <= b then a else b
  }

  /** The commands started after `step` handler runs: the initial start of
      the first command, when it does not advance the step, followed by
      the first `step` commands. */
  function Started(commands: seq<string>, repeatsFirst: bool, step: nat): seq<string>
    requires 0 < |commands| && step <= |commands|
  {
    (if repeatsFirst then [commands[0]] else []) + commands[..step]
  }

  lemma StartedSnoc(commands: seq<string>, repeatsFirst: bool, step: nat)
    requires 0 < |commands| && step < |commands|
    ensures Started(commands, repeatsFirst, step + 1) == Started(commands, repeatsFirst, step) + [commands[step]]
  {
    assert commands[..step + 1] == commands[..step] + [commands[step]];
  }

  /** The progress after `step` handler runs, each adding `unit`. */
  function Progress(step: nat, unit: int): (r: int)
    ensures r == step * unit
    ensures unit >= 0 ==> r >= 0
  {
    if step == 0 then 0 else Progress(step - 1, unit) + unit
  }

  /** With n commands, each step adding 100 / n, the progress after at most
      n steps stays within 0..100, and ends short of 100 when n does not
      divide 100. */
  lemma ProgressWithinHundred(step: nat, n: nat)
    requires 0 < n && step <= n
    ensures 0 <= Progress(step, 100 / n) <= 100
    ensures 100 % n != 0 ==> Progress(n, 100 / n) < 100
  {
    var unit := 100 / n;
    HundredSplits(n, unit);
    MulLeq(step, n, unit);
  }

  /** n copies of 100 / n make up 100 less the remainder. */
  lemma HundredSplits(n: nat, unit: int)
    requires 0 < n && unit == 100 / n
    ensures unit >= 0 && n * unit == 100 - 100 % n && 0 <= 100 % n < n
  {
  }

  lemma MulLeq(a: nat, b: nat, c: nat)
    requires a <= b
    ensures a * c <= b * c
  {
    assert b * c == a * c + (b - a) * c;
  }

  /** The state captured by the removal lambda (currentStep, progressValue)
      and what it drives: the commands started, the progress dialog's value
      and whether completion was reported. The method starts the first
      command itself before any finished signal arrives. */
  class Stepper {
    const commands: seq<string>
    /** Whether the first command was started without advancing the step,
        as removeAdaGamingMeta and removeAdaDevelopmentMeta do. */
    const repeatsFirst: bool
    var currentStep: nat
    var progressValue: int
    var shown: int
    var started: seq<string>
    var done: bool

    predicate Valid()
      reads this
    {
      && 0 < |commands| && currentStep <= |commands|
      && progressValue == Progress(currentStep, 100 / |commands|)
      && started == Started(commands, repeatsFirst, currentStep)
      && (done ==> currentStep == |commands| && shown == 100)
      && (!done ==> 0 <= shown <= 95)
    }

    /** As written: the first command starts and currentStep stays 0, so
        the first finished signal starts it again. */
    constructor AsWritten(commands: seq<string>)
      requires 0 < |commands|
      ensures Valid() && this.commands == commands && repeatsFirst
      ensures currentStep == 0 && started == [commands[0]] && !done
    {
      this.commands := commands;
      repeatsFirst := true;
      currentStep := 0;
      progressValue := 0;
      shown := 0;
      started := [commands[0]];
      done := false;
    }

    /** The evidently intended start: the initial start does the handler's
        bookkeeping, so each command runs once. */
    constructor Corrected(commands: seq<string>)
      requires 0 < |commands|
      ensures Valid() && this.commands == commands && !repeatsFirst
      ensures currentStep == 1 && started == [commands[0]] && !done
    {
      this.commands := commands;
      repeatsFirst := false;
      currentStep := 1;
      progressValue := 100 / |commands|;
      shown := Min(100 / |commands|, 95);
      started := [commands[0]];
      done := false;
    }

    /** The finished-signal handler: start the next command and advance the
        progress (capped at 95), or report completion at 100. */
    method OnFinished()
      requires Valid()
      modifies this
      ensures Valid()
      ensures old(currentStep) < |commands| ==>
        && currentStep == old(currentStep) + 1
        && started == old(started) + [commands[old(currentStep)]]
        && shown == Min(progressValue, 95) && !done
      ensures old(currentStep) == |commands| ==>
        currentStep == old(currentStep) && started == old(started) && shown == 100 && done
    {
      if currentStep < |commands| {
        StartedSnoc(commands, repeatsFirst, currentStep);
        started := started + [commands[currentStep]];
        progressValue := progressValue + 100 / |commands|;
        shown := Min(progressValue, 95);
        currentStep := currentStep + 1;
      } else {
        shown := 100;
        done := true;
      }
    }
  }

  /** Delivers finished signals until completion is reported. As written,
      the first command runs twice; corrected, every command runs once,
      in order. */
  method RunToCompletion(commands: seq<string>, asWritten: bool) returns (started: seq<string>, signals: nat)
    requires 0 < |commands|
    ensures started == if asWritten then [commands[0]] + commands else commands
    ensures signals == if asWritten then |commands| + 1 else |commands|
  {
    var stepper;
    if asWritten {
      stepper := new Stepper.AsWritten(commands);
    } else {
      stepper := new Stepper.Corrected(commands);
    }
    signals := 0;
    while !stepper.done
      invariant stepper.Valid() && stepper.commands == commands && stepper.repeatsFirst == asWritten
      invariant signals == stepper.currentStep - (if asWritten then 0 else 1) + (if stepper.done then 1 else 0)
      decreases |commands| - stepper.currentStep, !stepper.done
    {
      stepper.OnFinished();
      signals := signals + 1;
    }
    assert commands[..|commands|] == commands;
    started := stepper.started;
  }

  // ---------------------------------------------------------------------
  // Cleaning the package cache
  // ---------------------------------------------------------------------

  /** A directory entry of a cache directory. */
  datatype Entry = Entry(name: string, isDir: bool)

  const ExcludeFiles := ["completion.cache", "vcs.json"]
  const ExcludeDirs := ["local", "sync"]

  predicate Excluded(name: string) {
    name in ExcludeFiles || name in ExcludeDirs
  }

  /** The entries of one directory that are not excluded, in order. */
  function Kept(entries: seq<Entry>): seq<Entry> {
    if entries == [] then []
    else
      var last := entries[|entries| - 1];
      Kept(entries[..|entries| - 1]) + (if Excluded(last.name) then [] else [last])
  }

  lemma {:induction false} KeptMembers(entries: seq<Entry>)
    ensures forall e :: e in Kept(entries) <==> e in entries && !Excluded(e.name)
  {
    if entries != [] {
      var init := entries[..|entries| - 1];
      assert entries == init + [entries[|entries| - 1]];
      KeptMembers(init);
    }
  }

  /** The non-excluded entries of the cache directories that exist. */
  function CacheEntries(dirs: seq<Option<seq<Entry>>>): seq<Entry> {
    if dirs == [] then []
    else
      var last := dirs[|dirs| - 1];
      CacheEntries(dirs[..|dirs| - 1]) + (if last.Some? then Kept(last.value) else [])
  }

  /** The cleaner's candidates are exactly the non-excluded entries of the
      existing directories. */
  lemma {:induction false} CacheEntriesMembers(dirs: seq<Option<seq<Entry>>>)
    ensures forall e :: e in CacheEntries(dirs) ==> !Excluded(e.name)
    ensures forall d, e :: 0 <= d < |dirs| && dirs[d].Some? && e in dirs[d].value && !Excluded(e.name) ==> e in CacheEntries(dirs)
    ensures forall e :: e in CacheEntries(dirs) ==> exists d :: 0 <= d < |dirs| && dirs[d].Some? && e in dirs[d].value
  {
    if dirs != [] {
      var init := dirs[..|dirs| - 1];
      var last := dirs[|dirs| - 1];
      assert forall d :: 0 <= d < |init| ==> init[d] == dirs[d];
      CacheEntriesMembers(init);
      if last.Some? {
        KeptMembers(last.value);
      }
    }
  }

  /** The directories among the entries. */
  function DirsOnly(entries: seq<Entry>): seq<Entry> {
    if entries == [] then []
    else
      var last := entries[|entries| - 1];
      DirsOnly(entries[..|entries| - 1]) + (if last.isDir then [last] else [])
  }

  lemma {:induction false} DirsOnlyMembers(entries: seq<Entry>)
    ensures forall e :: e in DirsOnly(entries) <==> e in entries && e.isDir
  {
    if entries != [] {
      var init := entries[..|entries| - 1];
      assert entries == init + [entries[|entries| - 1]];
      DirsOnlyMembers(init);
    }
  }

  lemma {:induction false} DirsOnlyAppend(a: seq<Entry>, b: seq<Entry>)
    ensures DirsOnly(a + b) == DirsOnly(a) + DirsOnly(b)
    decreases |b|
  {
    if b == [] {
      assert a + b == a;
    } else {
      var init := b[..|b| - 1];
      assert (a + b)[..|a + b| - 1] == a + init;
      DirsOnlyAppend(a, init);
    }
  }

  /** cleanPkgCache: filesFound is set by any entry that is not excluded,
      but removal is attempted on directories only; excluded names are never
      touched. `removed` lists the directories removal was attempted on: the
      `pkexec rm -f` fallback has no `-r`, so a directory that
      removeRecursively could not delete stays in place. */
  method CleanPkgCache(dirs: seq<Option<seq<Entry>>>) returns (filesFound: bool, removed: seq<Entry>)
    ensures filesFound <==> CacheEntries(dirs) != []
    ensures removed == DirsOnly(CacheEntries(dirs))
    ensures forall e :: e in removed ==> e.isDir && !Excluded(e.name)
  {
    filesFound := false;
    removed := [];
    var d := 0;
    while d < |dirs|
      invariant 0 <= d <= |dirs|
      invariant filesFound <==> CacheEntries(dirs[..d]) != []
      invariant removed == DirsOnly(CacheEntries(dirs[..d]))
    {
      CacheDirsStep(dirs, d);
      if dirs[d].Some? {
        var found, gone := CleanDir(dirs[d].value);
        filesFound := filesFound || found;
        removed := removed + gone;
      }
      d := d + 1;
    }
    assert dirs[..|dirs|] == dirs;
    CacheEntriesMembers(dirs);
    DirsOnlyMembers(CacheEntries(dirs));
  }

  /** One more directory adds its kept entries, and of them its
      directories. */
  lemma CacheDirsStep(dirs: seq<Option<seq<Entry>>>, d: nat)
    requires d < |dirs|
    ensures var kept := if dirs[d].Some? then Kept(dirs[d].value) else [];
      && DirsOnly(CacheEntries(dirs[..d + 1])) == DirsOnly(CacheEntries(dirs[..d])) + (if dirs[d].Some? then DirsOnly(kept) else [])
      && (CacheEntries(dirs[..d + 1]) != [] <==> CacheEntries(dirs[..d]) != [] || kept != [])
  {
    CacheEntriesSnoc(dirs, d);
    var kept := if dirs[d].Some? then Kept(dirs[d].value) else [];
    DirsOnlyAppend(CacheEntries(dirs[..d]), kept);
    if dirs[d].None? {
      assert CacheEntries(dirs[..d]) + [] == CacheEntries(dirs[..d]);
    }
  }

  lemma CacheEntriesSnoc(dirs: seq<Option<seq<Entry>>>, d: nat)
    requires d < |dirs|
    ensures CacheEntries(dirs[..d + 1]) == CacheEntries(dirs[..d]) + (if dirs[d].Some? then Kept(dirs[d].value) else [])
  {
    assert dirs[..d + 1][..d] == dirs[..d];
  }

  /** The loop over one directory's entries. */
  method CleanDir(entries: seq<Entry>) returns (found: bool, removed: seq<Entry>)
    ensures found <==> Kept(entries) != []
    ensures removed == DirsOnly(Kept(entries))
  {
    found := false;
    removed := [];
    var i := 0;
    while i < |entries|
      invariant 0 <= i <= |entries|
      invariant found <==> Kept(entries[..i]) != []
      invariant removed == DirsOnly(Kept(entries[..i]))
    {
      var entry := entries[i];
      KeptSnoc(entries, i);
      if Excluded(entry.name) {
        assert Kept(entries[..i]) + [] == Kept(entries[..i]);
        i := i + 1;
        continue;
      }
      found := true;
      DirsOnlySnoc(Kept(entries[..i]), entry);
      if entry.isDir {
        removed := removed + [entry];
      }
      i := i + 1;
    }
    assert entries[..|entries|] == entries;
  }

  lemma DirsOnlySnoc(entries: seq<Entry>, e: Entry)
    ensures DirsOnly(entries + [e]) == DirsOnly(entries) + (if e.isDir then [e] else [])
  {
    assert (entries + [e])[..|entries|] == entries;
  }

  lemma KeptSnoc(entries: seq<Entry>, i: nat)
    requires i < |entries|
    ensures Kept(entries[..i + 1]) == Kept(entries[..i]) + (if Excluded(entries[i].name) then [] else [entries[i]])
  {
    assert entries[..i + 1][..i] == entries[..i];
  }

  /** The evidently intended cleaner: every entry that is not excluded is
      removed, plain files as well as directories. */
  method CleanPkgCacheIntended(dirs: seq<Option<seq<Entry>>>) returns (filesFound: bool, removed: seq<Entry>)
    ensures filesFound <==> removed != []
    ensures removed == CacheEntries(dirs)
    ensures forall e :: e in removed ==> !Excluded(e.name)
    ensures forall d, e :: 0 <= d < |dirs| && dirs[d].Some? && e in dirs[d].value && !Excluded(e.name) ==> e in removed
  {
    filesFound := false;
    removed := [];
    var d := 0;
    while d < |dirs|
      invariant 0 <= d <= |dirs|
      invariant removed == CacheEntries(dirs[..d])
      invariant filesFound <==> removed != []
    {
      CacheEntriesSnoc(dirs, d);
      if dirs[d].Some? {
        var gone := CleanDirIntended(dirs[d].value);
        filesFound := filesFound || gone != [];
        removed := removed + gone;
      } else {
        assert CacheEntries(dirs[..d]) + [] == CacheEntries(dirs[..d]);
      }
      d := d + 1;
    }
    assert dirs[..|dirs|] == dirs;
    CacheEntriesMembers(dirs);
  }

  method CleanDirIntended(entries: seq<Entry>) returns (removed: seq<Entry>)
    ensures removed == Kept(entries)
  {
    removed := [];
    var i := 0;
    while i < |entries|
      invariant 0 <= i <= |entries|
      invariant removed == Kept(entries[..i])
    {
      var entry := entries[i];
      KeptSnoc(entries, i);
      if Excluded(entry.name) {
        assert Kept(entries[..i]) + [] == Kept(entries[..i]);
        i := i + 1;
        continue;
      }
      removed := removed + [entry];
      i := i + 1;
    }
    assert entries[..|entries|] == entries;
  }

  /** A cache holding one package archive: cleanPkgCache reports files
      found and success, yet removes nothing, while the intended cleaner
      removes the archive. */
  lemma PackageArchiveKept()
    ensures var archive := Entry("linux-6.9.tar.zst", false);
      var dirs := [Some([archive])];
      CacheEntries(dirs) == [archive] && DirsOnly(CacheEntries(dirs)) == []
  {
    var archive := Entry("linux-6.9.tar.zst", false);
    var dirs := [Some([archive])];
    assert !Excluded(archive.name) by {
      assert archive.name[1] == 'i';
    }
    assert dirs[..0] == [] && [archive][..0] == [];
    assert Kept([archive]) == [archive];
    assert CacheEntries(dirs) == [archive];
    assert DirsOnly([archive]) == [];
  }
}
