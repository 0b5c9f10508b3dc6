/**
 * The automount reconciler of the privileged mounter helper.
 *
 * The helper reads an allowlist of `UUID=<uuid>` tokens, reads which
 * partitions are mounted under /mnt/ from the output of `mount`, mounts
 * every allowed partition that is not mounted at /mnt/<uuid>, and
 * unmounts every partition mounted under /mnt/ that is no longer allowed.
 * Processes are not run here: the allowlist file, the `mount` listing and
 * the outputs of readlink, blkid and umount are inputs, and the commands
 * the helper issues are returned as a log of directives.
 */
module Mounter {
  import opened Text

  const ConfPath := "/etc/ada/tolitica/automount/manually_enabled.conf"
  const DiskByUuidPath := "/dev/disk/by-uuid/"
  const MntPrefix := "/mnt/"
  const UuidPrefix := "UUID="
  const Bom: char := '\U{FEFF}'

  /** A diagnostic the helper writes with qWarning. */
  datatype Warning = CannotOpen(path: string) | InvalidLine(line: string)

  /** How one line of the allowlist is read. */
  datatype LineVerdict = Skipped | Accepted(token: string) | Rejected(line: string)

  /** A command the helper issues, with its arguments. */
  datatype Directive =
    | Mkdir(dir: string)
    | ReadLink(path: string)
    | Blkid(device: string)
    | Mount(fsType: string, source: string, dir: string)
    | Umount(dir: string)

  predicate Distinct(s: seq<string>) {
    forall i, j :: 0 <= i < j < |s| ==> s[i] != s[j]
  }

  // ---------------------------------------------------------------------
  // The allowlist reader
  // ---------------------------------------------------------------------

  /** Removes one leading byte order mark. */
  function StripBom(line: string): string {
    if line != [] && line[0] == Bom then line[1..] else line
  }

  /** One allowlist line: trimmed, a leading U+FEFF removed, blank and `#`
      lines skipped, `UUID=` lines accepted whole, anything else rejected. */
  function ReadConfLine(raw: string): LineVerdict {
    var line := StripBom(Trim(raw));
    if line == [] || StartsWith(line, "#") then Skipped
    else if StartsWith(line, UuidPrefix) then Accepted(line)
    else Rejected(line)
  }

  /** The token, if any, that reading one line yields. */
  function ConfToken(raw: string): (r: Option<string>)
    ensures r.Some? ==> StartsWith(r.value, UuidPrefix)
  {
    var v := ReadConfLine(raw);
    if v.Accepted? then Some(v.token) else None
  }

  /** The set a reader loop builds by inserting the token of each line read. */
  function Gather(lines: seq<string>, read: string -> Option<string>): set<string> {
    if lines == [] then {}
    else
      var tok := read(lines[|lines| - 1]);
      Gather(lines[..|lines| - 1], read) + (if tok.Some? then {tok.value} else {})
  }

  /** A token is gathered exactly when some line reads as it. */
  lemma {:induction false} GatherMembers(lines: seq<string>, read: string -> Option<string>, t: string)
    ensures t in Gather(lines, read) <==> exists i :: 0 <= i < |lines| && read(lines[i]) == Some(t)
  {
    if lines != [] {
      var init := lines[..|lines| - 1];
      GatherMembers(init, read, t);
      if exists i :: 0 <= i < |init| && read(init[i]) == Some(t) {
        var i :| 0 <= i < |init| && read(init[i]) == Some(t);
        assert lines[i] == init[i];
      }
      if exists i :: 0 <= i < |lines| && read(lines[i]) == Some(t) {
        var i :| 0 <= i < |lines| && read(lines[i]) == Some(t);
        if i < |init| {
          assert init[i] == lines[i];
        }
      }
    }
  }

  /** The tokens accepted from the lines of the allowlist. */
  function DesiredFrom(lines: seq<string>): set<string> {
    Gather(lines, ConfToken)
  }

  /** The lines warned about, in file order. */
  function RejectionsFrom(lines: seq<string>): seq<Warning> {
    if lines == [] then []
    else
      var v := ReadConfLine(lines[|lines| - 1]);
      RejectionsFrom(lines[..|lines| - 1]) + (if v.Rejected? then [InvalidLine(v.line)] else [])
  }

  /** The desired set; a file that cannot be opened is None. */
  function Desired(conf: Option<seq<string>>): set<string> {
    if conf.None? then {} else DesiredFrom(conf.value)
  }

  function ConfWarnings(conf: Option<seq<string>>): seq<Warning> {
    if conf.None? then [CannotOpen(ConfPath)] else RejectionsFrom(conf.value)
  }

  /** getManuallyEnabledPartitions: reads the allowlist line by line. */
  method GetManuallyEnabledPartitions(conf: Option<seq<string>>) returns (enabled: set<string>, warnings: seq<Warning>)
    ensures enabled == Desired(conf) && warnings == ConfWarnings(conf)
    ensures conf.None? ==> enabled == {} && warnings == [CannotOpen(ConfPath)]
    ensures forall t :: t in enabled ==> StartsWith(t, UuidPrefix)
  {
    enabled := {};
    if conf.None? {
      warnings := [CannotOpen(ConfPath)];
      return;
    }
    var lines := conf.value;
    warnings := [];
    var i := 0;
    while i < |lines|
      invariant 0 <= i <= |lines|
      invariant enabled == DesiredFrom(lines[..i])
      invariant forall t :: t in enabled ==> StartsWith(t, UuidPrefix)
      invariant warnings == RejectionsFrom(lines[..i])
    {
      var line := Trim(lines[i]);
      line := StripBom(line);
      if line == [] || StartsWith(line, "#") {
      } else if StartsWith(line, UuidPrefix) {
        enabled := enabled + {line};
      } else {
        warnings := warnings + [InvalidLine(line)];
      }
      ReadStep(lines, i);
      i := i + 1;
    }
    assert lines[..|lines|] == lines;
  }

  /** Reading one more line adds that line's token and its warning. */
  lemma ReadStep(lines: seq<string>, i: nat)
    requires i < |lines|
    ensures var v := ReadConfLine(lines[i]);
      && DesiredFrom(lines[..i + 1]) == DesiredFrom(lines[..i]) + (if v.Accepted? then {v.token} else {})
      && RejectionsFrom(lines[..i + 1]) == RejectionsFrom(lines[..i]) + (if v.Rejected? then [InvalidLine(v.line)] else [])
  {
    assert lines[..i + 1][..i] == lines[..i];
  }

  /** Every desired token starts with `UUID=` and comes from a line of the file. */
  lemma DesiredMembers(lines: seq<string>, t: string)
    ensures t in DesiredFrom(lines) <==> exists i :: 0 <= i < |lines| && ReadConfLine(lines[i]) == Accepted(t)
    ensures t in DesiredFrom(lines) ==> StartsWith(t, UuidPrefix)
  {
    GatherMembers(lines, ConfToken, t);
    if t in DesiredFrom(lines) {
      var i :| 0 <= i < |lines| && ConfToken(lines[i]) == Some(t);
    }
  }

  /** A trimmed `UUID=` line is accepted as itself, with or without a
      leading byte order mark. */
  lemma BomIsStripped(t: string)
    requires StartsWith(t, UuidPrefix) && Trim(t) == t
    ensures ReadConfLine(t) == Accepted(t)
    ensures ReadConfLine([Bom] + t) == Accepted(t)
  {
    assert t[0] == 'U';
    assert !IsSpace(t[|t| - 1]);
    TrimNoop([Bom] + t);
    assert ([Bom] + t)[1..] == t;
  }

  // ---------------------------------------------------------------------
  // The mount probe
  // ---------------------------------------------------------------------

  /** The token a mountpoint stands for: `/mnt/<seg>/...` gives
      `UUID=<seg>` when seg is not empty. */
  function EntryToken(mountPoint: string): (r: Option<string>)
    ensures r.Some? ==> StartsWith(r.value, UuidPrefix) && |r.value| > |UuidPrefix|
  {
    if !StartsWith(mountPoint, MntPrefix) then None
    else
      var raw := Section(mountPoint, '/', 2);
      if raw == [] then None else Some(UuidPrefix + raw)
  }

  /** One line of `mount` output: `<device> on <mountpoint> type <fs> (<options>)`. */
  function MountLineToken(line: string): (r: Option<string>)
    ensures r.Some? ==> StartsWith(r.value, UuidPrefix) && |r.value| > |UuidPrefix|
  {
    if !Contains(line, MntPrefix) then None
    else
      var tokens := Words(line);
      if |tokens| < 3 then None else EntryToken(tokens[2])
  }

  function ActualFrom(lines: seq<string>): set<string> {
    Gather(lines, MountLineToken)
  }

  /** The non-empty lines of the `mount` output. */
  function OutputLines(mountOutput: string): seq<string> {
    NonEmpty(Split(mountOutput, "\n"))
  }

  function Actual(mountOutput: string): set<string> {
    ActualFrom(OutputLines(mountOutput))
  }

  /** getMountedPartitions: reads the `mount` listing line by line. */
  method GetMountedPartitions(mountOutput: string) returns (mounted: set<string>)
    ensures mounted == Actual(mountOutput)
    ensures forall t :: t in mounted ==> StartsWith(t, UuidPrefix) && |t| > |UuidPrefix|
  {
    var lines := OutputLines(mountOutput);
    mounted := {};
    var i := 0;
    while i < |lines|
      invariant 0 <= i <= |lines|
      invariant mounted == ActualFrom(lines[..i])
      invariant forall t :: t in mounted ==> StartsWith(t, UuidPrefix) && |t| > |UuidPrefix|
    {
      assert lines[..i + 1][..i] == lines[..i];
      var line := lines[i];
      if Contains(line, MntPrefix) {
        var tokens := Words(line);
        if |tokens| >= 3 {
          var mountPoint := tokens[2];
          if StartsWith(mountPoint, MntPrefix) {
            var rawUuid := Section(mountPoint, '/', 2);
            if rawUuid != [] {
              mounted := mounted + {UuidPrefix + rawUuid};
            }
          }
        }
      }
      i := i + 1;
    }
    assert lines[..|lines|] == lines;
  }

  /** Every mounted token is `UUID=` and a non-empty segment read from some line. */
  lemma ActualMembers(lines: seq<string>, t: string)
    ensures t in ActualFrom(lines) <==> exists i :: 0 <= i < |lines| && MountLineToken(lines[i]) == Some(t)
    ensures t in ActualFrom(lines) ==> StartsWith(t, UuidPrefix) && |t| > |UuidPrefix|
  {
    GatherMembers(lines, MountLineToken, t);
  }

  /** One entry of the mount table as `mount` prints it. */
  datatype MountEntry = MountEntry(device: string, mountPoint: string, fsType: string, options: string)

  predicate IsWord(w: string) {
    w != [] && ' ' !in w && '\n' !in w
  }

  predicate PrintableEntry(e: MountEntry) {
    IsWord(e.device) && IsWord(e.mountPoint) && IsWord(e.fsType) && '\n' !in e.options
  }

  function Render(e: MountEntry): string {
    e.device + " on " + e.mountPoint + " type " + e.fsType + " (" + e.options + ")"
  }

  /** The third word of a printed entry is its mountpoint. */
  lemma RenderWords(e: MountEntry)
    requires PrintableEntry(e)
    ensures |Words(Render(e))| >= 3 && Words(Render(e))[2] == e.mountPoint
  {
    var rest := "type " + e.fsType + " (" + e.options + ")";
    assert Render(e) == e.device + " " + ("on" + " " + (e.mountPoint + " " + rest));
    WordsCons(e.device, "on" + " " + (e.mountPoint + " " + rest));
    WordsCons("on", e.mountPoint + " " + rest);
    WordsCons(e.mountPoint, rest);
  }

  /** A printed entry holds its mountpoint's `/mnt/` prefix. */
  lemma RenderContainsMnt(e: MountEntry)
    requires StartsWith(e.mountPoint, MntPrefix)
    ensures Contains(Render(e), MntPrefix)
  {
    var mp := e.mountPoint;
    var rest := "type " + e.fsType + " (" + e.options + ")";
    assert mp == MntPrefix + mp[|MntPrefix|..];
    assert Render(e) == (e.device + " on ") + MntPrefix + (mp[|MntPrefix|..] + " " + rest);
    ContainsInfix(e.device + " on ", MntPrefix, mp[|MntPrefix|..] + " " + rest);
  }

  /** The probe reads a printed entry as the token of its mountpoint. */
  lemma ProbeReadsEntry(e: MountEntry)
    requires PrintableEntry(e)
    ensures MountLineToken(Render(e)) == EntryToken(e.mountPoint)
  {
    RenderWords(e);
    if StartsWith(e.mountPoint, MntPrefix) {
      RenderContainsMnt(e);
    }
  }

  function Renders(es: seq<MountEntry>): (r: seq<string>)
    ensures |r| == |es| && forall i :: 0 <= i < |es| ==> r[i] == Render(es[i])
  {
    seq(|es|, i requires 0 <= i < |es| => Render(es[i]))
  }

  /** The mountpoints of a table. */
  function MountPoints(es: seq<MountEntry>): set<string> {
    set e | e in es :: e.mountPoint
  }

  /** The probe applied to a set of mountpoints. */
  function Probe(m: set<string>): (r: set<string>)
    ensures forall t :: t in r ==> StartsWith(t, UuidPrefix)
  {
    set mp | mp in m && EntryToken(mp).Some? :: EntryToken(mp).value
  }

  lemma RenderOneLine(e: MountEntry)
    requires PrintableEntry(e)
    ensures Render(e) != [] && '\n' !in Render(e)
  {
    assert Render(e) == e.device + (" on " + e.mountPoint + " type " + e.fsType + " (" + e.options + ")");
  }

  /** Printing a table and splitting it into non-empty lines gives back one
      line per entry. */
  lemma PrintedLines(es: seq<MountEntry>)
    requires forall e :: e in es ==> PrintableEntry(e)
    ensures OutputLines(JoinLines(Renders(es))) == Renders(es)
  {
    var lines := Renders(es);
    if es == [] {
      assert Split("", "\n") == [""];
    } else {
      forall l | l in lines
        ensures l != [] && '\n' !in l
      {
        var i :| 0 <= i < |lines| && lines[i] == l;
        assert es[i] in es;
        RenderOneLine(es[i]);
      }
      SplitJoinLines(lines);
      NonEmptyKeeps(lines);
    }
  }

  /** Parsing the printed mount table gives the probe of its mountpoints. */
  lemma ActualOfTable(es: seq<MountEntry>)
    requires forall e :: e in es ==> PrintableEntry(e)
    ensures Actual(JoinLines(Renders(es))) == Probe(MountPoints(es))
  {
    var lines := Renders(es);
    PrintedLines(es);
    forall t
      ensures t in ActualFrom(lines) <==> t in Probe(MountPoints(es))
    {
      ActualMembers(lines, t);
      if t in ActualFrom(lines) {
        var i :| 0 <= i < |lines| && MountLineToken(lines[i]) == Some(t);
        assert es[i] in es;
        ProbeReadsEntry(es[i]);
        assert es[i].mountPoint in MountPoints(es);
      }
      if t in Probe(MountPoints(es)) {
        var mp :| mp in MountPoints(es) && EntryToken(mp) == Some(t);
        var e :| e in es && e.mountPoint == mp;
        var i :| 0 <= i < |es| && es[i] == e;
        ProbeReadsEntry(e);
        assert MountLineToken(lines[i]) == Some(t);
      }
    }
  }

  // ---------------------------------------------------------------------
  // The reconciler
  // ---------------------------------------------------------------------

  /** The text between the first and second `=` of a token. */
  function UuidOf(token: string): string {
    Section(token, '=', 1)
  }

  /** The directory a token is mounted at and unmounted from. */
  function MountDir(token: string): string {
    MntPrefix + UuidOf(token)
  }

  /** The filesystem type passed to mount: the trimmed blkid output, or
      `auto` when it is empty. */
  function FsType(blkidOutput: string): (r: string)
    ensures r != []
    ensures Trim(blkidOutput) != [] ==> r == Trim(blkidOutput)
    ensures Trim(blkidOutput) == [] ==> r == "auto"
  {
    var fs := Trim(blkidOutput);
    if fs == [] then "auto" else fs
  }

  /** The directories /mnt/<uuid> of some uuids. */
  function MntDirs(uuids: seq<string>): set<string> {
    set u | u in uuids :: MntPrefix + u
  }

  lemma MntDirsSnoc(init: seq<string>, last: string)
    ensures MntDirs(init + [last]) == MntDirs(init) + {MntPrefix + last}
  {
    assert forall u :: u in init + [last] <==> u in init || u == last;
  }

  /** The four commands issued for a token `UUID=<uuid>` that is not mounted. */
  function MountSteps(uuid: string, readlink: string -> string, blkid: string -> string): seq<Directive> {
    var device := Trim(readlink(DiskByUuidPath + uuid));
    [Mkdir(MntPrefix + uuid), ReadLink(DiskByUuidPath + uuid), Blkid(device),
     Mount(FsType(blkid(device)), UuidPrefix + uuid, MntPrefix + uuid)]
  }

  /** The uuid of each token, in order. */
  function Uuids(tokens: seq<string>): (r: seq<string>)
    ensures |r| == |tokens| && forall i :: 0 <= i < |tokens| ==> r[i] == UuidOf(tokens[i])
  {
    seq(|tokens|, i requires 0 <= i < |tokens| => UuidOf(tokens[i]))
  }

  /** The commands enforceMounts issues for the uuids it handles, in order. */
  function MountPlan(uuids: seq<string>, readlink: string -> string, blkid: string -> string): seq<Directive> {
    if uuids == [] then []
    else MountPlan(uuids[..|uuids| - 1], readlink, blkid) + MountSteps(uuids[|uuids| - 1], readlink, blkid)
  }

  /** The commands enforceUnmounts issues for the uuids it handles, in order. */
  function UnmountPlan(uuids: seq<string>): seq<Directive> {
    if uuids == [] then []
    else UnmountPlan(uuids[..|uuids| - 1]) + [Umount(MntPrefix + uuids[|uuids| - 1])]
  }

  /** The directories whose umount failed, in order. */
  function UnmountFailures(uuids: seq<string>, umountExit: string -> int): seq<string> {
    if uuids == [] then []
    else
      var dir := MntPrefix + uuids[|uuids| - 1];
      UnmountFailures(uuids[..|uuids| - 1], umountExit) + (if umountExit(dir) != 0 then [dir] else [])
  }

  lemma UuidsSnoc(tokens: seq<string>, t: string)
    ensures Uuids(tokens + [t]) == Uuids(tokens) + [UuidOf(t)]
  {
  }

  lemma MountPlanSnoc(uuids: seq<string>, u: string, readlink: string -> string, blkid: string -> string)
    ensures MountPlan(uuids + [u], readlink, blkid) == MountPlan(uuids, readlink, blkid) + MountSteps(u, readlink, blkid)
  {
    assert (uuids + [u])[..|uuids|] == uuids;
  }

  lemma UnmountPlanSnoc(uuids: seq<string>, u: string, umountExit: string -> int)
    ensures UnmountPlan(uuids + [u]) == UnmountPlan(uuids) + [Umount(MntPrefix + u)]
    ensures UnmountFailures(uuids + [u], umountExit)
         == UnmountFailures(uuids, umountExit) + (if umountExit(MntPrefix + u) != 0 then [MntPrefix + u] else [])
  {
    assert (uuids + [u])[..|uuids|] == uuids;
  }

  /** enforceMounts: reads the allowlist and the mount listing, then mounts
      every desired token that is not mounted. */
  method EnforceMounts(conf: Option<seq<string>>, mountOutput: string,
                       readlink: string -> string, blkid: string -> string)
    returns (handled: seq<string>, log: seq<Directive>)
    ensures forall t :: t in handled <==> t in Desired(conf) && t !in Actual(mountOutput)
    ensures Distinct(handled)
    ensures log == MountPlan(Uuids(handled), readlink, blkid)
  {
    var enabled, _ := GetManuallyEnabledPartitions(conf);
    var mounted := GetMountedPartitions(mountOutput);
    handled, log := MountMissing(enabled, mounted, readlink, blkid);
  }

  /** The loop of enforceMounts: every token of enabled that is not in
      mounted, in the (unspecified) iteration order of the set, gets mkdir,
      readlink, blkid and mount. */
  method MountMissing(enabled: set<string>, mounted: set<string>,
                      readlink: string -> string, blkid: string -> string)
    returns (handled: seq<string>, log: seq<Directive>)
    ensures forall t :: t in handled <==> t in enabled && t !in mounted
    ensures Distinct(handled)
    ensures log == MountPlan(Uuids(handled), readlink, blkid)
  {
    var remaining := enabled;
    handled := [];
    log := [];
    while remaining != {}
      invariant remaining <= enabled
      invariant forall t :: t in handled <==> t in enabled && t !in remaining && t !in mounted
      invariant Distinct(handled)
      invariant log == MountPlan(Uuids(handled), readlink, blkid)
      decreases |remaining|
    {
      var uuidLine :| uuidLine in remaining;
      if uuidLine !in mounted {
        var steps := MountOne(uuidLine, readlink, blkid);
        log := log + steps;
        UuidsSnoc(handled, uuidLine);
        MountPlanSnoc(Uuids(handled), UuidOf(uuidLine), readlink, blkid);
        handled := handled + [uuidLine];
      }
      remaining := remaining - {uuidLine};
    }
  }

  /** The body of the enforceMounts loop for one token: creates the mount
      directory, resolves the device, detects its filesystem and mounts it. */
  method MountOne(uuidLine: string, readlink: string -> string, blkid: string -> string)
    returns (steps: seq<Directive>)
    ensures steps == MountSteps(UuidOf(uuidLine), readlink, blkid)
  {
    var uuid := Section(uuidLine, '=', 1);
    var mountDir := MntPrefix + uuid;
    steps := [Mkdir(mountDir)];
    var uuidSymlink := DiskByUuidPath + uuid;
    steps := steps + [ReadLink(uuidSymlink)];
    var resolvedDevice := Trim(readlink(uuidSymlink));
    steps := steps + [Blkid(resolvedDevice)];
    var fsType := Trim(blkid(resolvedDevice));
    if fsType == [] {
      fsType := "auto";
    }
    steps := steps + [Mount(fsType, UuidPrefix + uuid, mountDir)];
  }

  /** enforceUnmounts: reads the allowlist and the mount listing, then
      unmounts every mounted token that is no longer desired. */
  method EnforceUnmounts(conf: Option<seq<string>>, mountOutput: string, umountExit: string -> int)
    returns (handled: seq<string>, log: seq<Directive>, failures: seq<string>)
    ensures forall t :: t in handled <==> t in Actual(mountOutput) && t !in Desired(conf)
    ensures Distinct(handled)
    ensures log == UnmountPlan(Uuids(handled))
    ensures failures == UnmountFailures(Uuids(handled), umountExit)
  {
    var enabled, _ := GetManuallyEnabledPartitions(conf);
    var mounted := GetMountedPartitions(mountOutput);
    handled, log, failures := UnmountStale(enabled, mounted, umountExit);
  }

  /** The loop of enforceUnmounts: every token of mounted that is not in
      enabled gets one umount; a failing umount is reported and the loop
      goes on with the remaining tokens. */
  method UnmountStale(enabled: set<string>, mounted: set<string>, umountExit: string -> int)
    returns (handled: seq<string>, log: seq<Directive>, failures: seq<string>)
    ensures forall t :: t in handled <==> t in mounted && t !in enabled
    ensures Distinct(handled)
    ensures log == UnmountPlan(Uuids(handled))
    ensures failures == UnmountFailures(Uuids(handled), umountExit)
  {
    var remaining := mounted;
    handled := [];
    log := [];
    failures := [];
    while remaining != {}
      invariant remaining <= mounted
      invariant forall t :: t in handled <==> t in mounted && t !in remaining && t !in enabled
      invariant Distinct(handled)
      invariant log == UnmountPlan(Uuids(handled))
      invariant failures == UnmountFailures(Uuids(handled), umountExit)
      decreases |remaining|
    {
      var part :| part in remaining;
      if part !in enabled {
        var rawUuid := Section(part, '=', 1);
        var mountDir := MntPrefix + rawUuid;
        log := log + [Umount(mountDir)];
        var exitCode := umountExit(mountDir);
        if exitCode != 0 {
          failures := failures + [mountDir];
        }
        UuidsSnoc(handled, part);
        UnmountPlanSnoc(Uuids(handled), rawUuid, umountExit);
        handled := handled + [part];
      }
      remaining := remaining - {part};
    }
  }

  /** The directories mount directives target. */
  function MountTargets(log: seq<Directive>): set<string> {
    set d | d in log && d.Mount? :: d.dir
  }

  function UmountTargets(log: seq<Directive>): set<string> {
    set d | d in log && d.Umount? :: d.dir
  }

  /** Block k of a plan creates /mnt/<uuid> and then mounts `UUID=<uuid>`
      there with a non-empty filesystem type. */
  predicate MountsAt(plan: seq<Directive>, k: nat, uuid: string) {
    && 4 * k + 3 < |plan|
    && plan[4 * k] == Mkdir(MntPrefix + uuid)
    && plan[4 * k + 3].Mount?
    && plan[4 * k + 3].dir == MntPrefix + uuid
    && plan[4 * k + 3].source == UuidPrefix + uuid
    && plan[4 * k + 3].fsType != []
  }

  /** Each uuid of the plan, in order, gets its directory created and then
      mounted there from `UUID=<uuid>`, with a non-empty filesystem type. */
  lemma {:induction false} MountPlanShape(uuids: seq<string>, readlink: string -> string, blkid: string -> string)
    ensures |MountPlan(uuids, readlink, blkid)| == 4 * |uuids|
    ensures forall i :: 0 <= i < |uuids| ==> MountsAt(MountPlan(uuids, readlink, blkid), i, uuids[i])
  {
    if uuids != [] {
      var init := uuids[..|uuids| - 1];
      var last := uuids[|uuids| - 1];
      MountPlanShape(init, readlink, blkid);
      var prev := MountPlan(init, readlink, blkid);
      var plan := prev + MountSteps(last, readlink, blkid);
      assert MountsAt(plan, |init|, last);
      forall i | 0 <= i < |init|
        ensures MountsAt(plan, i, uuids[i])
      {
        assert uuids[i] == init[i];
        assert MountsAt(prev, i, init[i]);
        assert plan[4 * i] == prev[4 * i] && plan[4 * i + 3] == prev[4 * i + 3];
      }
    }
  }

  lemma MountTargetsAppend(a: seq<Directive>, b: seq<Directive>)
    ensures MountTargets(a + b) == MountTargets(a) + MountTargets(b)
  {
    assert forall d :: d in a + b <==> d in a || d in b;
  }

  /** One uuid's block mounts at /mnt/<uuid> only. */
  lemma StepsTarget(uuid: string, readlink: string -> string, blkid: string -> string)
    ensures MountTargets(MountSteps(uuid, readlink, blkid)) == {MntPrefix + uuid}
  {
    var steps := MountSteps(uuid, readlink, blkid);
    assert steps[3] in steps;
  }

  /** The mount directives of a plan target exactly /mnt/<uuid> for its uuids. */
  lemma {:induction false} MountPlanTargets(uuids: seq<string>, readlink: string -> string, blkid: string -> string)
    ensures MountTargets(MountPlan(uuids, readlink, blkid)) == MntDirs(uuids)
  {
    if uuids != [] {
      var init := uuids[..|uuids| - 1];
      var last := uuids[|uuids| - 1];
      MountPlanTargets(init, readlink, blkid);
      MountTargetsAppend(MountPlan(init, readlink, blkid), MountSteps(last, readlink, blkid));
      StepsTarget(last, readlink, blkid);
      assert uuids == init + [last];
      MntDirsSnoc(init, last);
    }
  }

  /** One umount per uuid, in order, each targeting /mnt/<uuid>, whatever
      the exit codes. */
  lemma {:induction false} UnmountPlanShape(uuids: seq<string>)
    ensures |UnmountPlan(uuids)| == |uuids|
    ensures forall i :: 0 <= i < |uuids| ==> UnmountPlan(uuids)[i] == Umount(MntPrefix + uuids[i])
    ensures UmountTargets(UnmountPlan(uuids)) == MntDirs(uuids)
  {
    if uuids != [] {
      var init := uuids[..|uuids| - 1];
      UnmountPlanShape(init);
      forall i | 0 <= i < |init|
        ensures UnmountPlan(uuids)[i] == Umount(MntPrefix + uuids[i])
      {
        assert uuids[i] == init[i];
      }
      var last := uuids[|uuids| - 1];
      assert uuids == init + [last];
      MntDirsSnoc(init, last);
      var prev := UnmountPlan(init);
      assert UmountTargets(prev + [Umount(MntPrefix + last)]) == UmountTargets(prev) + {MntPrefix + last} by {
        assert forall d :: d in prev + [Umount(MntPrefix + last)] <==> d in prev || d == Umount(MntPrefix + last);
      }
    }
  }

  // ---------------------------------------------------------------------
  // Unmount-target consistency, convergence and idempotence
  // ---------------------------------------------------------------------

  /** An identifier the round trip /mnt/<id> -> UUID=<id> -> /mnt/<id> keeps. */
  predicate CleanId(id: string) {
    id != [] && '/' !in id && '=' !in id
  }

  predicate ValidToken(t: string) {
    StartsWith(t, UuidPrefix) && CleanId(t[|UuidPrefix|..])
  }

  /** A mount table whose entries below /mnt/ are one clean path segment. */
  predicate CleanTable(m: set<string>) {
    forall mp :: mp in m && StartsWith(mp, MntPrefix) ==> '/' !in mp[|MntPrefix|..] && '=' !in mp[|MntPrefix|..]
  }

  /** A partition mounted at /mnt/<id> is read as UUID=<id>, whose unmount
      target is /mnt/<id> again. */
  lemma UnmountTargetConsistent(id: string)
    requires CleanId(id)
    ensures EntryToken(MntPrefix + id) == Some(UuidPrefix + id)
    ensures MountDir(UuidPrefix + id) == MntPrefix + id
  {
    SectionOfMountDir(id);
    assert UuidPrefix + id == "UUID" + ['='] + id;
    SectionAfterPrefix("UUID", '=', id);
  }

  /** A mountpoint below /mnt/ of a clean table, read as a token, is that
      token's mount directory. */
  lemma EntryTokenInverse(mp: string)
    requires StartsWith(mp, MntPrefix) && '/' !in mp[|MntPrefix|..] && '=' !in mp[|MntPrefix|..]
    requires EntryToken(mp).Some?
    ensures ValidToken(EntryToken(mp).value) && MountDir(EntryToken(mp).value) == mp
  {
    var id := mp[|MntPrefix|..];
    assert mp == MntPrefix + id;
    SectionOfMountDir(id);
    UnmountTargetConsistent(id);
    assert (UuidPrefix + id)[|UuidPrefix|..] == id;
  }

  lemma ValidTokenDir(t: string)
    requires ValidToken(t)
    ensures MountDir(t) == MntPrefix + t[|UuidPrefix|..]
    ensures EntryToken(MountDir(t)) == Some(t)
  {
    var id := t[|UuidPrefix|..];
    assert t == UuidPrefix + id;
    UnmountTargetConsistent(id);
  }

  function Dirs(tokens: set<string>): set<string> {
    set t | t in tokens :: MountDir(t)
  }

  /** The mount table after enforceMounts, every mount succeeding. */
  function AfterMounts(m: set<string>, desired: set<string>): set<string> {
    m + Dirs(desired - Probe(m))
  }

  /** The mount table after enforceUnmounts, every umount succeeding. */
  function AfterUnmounts(m: set<string>, desired: set<string>): set<string> {
    m - Dirs(Probe(m) - desired)
  }

  /** One run of the helper: mounts, then unmounts. */
  function Pass(m: set<string>, desired: set<string>): set<string> {
    AfterUnmounts(AfterMounts(m, desired), desired)
  }

  lemma AfterMountsClean(m: set<string>, desired: set<string>)
    requires CleanTable(m) && forall t :: t in desired ==> ValidToken(t)
    ensures CleanTable(AfterMounts(m, desired))
    ensures Probe(AfterMounts(m, desired)) == Probe(m) + desired
  {
    var m1 := AfterMounts(m, desired);
    forall mp | mp in m1 && StartsWith(mp, MntPrefix)
      ensures '/' !in mp[|MntPrefix|..] && '=' !in mp[|MntPrefix|..]
    {
      if mp !in m {
        var t :| t in desired - Probe(m) && mp == MountDir(t);
        ValidTokenDir(t);
      }
    }
    forall x
      ensures x in Probe(m1) <==> x in Probe(m) || x in desired
    {
      if x in Probe(m1) {
        var mp :| mp in m1 && EntryToken(mp) == Some(x);
        if mp !in m {
          var t :| t in desired - Probe(m) && mp == MountDir(t);
          ValidTokenDir(t);
        }
      }
      if x in desired && x !in Probe(m) {
        ValidTokenDir(x);
        assert MountDir(x) in m1;
      }
    }
  }

  /** After one run the probe reads exactly the desired set. */
  lemma PassConverges(m: set<string>, desired: set<string>)
    requires CleanTable(m) && forall t :: t in desired ==> ValidToken(t)
    ensures CleanTable(Pass(m, desired))
    ensures Probe(Pass(m, desired)) == desired
  {
    var m1 := AfterMounts(m, desired);
    AfterMountsClean(m, desired);
    var gone := Probe(m1) - desired;
    var m2 := AfterUnmounts(m1, desired);
    forall x
      ensures x in Probe(m2) <==> x in desired
    {
      if x in desired {
        assert x in Probe(m1);
        var mp :| mp in m1 && EntryToken(mp) == Some(x);
        if mp in Dirs(gone) {
          var y :| y in gone && mp == MountDir(y);
          var w :| w in m1 && EntryToken(w) == Some(y);
          EntryTokenInverse(w);
          ValidTokenDir(y);
        }
        assert mp in m2;
      }
      if x in Probe(m2) {
        var mp :| mp in m2 && EntryToken(mp) == Some(x);
        EntryTokenInverse(mp);
        assert x in Probe(m1);
        assert x in gone ==> MountDir(x) in Dirs(gone);
      }
    }
  }

  /** A second run finds nothing to mount and nothing to unmount, and
      leaves the table as it is. */
  lemma SecondPassIdle(m: set<string>, desired: set<string>)
    requires CleanTable(m) && forall t :: t in desired ==> ValidToken(t)
    ensures desired - Probe(Pass(m, desired)) == {}
    ensures Probe(Pass(m, desired)) - desired == {}
    ensures Pass(Pass(m, desired), desired) == Pass(m, desired)
  {
    var m2 := Pass(m, desired);
    PassConverges(m, desired);
    AfterMountsClean(m2, desired);
    assert Dirs({}) == {};
    assert AfterMounts(m2, desired) == m2;
  }

  /** The mount directories of the handled tokens' uuids are the tokens'
      mount directories. */
  lemma HandledDirs(handled: seq<string>, tokens: set<string>)
    requires forall t :: t in handled <==> t in tokens
    ensures MntDirs(Uuids(handled)) == Dirs(tokens)
  {
    var uuids := Uuids(handled);
    forall d | d in MntDirs(uuids)
      ensures d in Dirs(tokens)
    {
      var u :| u in uuids && d == MntPrefix + u;
      var i :| 0 <= i < |uuids| && uuids[i] == u;
      assert handled[i] in tokens && d == MountDir(handled[i]);
    }
    forall d | d in Dirs(tokens)
      ensures d in MntDirs(uuids)
    {
      var t :| t in tokens && d == MountDir(t);
      var i :| 0 <= i < |handled| && handled[i] == t;
      assert uuids[i] in uuids;
    }
  }

  /** The mounts enforceMounts issues, on a table whose listing reads back
      as Probe(m), take the table to AfterMounts: the log's mount targets
      are exactly the directories of the desired tokens not yet mounted. */
  lemma MountLogReachesAfterMounts(m: set<string>, desired: set<string>, handled: seq<string>,
                                   readlink: string -> string, blkid: string -> string)
    requires forall t :: t in handled <==> t in desired && t !in Probe(m)
    ensures m + MountTargets(MountPlan(Uuids(handled), readlink, blkid)) == AfterMounts(m, desired)
  {
    MountPlanTargets(Uuids(handled), readlink, blkid);
    HandledDirs(handled, desired - Probe(m));
  }

  /** Likewise the umounts enforceUnmounts issues take the table to
      AfterUnmounts. */
  lemma UnmountLogReachesAfterUnmounts(m: set<string>, desired: set<string>, handled: seq<string>)
    requires forall t :: t in handled <==> t in Probe(m) && t !in desired
    ensures m - UmountTargets(UnmountPlan(Uuids(handled))) == AfterUnmounts(m, desired)
  {
    UnmountPlanShape(Uuids(handled));
    HandledDirs(handled, Probe(m) - desired);
  }
}
