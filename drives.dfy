/**
 * The drive selection list of the automount settings page.
 *
 * The list shows each disk reported by lsblk with one checkbox, or, for a
 * partitioned disk, one checkbox per partition. Partitions that look like
 * swap or boot partitions are hidden unless the user asks to see them.
 * Each checkbox starts checked when its `UUID=<uuid>` token is in the
 * allowlist file, and applying the selection writes the allowlist that
 * the mounter helper reads. The lsblk JSON is taken as already decoded
 * device records; the command that writes the file is built but not run,
 * its exit code and error output are inputs.
 */
module Drives {
  import opened Text
  import Mounter

  const ConfPath := "/etc/ada/tolitica/automount/manually_enabled.conf"
  const HeaderLine := "# list of enabled automount partitions"

  /** A partition as lsblk reports it. `sizeNumber` is QString::toDouble of
      the lowercased size text without its last character (None when that
      does not parse). */
  datatype PartRecord = PartRecord(
    name: string, size: string, kind: string, fsType: string,
    mountPoint: string, volumeLabel: string, uuid: string, sizeNumber: Option<real>)

  /** A block device as lsblk reports it; `children` is None when the record
      has no "children" array. */
  datatype DiskRecord = DiskRecord(
    name: string, size: string, kind: string, uuid: string,
    children: Option<seq<PartRecord>>)

  /** A checkbox: its state, the state it was created with, and whether
      changing it asks for confirmation. */
  datatype CheckBox = CheckBox(checked: bool, defaultState: bool, dangerous: bool)

  datatype ChildItem = ChildItem(name: string, size: string, token: string, box: CheckBox)

  /** A top-level row; only a disk without a "children" array has a box. */
  datatype DiskItem = DiskItem(name: string, size: string, token: string,
                               box: Option<CheckBox>, children: seq<ChildItem>)

  // ---------------------------------------------------------------------
  // The allowlist as the settings page reads it
  // ---------------------------------------------------------------------

  /** loadManuallyEnabledDevices reads a line: trimmed, blank and `#` lines
      skipped, every other line taken whole. */
  function LoadToken(raw: string): Option<string> {
    var line := Trim(raw);
    if line == [] || StartsWith(line, "#") then None else Some(line)
  }

  function LoadEnabled(conf: Option<seq<string>>): set<string> {
    if conf.None? then {} else Mounter.Gather(conf.value, LoadToken)
  }

  /** loadManuallyEnabledDevices: an unreadable file gives the empty set. */
  method LoadManuallyEnabledDevices(conf: Option<seq<string>>) returns (enabled: set<string>)
    ensures enabled == LoadEnabled(conf)
    ensures forall t :: t in enabled ==> t != [] && Trim(t) == t && !StartsWith(t, "#")
  {
    enabled := {};
    if conf.Some? {
      var lines := conf.value;
      var i := 0;
      while i < |lines|
        invariant 0 <= i <= |lines|
        invariant enabled == Mounter.Gather(lines[..i], LoadToken)
        invariant forall t :: t in enabled ==> t != [] && Trim(t) == t && !StartsWith(t, "#")
      {
        var line := Trim(lines[i]);
        if !(line == [] || StartsWith(line, "#")) {
          TrimIdempotent(lines[i]);
          enabled := enabled + {line};
        }
        assert lines[..i + 1][..i] == lines[..i];
        i := i + 1;
      }
      assert lines[..|lines|] == lines;
    }
  }

  /** Lines without a leading byte order mark: whatever the helper accepts,
      the settings page reads as enabled too. */
  lemma HelperTokensLoaded(lines: seq<string>)
    requires forall l :: l in lines ==> Trim(l) == [] || Trim(l)[0] != Mounter.Bom
    ensures Mounter.DesiredFrom(lines) <= Mounter.Gather(lines, LoadToken)
  {
    forall t | t in Mounter.DesiredFrom(lines)
      ensures t in Mounter.Gather(lines, LoadToken)
    {
      Mounter.DesiredMembers(lines, t);
      var i :| 0 <= i < |lines| && Mounter.ReadConfLine(lines[i]) == Mounter.Accepted(t);
      assert lines[i] in lines;
      assert LoadToken(lines[i]) == Some(t);
      Mounter.GatherMembers(lines, LoadToken, t);
    }
  }

  /** The two readers disagree: a leading byte order mark is kept by the
      settings page but stripped by the helper, and a line without the
      `UUID=` prefix is enabled for the page but rejected by the helper. */
  lemma LoadersDiffer()
    ensures var bomLine := [Mounter.Bom] + "UUID=1";
      && Mounter.DesiredFrom([bomLine]) == {"UUID=1"}
      && Mounter.Gather([bomLine], LoadToken) == {bomLine}
    ensures Mounter.DesiredFrom(["sda1"]) == {} && Mounter.Gather(["sda1"], LoadToken) == {"sda1"}
  {
    var none: seq<string> := [];
    var t := "UUID=1";
    var bomLine := [Mounter.Bom] + t;
    assert t[0] == 'U' && t[|t| - 1] == '1';
    TrimNoop(t);
    Mounter.BomIsStripped(t);
    TrimNoop(bomLine);
    assert LoadToken(bomLine) == Some(bomLine);
    assert Mounter.ConfToken(bomLine) == Some(t);
    assert Mounter.Gather([bomLine], Mounter.ConfToken) == Mounter.Gather(none, Mounter.ConfToken) + {t};
    assert Mounter.DesiredFrom([bomLine]) == {t};
    assert [bomLine][..0] == none && [bomLine][0] == bomLine;
    var other := "sda1";
    assert other[0] == 's' && other[|other| - 1] == '1';
    TrimNoop(other);
    assert !StartsWith(other, Mounter.UuidPrefix);
    assert Mounter.ReadConfLine(other) == Mounter.Rejected(other);
    assert LoadToken(other) == Some(other);
    assert [other][..0] == none && [other][0] == other;
  }

  // ---------------------------------------------------------------------
  // Classification of partitions
  // ---------------------------------------------------------------------

  predicate IsSwap(p: PartRecord) {
    Lower(p.fsType) == "swap"
  }

  predicate BootMount(p: PartRecord) {
    p.mountPoint == "/boot" || p.mountPoint == "/boot/efi"
  }

  predicate BootLabel(p: PartRecord) {
    var lowered := Lower(p.volumeLabel);
    Contains(lowered, "boot") || Contains(lowered, "efi") || Contains(lowered, "esp")
  }

  /** A vfat volume under 3 G or under 300 M. */
  predicate SmallVfat(p: PartRecord) {
    var fs := Lower(p.fsType);
    var size := Lower(p.size);
    && (fs == "vfat" || fs == "fat32")
    && p.sizeNumber.Some?
    && (if EndsWith(size, "g") then p.sizeNumber.value < 3.0
        else EndsWith(size, "m") && p.sizeNumber.value < 300.0)
  }

  predicate Bootlike(p: PartRecord) {
    BootMount(p) || BootLabel(p) || SmallVfat(p)
  }

  /** The partitions refresh leaves out of the list. */
  predicate Hidden(p: PartRecord, showSwap: bool, showBoot: bool) {
    (IsSwap(p) && !showSwap) || (!showBoot && Bootlike(p))
  }

  /** The partitions whose checkbox asks for confirmation. */
  predicate Dangerous(p: PartRecord) {
    IsSwap(p) || BootMount(p) || BootLabel(p)
  }

  /** With the default options every dangerous partition is hidden. */
  lemma DangerousHiddenByDefault(p: PartRecord)
    ensures Dangerous(p) ==> Hidden(p, false, false)
    ensures Dangerous(p) && !IsSwap(p) ==> Hidden(p, true, false)
  {
  }

  /** The converse fails: a small vfat volume is hidden but not dangerous. */
  lemma SmallVfatHiddenNotDangerous()
    ensures var p := PartRecord("sda1", "200M", "part", "vfat", "", "", "AB12-CD34", Some(200.0));
      Hidden(p, false, false) && !Dangerous(p)
  {
    var p := PartRecord("sda1", "200M", "part", "vfat", "", "", "AB12-CD34", Some(200.0));
    assert Lower("vfat") == "vfat";
    assert Lower("200M") == "200m";
    assert Lower("") == "";
  }

  // ---------------------------------------------------------------------
  // Building the tree
  // ---------------------------------------------------------------------

  /** The token stored with a row: `UUID=` and the trimmed uuid, or empty. */
  function ItemToken(uuid: string): (r: string)
    ensures r == [] || (StartsWith(r, "UUID=") && Trim(r) == r)
  {
    var u := Trim(uuid);
    if u == [] then "" else
      var r := "UUID=" + u;
      assert r[0] == 'U' && r[|r| - 1] == u[|u| - 1];
      TrimNoop(r);
      r
  }

  /** A new checkbox: checked iff its token is non-empty and enabled. */
  function NewBox(enabled: set<string>, token: string, dangerous: bool): CheckBox {
    var on := token != [] && token in enabled;
    CheckBox(on, on, dangerous)
  }

  function ChildOf(enabled: set<string>, p: PartRecord): ChildItem {
    var token := ItemToken(p.uuid);
    ChildItem("/dev/" + p.name, p.size, token, NewBox(enabled, token, Dangerous(p)))
  }

  predicate Shown(p: PartRecord, showSwap: bool, showBoot: bool) {
    p.kind == "part" && !Hidden(p, showSwap, showBoot)
  }

  /** The rows for the partitions of one disk. */
  function ChildrenOf(enabled: set<string>, parts: seq<PartRecord>, showSwap: bool, showBoot: bool): seq<ChildItem> {
    if parts == [] then []
    else
      var p := parts[|parts| - 1];
      ChildrenOf(enabled, parts[..|parts| - 1], showSwap, showBoot)
        + (if Shown(p, showSwap, showBoot) then [ChildOf(enabled, p)] else [])
  }

  function DiskOf(enabled: set<string>, d: DiskRecord, showSwap: bool, showBoot: bool): DiskItem {
    var token := ItemToken(d.uuid);
    if d.children.None? then
      DiskItem("/dev/" + d.name, d.size, token, Some(NewBox(enabled, token, false)), [])
    else
      DiskItem("/dev/" + d.name, d.size, token, None, ChildrenOf(enabled, d.children.value, showSwap, showBoot))
  }

  /** The rows refresh builds, disks of other types left out. */
  function BuildTree(enabled: set<string>, devices: seq<DiskRecord>, showSwap: bool, showBoot: bool): seq<DiskItem> {
    if devices == [] then []
    else
      var d := devices[|devices| - 1];
      BuildTree(enabled, devices[..|devices| - 1], showSwap, showBoot)
        + (if d.kind == "disk" then [DiskOf(enabled, d, showSwap, showBoot)] else [])
  }

  /** A row token is empty or a trimmed `UUID=` token. */
  predicate GoodToken(t: string) {
    t == [] || (StartsWith(t, "UUID=") && Trim(t) == t)
  }

  predicate TokensWellFormed(tree: seq<DiskItem>) {
    forall i :: 0 <= i < |tree| ==>
      GoodToken(tree[i].token) && forall j :: 0 <= j < |tree[i].children| ==> GoodToken(tree[i].children[j].token)
  }

  /** A box has been changed from the state it was created with. */
  predicate Changed(b: CheckBox) {
    b.checked != b.defaultState
  }

  /** A box as refresh leaves it: in its default state, checked iff its
      token is non-empty and enabled. */
  predicate FreshBox(enabled: set<string>, token: string, b: CheckBox) {
    b.checked == b.defaultState && (b.checked <==> token != [] && token in enabled)
  }

  predicate FreshChildren(enabled: set<string>, cs: seq<ChildItem>) {
    forall j :: 0 <= j < |cs| ==> FreshBox(enabled, cs[j].token, cs[j].box) && GoodToken(cs[j].token)
  }

  /** A row as refresh leaves it; a disk box is never dangerous. */
  predicate FreshItem(enabled: set<string>, item: DiskItem) {
    && GoodToken(item.token)
    && (item.box.Some? ==> !item.box.value.dangerous && FreshBox(enabled, item.token, item.box.value))
    && FreshChildren(enabled, item.children)
  }

  predicate Fresh(enabled: set<string>, tree: seq<DiskItem>) {
    forall i :: 0 <= i < |tree| ==> FreshItem(enabled, tree[i])
  }

  lemma FreshWellFormed(enabled: set<string>, tree: seq<DiskItem>)
    requires Fresh(enabled, tree)
    ensures TokensWellFormed(tree)
  {
    forall i | 0 <= i < |tree|
      ensures GoodToken(tree[i].token) && forall j :: 0 <= j < |tree[i].children| ==> GoodToken(tree[i].children[j].token)
    {
      assert FreshItem(enabled, tree[i]);
    }
  }

  lemma {:induction false} ChildrenFresh(enabled: set<string>, parts: seq<PartRecord>, showSwap: bool, showBoot: bool)
    ensures FreshChildren(enabled, ChildrenOf(enabled, parts, showSwap, showBoot))
  {
    if parts != [] {
      var init := ChildrenOf(enabled, parts[..|parts| - 1], showSwap, showBoot);
      var cs := ChildrenOf(enabled, parts, showSwap, showBoot);
      ChildrenFresh(enabled, parts[..|parts| - 1], showSwap, showBoot);
      forall j | 0 <= j < |cs|
        ensures FreshBox(enabled, cs[j].token, cs[j].box) && GoodToken(cs[j].token)
      {
        if j < |init| {
          assert cs[j] == init[j];
        }
      }
    }
  }

  /** Each shown partition of a disk gets one row, in order, and no hidden
      partition gets one. */
  lemma {:induction false} ChildrenAreShownParts(enabled: set<string>, parts: seq<PartRecord>, showSwap: bool, showBoot: bool)
    ensures ChildrenOf(enabled, parts, showSwap, showBoot)
         == seq(|Visible(parts, showSwap, showBoot)|,
                k requires 0 <= k < |Visible(parts, showSwap, showBoot)| => ChildOf(enabled, Visible(parts, showSwap, showBoot)[k]))
  {
    if parts != [] {
      ChildrenAreShownParts(enabled, parts[..|parts| - 1], showSwap, showBoot);
    }
  }

  /** The shown partitions, in order. */
  function Visible(parts: seq<PartRecord>, showSwap: bool, showBoot: bool): (r: seq<PartRecord>)
    ensures forall p :: p in r ==> p in parts && p.kind == "part" && !Hidden(p, showSwap, showBoot)
    ensures forall p :: p in parts && Shown(p, showSwap, showBoot) ==> p in r
  {
    if parts == [] then []
    else
      var p := parts[|parts| - 1];
      Visible(parts[..|parts| - 1], showSwap, showBoot) + (if Shown(p, showSwap, showBoot) then [p] else [])
  }

  lemma {:induction false} BuildTreeFresh(enabled: set<string>, devices: seq<DiskRecord>, showSwap: bool, showBoot: bool)
    ensures Fresh(enabled, BuildTree(enabled, devices, showSwap, showBoot))
  {
    if devices != [] {
      var d := devices[|devices| - 1];
      var init := BuildTree(enabled, devices[..|devices| - 1], showSwap, showBoot);
      var tree := BuildTree(enabled, devices, showSwap, showBoot);
      BuildTreeFresh(enabled, devices[..|devices| - 1], showSwap, showBoot);
      if d.children.Some? {
        ChildrenFresh(enabled, d.children.value, showSwap, showBoot);
      }
      forall i | 0 <= i < |tree|
        ensures FreshItem(enabled, tree[i])
      {
        if i < |init| {
          assert tree[i] == init[i];
        }
      }
    }
  }

  // ---------------------------------------------------------------------
  // isModified and isDangerousModified
  // ---------------------------------------------------------------------

  function AnyChildChanged(cs: seq<ChildItem>, dangerousOnly: bool): (r: bool)
    ensures r <==> exists j :: 0 <= j < |cs| && (!dangerousOnly || cs[j].box.dangerous) && Changed(cs[j].box)
  {
    if cs == [] then false
    else ((!dangerousOnly || cs[0].box.dangerous) && Changed(cs[0].box)) || AnyChildChanged(cs[1..], dangerousOnly)
  }

  /** The scan of isModified / isDangerousModified over the rows: the box of
      each row, then the boxes of its partitions. */
  function ScanChanged(tree: seq<DiskItem>, dangerousOnly: bool): (r: bool)
    ensures r <==> exists i :: 0 <= i < |tree| && ItemChanged(tree[i], dangerousOnly)
  {
    if tree == [] then false
    else ItemChanged(tree[0], dangerousOnly) || ScanChanged(tree[1..], dangerousOnly)
  }

  predicate ItemChanged(item: DiskItem, dangerousOnly: bool) {
    || (item.box.Some? && (!dangerousOnly || item.box.value.dangerous) && Changed(item.box.value))
    || AnyChildChanged(item.children, dangerousOnly)
  }

  /** isModified: some box differs from its default state. */
  function IsModified(tree: seq<DiskItem>): bool {
    ScanChanged(tree, false)
  }

  /** isDangerousModified: some dangerous box differs from its default state. */
  function IsDangerousModified(tree: seq<DiskItem>): bool {
    ScanChanged(tree, true)
  }

  /** A dangerous change is a change. */
  lemma DangerousModifiedIsModified(tree: seq<DiskItem>)
    ensures IsDangerousModified(tree) ==> IsModified(tree)
  {
    if IsDangerousModified(tree) {
      var i :| 0 <= i < |tree| && ItemChanged(tree[i], true);
      if !(tree[i].box.Some? && tree[i].box.value.dangerous && Changed(tree[i].box.value)) {
        var j :| 0 <= j < |tree[i].children| && tree[i].children[j].box.dangerous && Changed(tree[i].children[j].box);
        assert AnyChildChanged(tree[i].children, false);
      }
      assert ItemChanged(tree[i], false);
    }
  }

  /** Right after refresh nothing is modified. */
  lemma FreshUnmodified(enabled: set<string>, tree: seq<DiskItem>)
    requires Fresh(enabled, tree)
    ensures !IsModified(tree) && !IsDangerousModified(tree)
  {
    DangerousModifiedIsModified(tree);
    forall i | 0 <= i < |tree|
      ensures !ItemChanged(tree[i], false)
    {
      assert FreshItem(enabled, tree[i]);
      assert !AnyChildChanged(tree[i].children, false);
    }
  }

  // ---------------------------------------------------------------------
  // Applying the selection
  // ---------------------------------------------------------------------

  /** The tokens applyMountSelection collects from one row: the row's own
      checked token when it has a box and no partitions, otherwise the
      checked tokens of its partitions. */
  function RowTokens(item: DiskItem): seq<string> {
    if item.box.Some? && |item.children| == 0 then
      (if item.box.value.checked && item.token != [] then [item.token] else [])
    else CheckedChildTokens(item.children)
  }

  function CheckedChildTokens(cs: seq<ChildItem>): seq<string> {
    if cs == [] then []
    else
      var c := cs[|cs| - 1];
      CheckedChildTokens(cs[..|cs| - 1]) + (if c.box.checked && c.token != [] then [c.token] else [])
  }

  function EnabledTokens(tree: seq<DiskItem>): seq<string> {
    if tree == [] then [] else EnabledTokens(tree[..|tree| - 1]) + RowTokens(tree[|tree| - 1])
  }

  /** Some partition box of the row is checked and carries token t. */
  predicate CheckedChild(cs: seq<ChildItem>, t: string) {
    exists j :: 0 <= j < |cs| && cs[j].box.checked && cs[j].token == t
  }

  /** The row's own box, or one of its partition boxes, is checked and
      carries token t. */
  predicate CheckedIn(item: DiskItem, t: string) {
    (item.box.Some? && item.box.value.checked && item.token == t) || CheckedChild(item.children, t)
  }

  /** Every collected token is a non-empty token of a checked box. */
  lemma {:induction false} EnabledTokensChecked(tree: seq<DiskItem>)
    ensures forall t :: t in EnabledTokens(tree) ==>
      t != [] && exists i :: 0 <= i < |tree| && CheckedIn(tree[i], t)
  {
    if tree != [] {
      var init := tree[..|tree| - 1];
      var last := tree[|tree| - 1];
      EnabledTokensChecked(init);
      CheckedChildTokensChecked(last.children);
      forall t | t in EnabledTokens(tree)
        ensures t != [] && exists i :: 0 <= i < |tree| && CheckedIn(tree[i], t)
      {
        if t in EnabledTokens(init) {
          var i :| 0 <= i < |init| && CheckedIn(init[i], t);
          assert tree[i] == init[i];
        } else {
          assert t in RowTokens(last);
          assert CheckedIn(tree[|tree| - 1], t);
        }
      }
    }
  }

  lemma {:induction false} CheckedChildTokensChecked(cs: seq<ChildItem>)
    ensures forall t :: t in CheckedChildTokens(cs) ==> t != [] && CheckedChild(cs, t)
  {
    if cs != [] {
      var init := cs[..|cs| - 1];
      CheckedChildTokensChecked(init);
      forall t | t in CheckedChildTokens(cs)
        ensures t != [] && CheckedChild(cs, t)
      {
        if t in CheckedChildTokens(init) {
          var j :| 0 <= j < |init| && init[j].box.checked && init[j].token == t;
          assert cs[j] == init[j];
        } else {
          assert cs[|cs| - 1].box.checked && cs[|cs| - 1].token == t;
        }
      }
    }
  }

  /** The collected tokens of a tree with well-formed tokens are trimmed
      `UUID=` tokens. */
  lemma EnabledTokensWellFormed(tree: seq<DiskItem>)
    requires TokensWellFormed(tree)
    ensures forall t :: t in EnabledTokens(tree) ==> StartsWith(t, "UUID=") && Trim(t) == t
  {
    EnabledTokensChecked(tree);
  }

  /** The shell command that writes the allowlist: the header line first,
      then one appended line per token, then a touch of the file. */
  function WriteCommand(tokens: seq<string>): string {
    TeeHeader + AppendCommands(tokens) + TouchConf
  }

  const TeeHeader := "echo '" + HeaderLine + "' | pkexec tee " + ConfPath
  const TouchConf := " && pkexec touch " + ConfPath

  /** The command that appends one token line. */
  function AppendCommand(token: string): string {
    " && echo '" + token + "' | pkexec tee -a " + ConfPath
  }

  function AppendCommands(tokens: seq<string>): string {
    if tokens == [] then ""
    else AppendCommands(tokens[..|tokens| - 1]) + AppendCommand(tokens[|tokens| - 1])
  }

  /** A token the shell's `echo '...'` writes back as one line unchanged:
      no single quote to end the quoting, no line break. */
  predicate ShellSafe(t: string) {
    '\'' !in t && '\n' !in t
  }

  /** The lines of the file the command writes when it succeeds, taken as
      the effect of the shell pipeline for shell-safe tokens (the pipeline
      itself is not executed by the model). */
  function WrittenLines(tokens: seq<string>): seq<string> {
    [HeaderLine] + tokens
  }

  /** How each written line reads: the header is a comment, every other
      line is its token. */
  lemma WrittenLinesRead(tokens: seq<string>)
    requires forall t :: t in tokens ==> StartsWith(t, "UUID=") && Trim(t) == t
    ensures LoadToken(HeaderLine) == None && Mounter.ReadConfLine(HeaderLine) == Mounter.Skipped
    ensures forall k :: 0 <= k < |tokens| ==>
      LoadToken(tokens[k]) == Some(tokens[k]) && Mounter.ReadConfLine(tokens[k]) == Mounter.Accepted(tokens[k])
  {
    assert HeaderLine[0] == '#' && HeaderLine[|HeaderLine| - 1] == 's';
    TrimNoop(HeaderLine);
    assert StartsWith(HeaderLine, "#");
    forall k | 0 <= k < |tokens|
      ensures LoadToken(tokens[k]) == Some(tokens[k]) && Mounter.ReadConfLine(tokens[k]) == Mounter.Accepted(tokens[k])
    {
      var t := tokens[k];
      assert t in tokens;
      Mounter.BomIsStripped(t);
      assert t[0] == 'U';
    }
  }

  /** A reader that skips the header and reads every other line as
      itself gathers exactly those lines. */
  lemma {:induction false} GatherAfterHeader(header: string, tokens: seq<string>, read: string -> Option<string>)
    requires read(header) == None
    requires forall k :: 0 <= k < |tokens| ==> read(tokens[k]) == Some(tokens[k])
    ensures Mounter.Gather([header] + tokens, read) == set t | t in tokens
  {
    var lines := [header] + tokens;
    if tokens == [] {
      assert lines[..0] == [];
    } else {
      var init := tokens[..|tokens| - 1];
      var last := tokens[|tokens| - 1];
      assert lines[..|lines| - 1] == [header] + init;
      assert lines[|lines| - 1] == last;
      GatherAfterHeader(header, init, read);
      assert tokens == init + [last];
      assert (set t | t in tokens) == (set t | t in init) + {last};
    }
  }

  /** The settings page reads back exactly the tokens it wrote. */
  lemma LoaderReadsWritten(tokens: seq<string>)
    requires forall t :: t in tokens ==> StartsWith(t, "UUID=") && Trim(t) == t && ShellSafe(t)
    ensures LoadEnabled(Some(WrittenLines(tokens))) == set t | t in tokens
  {
    WrittenLinesRead(tokens);
    GatherAfterHeader(HeaderLine, tokens, LoadToken);
  }

  /** The helper reads back exactly the tokens the settings page wrote. */
  lemma HelperReadsWritten(tokens: seq<string>)
    requires forall t :: t in tokens ==> StartsWith(t, "UUID=") && Trim(t) == t && ShellSafe(t)
    ensures Mounter.Desired(Some(WrittenLines(tokens))) == set t | t in tokens
  {
    WrittenLinesRead(tokens);
    GatherAfterHeader(HeaderLine, tokens, Mounter.ConfToken);
  }

  /** A failing write is taken as a cancelled password prompt when the
      error output, read as bytes and trimmed of ASCII white space only, is empty, shorter than 15 characters, mentions
      "cancel", "canceled" or "authentication canceled" in any case, or the
      exit code is 126. The two longer tests add nothing: the decision is the
      short-output, "cancel" and 126 tests alone. */
  function LooksCancelled(exitCode: int, stderr: string): (r: bool)
    ensures r <==> |TrimAscii(stderr)| < 15 || Contains(Lower(TrimAscii(stderr)), "cancel") || exitCode == 126
    ensures TrimAscii(stderr) == [] ==> r
  {
    var err := TrimAscii(stderr);
    CancelTestsRedundant(Lower(err));
    || err == []
    || |err| < 15
    || Contains(Lower(err), "cancel")
    || Contains(Lower(err), "canceled")
    || Contains(Lower(err), "authentication canceled")
    || exitCode == 126
  }

  /** Error output of at least 15 no-break spaces is not white space to a
      byte-array trim, so a failing write with it is not taken as cancelled. */
  lemma NoBreakSpacesNotCancelled(exitCode: int, stderr: string)
    requires |stderr| >= 15 && exitCode != 126
    requires forall i :: 0 <= i < |stderr| ==> stderr[i] == '\U{00A0}'
    ensures TrimAscii(stderr) == stderr
    ensures !LooksCancelled(exitCode, stderr)
  {
    assert stderr[0] == '\U{00A0}' && stderr[|stderr| - 1] == '\U{00A0}';
    assert 'c' !in Lower(stderr);
    NotContainsChar(Lower(stderr), "cancel", 0);
  }

  lemma {:induction false} ContainsShorter(s: string, p: string, q: string)
    requires Contains(s, p + q)
    ensures Contains(s, p)
    decreases |s|
  {
    if StartsWith(s, p + q) {
      assert s[..|p|] == (p + q)[..|p|];
    } else {
      ContainsShorter(s[1..], p, q);
    }
  }

  /** Text holding "canceled" or "authentication canceled" holds
      "cancel". */
  lemma CancelTestsRedundant(low: string)
    ensures Contains(low, "canceled") ==> Contains(low, "cancel")
    ensures Contains(low, "authentication canceled") ==> Contains(low, "cancel")
  {
    if Contains(low, "canceled") {
      assert "canceled" == "cancel" + "ed";
      ContainsShorter(low, "cancel", "ed");
    }
    if Contains(low, "authentication canceled") {
      assert "authentication canceled" == "authentication " + "cancel" + "ed";
      ContainsShorter(low, "authentication " + "cancel", "ed");
      ContainsAfterPrefix(low, "authentication ", "cancel");
    }
  }

  lemma {:induction false} ContainsAfterPrefix(s: string, a: string, p: string)
    requires Contains(s, a + p)
    ensures Contains(s, p)
    decreases |s|
  {
    if StartsWith(s, a + p) {
      var rest := s[|a|..];
      assert s[..|a| + |p|] == a + p;
      assert rest[..|p|] == s[..|a| + |p|][|a|..] == p;
      assert s == s[..|a|] + rest;
      StartsWithExtends(rest, [], p);
      assert rest + [] == rest;
      ContainsAfter(s[..|a|], rest, p);
    } else {
      ContainsAfterPrefix(s[1..], a, p);
    }
  }

  // ---------------------------------------------------------------------
  // The widget
  // ---------------------------------------------------------------------

  class DriveList {
    var tree: seq<DiskItem>
    var showSwap: bool
    var showBoot: bool
    var showHidden: bool
    var ignoreSelectionChanges: bool
    var operationCancelled: bool
    /** How many times selectionChanged has been emitted. */
    var selectionSignals: nat

    predicate Valid()
      reads this
    {
      TokensWellFormed(tree)
    }

    /** The constructor: default options, then a first refresh. */
    constructor (conf: Option<seq<string>>, devices: seq<DiskRecord>)
      ensures Valid()
      ensures !showSwap && !showBoot && !showHidden && !operationCancelled && !ignoreSelectionChanges
      ensures tree == BuildTree(LoadEnabled(conf), devices, false, false)
      ensures selectionSignals == 0
    {
      tree := [];
      showSwap, showBoot, showHidden := false, false, false;
      ignoreSelectionChanges, operationCancelled := false, false;
      selectionSignals := 0;
      new;
      Refresh(conf, devices);
    }

    /** refresh: rebuilds the rows from the allowlist and the device records. */
    method Refresh(conf: Option<seq<string>>, devices: seq<DiskRecord>)
      modifies this
      ensures Valid()
      ensures tree == BuildTree(LoadEnabled(conf), devices, showSwap, showBoot)
      ensures Fresh(LoadEnabled(conf), tree)
      ensures !ignoreSelectionChanges
      ensures showSwap == old(showSwap) && showBoot == old(showBoot) && showHidden == old(showHidden)
      ensures operationCancelled == old(operationCancelled) && selectionSignals == old(selectionSignals)
    {
      var enabled := LoadManuallyEnabledDevices(conf);
      ignoreSelectionChanges := true;
      tree := [];
      var i := 0;
      while i < |devices|
        invariant 0 <= i <= |devices|
        invariant tree == BuildTree(enabled, devices[..i], showSwap, showBoot)
        invariant showSwap == old(showSwap) && showBoot == old(showBoot) && showHidden == old(showHidden)
        invariant operationCancelled == old(operationCancelled) && selectionSignals == old(selectionSignals)
      {
        var d := devices[i];
        if d.kind == "disk" {
          var item := RefreshDisk(enabled, d);
          tree := tree + [item];
        }
        assert devices[..i + 1][..i] == devices[..i];
        i := i + 1;
      }
      assert devices[..|devices|] == devices;
      ignoreSelectionChanges := false;
      BuildTreeFresh(enabled, devices, showSwap, showBoot);
      FreshWellFormed(enabled, tree);
    }

    /** The body of the refresh loop for one disk. */
    method RefreshDisk(enabled: set<string>, d: DiskRecord) returns (item: DiskItem)
      ensures item == DiskOf(enabled, d, showSwap, showBoot)
    {
      var diskToken := ItemToken(d.uuid);
      if d.children.None? {
        var on := diskToken != [] && diskToken in enabled;
        item := DiskItem("/dev/" + d.name, d.size, diskToken, Some(CheckBox(on, on, false)), []);
      } else {
        var children := RefreshChildren(enabled, d.children.value);
        item := DiskItem("/dev/" + d.name, d.size, diskToken, None, children);
      }
    }

    /** The inner loop of refresh over the partitions of one disk. */
    method RefreshChildren(enabled: set<string>, parts: seq<PartRecord>) returns (children: seq<ChildItem>)
      ensures children == ChildrenOf(enabled, parts, showSwap, showBoot)
    {
      children := [];
      var j := 0;
      while j < |parts|
        invariant 0 <= j <= |parts|
        invariant children == ChildrenOf(enabled, parts[..j], showSwap, showBoot)
      {
        var p := parts[j];
        if p.kind == "part" && !Hidden(p, showSwap, showBoot) {
          var partToken := ItemToken(p.uuid);
          var on := partToken != [] && partToken in enabled;
          children := children + [ChildItem("/dev/" + p.name, p.size, partToken, CheckBox(on, on, Dangerous(p)))];
        }
        assert parts[..j + 1][..j] == parts[..j];
        j := j + 1;
      }
      assert parts[..|parts|] == parts;
    }

    /** showAdditionalPartitionsDialog: on Ok the three options are taken
        and the list is rebuilt; on Cancel nothing changes. */
    method ShowAdditionalPartitions(accepted: bool, swap: bool, boot: bool, hidden: bool,
                                    conf: Option<seq<string>>, devices: seq<DiskRecord>)
      requires Valid()
      modifies this
      ensures Valid()
      ensures !accepted ==> tree == old(tree) && showSwap == old(showSwap) && showBoot == old(showBoot)
                            && showHidden == old(showHidden) && ignoreSelectionChanges == old(ignoreSelectionChanges)
      ensures accepted ==> showSwap == swap && showBoot == boot && showHidden == hidden
                           && tree == BuildTree(LoadEnabled(conf), devices, swap, boot)
      ensures operationCancelled == old(operationCancelled) && selectionSignals == old(selectionSignals)
    {
      if accepted {
        showSwap, showBoot, showHidden := swap, boot, hidden;
        Refresh(conf, devices);
      }
    }

    /** The user toggles the box of an unpartitioned disk. */
    method ToggleDisk(i: nat)
      requires Valid() && i < |tree| && tree[i].box.Some?
      modifies this
      ensures Valid()
      ensures var b := old(tree[i].box.value);
        tree == old(tree)[i := old(tree[i]).(box := Some(b.(checked := !b.checked)))]
      ensures selectionSignals == old(selectionSignals) + (if ignoreSelectionChanges then 0 else 1)
      ensures ignoreSelectionChanges == old(ignoreSelectionChanges) && operationCancelled == old(operationCancelled)
      ensures showSwap == old(showSwap) && showBoot == old(showBoot) && showHidden == old(showHidden)
    {
      var b := tree[i].box.value;
      tree := tree[i := tree[i].(box := Some(b.(checked := !b.checked)))];
      if !ignoreSelectionChanges {
        selectionSignals := selectionSignals + 1;
      }
    }

    /** The user toggles the box of partition j of disk i; for a dangerous
        box `confirmed` is the answer to the warning. Declining puts the box
        back to its default state with signals blocked. */
    method TogglePartition(i: nat, j: nat, confirmed: bool)
      requires Valid() && i < |tree| && j < |tree[i].children|
      modifies this
      ensures Valid()
      ensures var b := old(tree[i].children[j].box);
        var declined := b.dangerous && !confirmed;
        var nb := b.(checked := if declined then b.defaultState else !b.checked);
        && tree == old(tree)[i := old(tree[i]).(children := old(tree[i].children)[j := old(tree[i].children[j]).(box := nb)])]
        && selectionSignals == old(selectionSignals) + (if declined || ignoreSelectionChanges then 0 else 1)
      ensures old(tree[i].children[j].box.dangerous) && !confirmed ==> !Changed(tree[i].children[j].box)
      ensures ignoreSelectionChanges == old(ignoreSelectionChanges) && operationCancelled == old(operationCancelled)
      ensures showSwap == old(showSwap) && showBoot == old(showBoot) && showHidden == old(showHidden)
    {
      var child := tree[i].children[j];
      var box := child.box.(checked := !child.box.checked);
      if child.box.dangerous && !confirmed {
        box := box.(checked := child.box.defaultState);
      } else if !ignoreSelectionChanges {
        selectionSignals := selectionSignals + 1;
      }
      tree := tree[i := tree[i].(children := tree[i].children[j := child.(box := box)])];
    }

    /** applyMountSelection: collects the checked tokens, builds the command
        that writes the allowlist, and reads the outcome of running it. */
    method ApplyMountSelection(exitCode: int, stderr: string)
      returns (ok: bool, tokens: seq<string>, command: string)
      requires Valid()
      modifies this
      ensures Valid()
      ensures tokens == EnabledTokens(tree) && command == WriteCommand(tokens)
      ensures ok == (exitCode == 0 || LooksCancelled(exitCode, stderr))
      ensures operationCancelled == (exitCode != 0 && LooksCancelled(exitCode, stderr))
      ensures tree == old(tree) && selectionSignals == old(selectionSignals)
      ensures ignoreSelectionChanges == old(ignoreSelectionChanges)
      ensures showSwap == old(showSwap) && showBoot == old(showBoot) && showHidden == old(showHidden)
    {
      tokens := CollectTokens(tree);
      command := BuildWriteCommand(tokens);
      var cancelled := false;
      if exitCode != 0 {
        cancelled := LooksCancelled(exitCode, stderr);
      }
      operationCancelled := cancelled;
      ok := exitCode == 0 || cancelled;
    }
  }

  /** The token loops of applyMountSelection: every collected token is the
      non-empty token of a checked box, and a well-formed tree yields
      trimmed `UUID=` tokens. */
  method CollectTokens(tree: seq<DiskItem>) returns (tokens: seq<string>)
    ensures tokens == EnabledTokens(tree)
    ensures forall t :: t in tokens ==> t != [] && exists i :: 0 <= i < |tree| && CheckedIn(tree[i], t)
    ensures TokensWellFormed(tree) ==> forall t :: t in tokens ==> StartsWith(t, "UUID=") && Trim(t) == t
  {
    tokens := [];
    var i := 0;
    while i < |tree|
      invariant 0 <= i <= |tree|
      invariant tokens == EnabledTokens(tree[..i])
    {
      var item := tree[i];
      if item.box.Some? && |item.children| == 0 {
        if item.box.value.checked && item.token != [] {
          tokens := tokens + [item.token];
        }
      } else if |item.children| > 0 {
        var rowTokens := CollectChildTokens(item.children);
        tokens := tokens + rowTokens;
      }
      assert tree[..i + 1][..i] == tree[..i];
      i := i + 1;
    }
    assert tree[..|tree|] == tree;
    EnabledTokensChecked(tree);
    if TokensWellFormed(tree) {
      EnabledTokensWellFormed(tree);
    }
  }

  /** The inner loop over the partition rows of one disk. */
  method CollectChildTokens(cs: seq<ChildItem>) returns (rowTokens: seq<string>)
    ensures rowTokens == CheckedChildTokens(cs)
    ensures forall t :: t in rowTokens ==> t != [] && CheckedChild(cs, t)
  {
    rowTokens := [];
    var j := 0;
    while j < |cs|
      invariant 0 <= j <= |cs|
      invariant rowTokens == CheckedChildTokens(cs[..j])
    {
      var c := cs[j];
      if c.box.checked && c.token != [] {
        rowTokens := rowTokens + [c.token];
      }
      assert cs[..j + 1][..j] == cs[..j];
      j := j + 1;
    }
    assert cs[..|cs|] == cs;
    CheckedChildTokensChecked(cs);
  }

  /** The command loop of applyMountSelection. */
  method BuildWriteCommand(tokens: seq<string>) returns (command: string)
    ensures command == WriteCommand(tokens)
  {
    command := AppendAll(TeeHeader, tokens);
    command := command + TouchConf;
  }

  /** The loop of BuildWriteCommand: one append command per token. */
  method AppendAll(head: string, tokens: seq<string>) returns (command: string)
    ensures command == head + AppendCommands(tokens)
  {
    command := head;
    var k := 0;
    while k < |tokens|
      invariant 0 <= k <= |tokens|
      invariant command == head + AppendCommands(tokens[..k])
    {
      assert tokens[..k + 1][..k] == tokens[..k];
      AppendAssoc(head, AppendCommands(tokens[..k]), AppendCommand(tokens[k]));
      command := command + AppendCommand(tokens[k]);
      k := k + 1;
    }
    assert tokens[..|tokens|] == tokens;
  }
}
