/**
 * The configuration editors of the first-run setup: the icon theme in
 * kdeglobals, the Konsole default profile, the os-release check, the GRUB
 * theme, and the install/remove helpers with their retry loops. Files are
 * modelled as `Option<seq<string>>` (None when the file cannot be opened),
 * and the exit code of the k-th run of a command as `exitOf(k)`.
 */
module CoreInitial {
  import opened Text

  const Dracula := "Dracula"
  const SurfnTela := "Surfn-Tela"
  const BreezeDark := "breeze-dark"
  const ThemeKey := "Theme="
  const IconsHeader := "[Icons]"

  const ProfileKey := "DefaultProfile="
  const LastProfileKey := "lastKonsoleProfile="
  const XrayProfile := "Xray_OS.profile"
  const ArchProfile := "Arch.profile"

  const GrubKey := "GRUB_THEME="
  const GrubThemesDir := "/boot/grub/themes/"
  const ThemeFile := "/theme.txt"
  const XrayGrubTheme := GrubThemesDir + "xray_os" + ThemeFile
  const ArchGrubTheme := GrubThemesDir + "Arch-Linux" + ThemeFile

  // ---------------------------------------------------------------------
  // Shared line helpers
  // ---------------------------------------------------------------------

  /** The value after a key as the status readers take it: trimmed, with
      double quotes removed. */
  function Unquoted(s: string): string {
    RemoveChar(Trim(s), '"')
  }

  /** A value that reads back as itself: no surrounding white space and no
      double quote. */
  predicate CleanValue(v: string) {
    Trim(v) == v && '"' !in v
  }

  /** Whether a key can start a line that trims to itself. */
  predicate CleanKey(key: string) {
    key != [] && !IsSpace(key[0]) && !IsSpace(key[|key| - 1])
  }

  /** `key + value` is its own trimmed form and reads back as value. */
  lemma KeyValueLine(key: string, value: string)
    requires CleanKey(key) && CleanValue(value)
    ensures Trim(key + value) == key + value
    ensures StartsWith(key + value, key) && (key + value)[|key|..] == value
    ensures Unquoted(value) == value
    ensures SetsTo(key + value, key, value)
  {
    var line := key + value;
    assert line[0] == key[0];
    assert line[|line| - 1] == if value == [] then key[|key| - 1] else value[|value| - 1];
    TrimNoop(line);
    assert line[..|key|] == key && line[|key|..] == value;
  }

  lemma CleanByEnds(v: string)
    requires v != [] && !IsSpace(v[0]) && !IsSpace(v[|v| - 1])
    requires forall i :: 0 <= i < |v| ==> v[i] != '"'
    ensures CleanValue(v)
  {
    TrimNoop(v);
  }

  /** A line that, once trimmed, starts with key and whose unquoted value is
      `value`. */
  predicate SetsTo(raw: string, key: string, value: string) {
    var line := Trim(raw);
    StartsWith(line, key) && Unquoted(line[|key|..]) == value
  }

  /** The read-only scans of konsoleProfStatus and grubThemeStatus: true at
      the first line that sets the key to the value. */
  function AnySetsTo(lines: seq<string>, key: string, value: string): (r: bool)
    ensures r <==> exists i :: 0 <= i < |lines| && SetsTo(lines[i], key, value)
  {
    if lines == [] then false
    else if SetsTo(lines[0], key, value) then true
    else
      var rest := AnySetsTo(lines[1..], key, value);
      assert rest ==> exists i :: 1 <= i < |lines| && SetsTo(lines[i], key, value) by {
        if rest {
          var i :| 0 <= i < |lines[1..]| && SetsTo(lines[1..][i], key, value);
          assert lines[i + 1] == lines[1..][i];
        }
      }
      assert (exists i :: 1 <= i < |lines| && SetsTo(lines[i], key, value)) ==> rest by {
        if exists i :: 1 <= i < |lines| && SetsTo(lines[i], key, value) {
          var i :| 1 <= i < |lines| && SetsTo(lines[i], key, value);
          assert lines[1..][i - 1] == lines[i];
        }
      }
      rest
  }

  /** The index of the first line starting (untrimmed) with prefix. */
  function FirstWith(lines: seq<string>, prefix: string): (r: Option<nat>)
    ensures r.Some? ==> r.value < |lines| && StartsWith(lines[r.value], prefix)
                        && forall j :: 0 <= j < r.value ==> !StartsWith(lines[j], prefix)
    ensures r.None? ==> forall j :: 0 <= j < |lines| ==> !StartsWith(lines[j], prefix)
  {
    if lines == [] then None
    else if StartsWith(lines[0], prefix) then Some(0)
    else
      match FirstWith(lines[1..], prefix)
      case None => None
      case Some(k) => Some(k + 1)
  }

  /** Every line starting with prefix replaced by newLine. */
  function ReplacePrefixed(lines: seq<string>, prefix: string, newLine: string): (r: seq<string>)
    ensures |r| == |lines|
    ensures forall k :: 0 <= k < |lines| ==> r[k] == if StartsWith(lines[k], prefix) then newLine else lines[k]
  {
    if lines == [] then []
    else
      var last := lines[|lines| - 1];
      ReplacePrefixed(lines[..|lines| - 1], prefix, newLine) + [if StartsWith(last, prefix) then newLine else last]
  }

  /** The rewrite loops of setKonsoleProfile: every line with the prefix
      replaced, and newLine appended when there was none. */
  function Upsert(lines: seq<string>, prefix: string, newLine: string): seq<string> {
    ReplacePrefixed(lines, prefix, newLine) + (if FirstWith(lines, prefix).None? then [newLine] else [])
  }

  /** Two line lists with the prefix at the same positions have their first
      prefixed line at the same place. */
  lemma {:induction false} FirstWithSamePositions(a: seq<string>, b: seq<string>, prefix: string)
    requires |a| == |b|
    requires forall k :: 0 <= k < |a| ==> (StartsWith(a[k], prefix) <==> StartsWith(b[k], prefix))
    ensures FirstWith(a, prefix) == FirstWith(b, prefix)
  {
    if a != [] {
      assert forall k :: 0 <= k < |a| - 1 ==> a[1..][k] == a[k + 1] && b[1..][k] == b[k + 1];
      FirstWithSamePositions(a[1..], b[1..], prefix);
    }
  }

  /** Replacing keeps the position of the first prefixed line. */
  lemma ReplaceKeepsFirst(lines: seq<string>, prefix: string, newLine: string)
    requires StartsWith(newLine, prefix)
    ensures FirstWith(ReplacePrefixed(lines, prefix, newLine), prefix) == FirstWith(lines, prefix)
  {
    FirstWithSamePositions(ReplacePrefixed(lines, prefix, newLine), lines, prefix);
  }

  /** After an upsert the first line with the prefix is the new line. */
  lemma UpsertFirst(lines: seq<string>, prefix: string, newLine: string)
    requires StartsWith(newLine, prefix)
    ensures var r := Upsert(lines, prefix, newLine);
      FirstWith(r, prefix).Some? && r[FirstWith(r, prefix).value] == newLine
  {
    var r := Upsert(lines, prefix, newLine);
    var rep := ReplacePrefixed(lines, prefix, newLine);
    ReplaceKeepsFirst(lines, prefix, newLine);
    match FirstWith(lines, prefix)
    case Some(k) =>
      assert r == rep;
    case None =>
      assert r == rep + [newLine];
      assert forall j :: 0 <= j < |lines| ==> r[j] == lines[j];
      FirstWithUnique(r, prefix, |lines|);
  }

  /** The first-match loop with `break` shared by the profile readers. */
  method FindFirst(lines: seq<string>, prefix: string) returns (found: Option<nat>)
    ensures found == FirstWith(lines, prefix)
  {
    found := None;
    var i := 0;
    while i < |lines|
      invariant 0 <= i <= |lines|
      invariant forall j :: 0 <= j < i ==> !StartsWith(lines[j], prefix)
    {
      if StartsWith(lines[i], prefix) {
        found := Some(i);
        FirstWithUnique(lines, prefix, i);
        return;
      }
      i := i + 1;
    }
    FirstWithUnique(lines, prefix, |lines|);
  }

  lemma FirstWithUnique(lines: seq<string>, prefix: string, i: nat)
    requires i <= |lines| && forall j :: 0 <= j < i ==> !StartsWith(lines[j], prefix)
    ensures i < |lines| && StartsWith(lines[i], prefix) ==> FirstWith(lines, prefix) == Some(i)
    ensures i == |lines| ==> FirstWith(lines, prefix) == None
  {
  }

  /** The rewrite loop with a `found` flag shared by setKonsoleProfile. */
  method UpsertLines(lines: seq<string>, prefix: string, newLine: string) returns (out: seq<string>)
    ensures out == Upsert(lines, prefix, newLine)
  {
    out := [];
    var found := false;
    var i := 0;
    while i < |lines|
      invariant 0 <= i <= |lines|
      invariant out == ReplacePrefixed(lines[..i], prefix, newLine)
      invariant found <==> exists j :: 0 <= j < i && StartsWith(lines[j], prefix)
    {
      if StartsWith(lines[i], prefix) {
        out := out + [newLine];
        found := true;
      } else {
        out := out + [lines[i]];
      }
      assert lines[..i + 1][..i] == lines[..i];
      i := i + 1;
    }
    assert lines[..|lines|] == lines;
    if !found {
      out := out + [newLine];
    } else {
      var j :| 0 <= j < |lines| && StartsWith(lines[j], prefix);
    }
  }

  // ---------------------------------------------------------------------
  // Icons in kdeglobals
  // ---------------------------------------------------------------------

  /** The three icon themes the page offers; any other value reads as
      breeze-dark. */
  function IconsName(value: string): (r: string)
    ensures r == Dracula || r == SurfnTela || r == BreezeDark
    ensures value == Dracula || value == SurfnTela || value == BreezeDark ==> r == value
  {
    if value == Dracula then Dracula else if value == SurfnTela then SurfnTela else BreezeDark
  }

  predicate Header(line: string) {
    StartsWith(line, "[") && EndsWith(line, "]")
  }

  /** How a kdeglobals line is taken: skipped, a section header (and whether
      it opens `[Icons]`), a `Theme=` line with its value, or anything else. */
  datatype IniLine = Skip | Section(isIcons: bool) | Theme(value: string) | Plain

  /** currentIcons reads the trimmed line and skips blank, `#` and `;`
      lines. */
  function ReaderKind(raw: string): IniLine {
    var line := Trim(raw);
    if line == [] || StartsWith(line, "#") || StartsWith(line, ";") then Skip
    else if Header(line) then Section(line == IconsHeader)
    else if StartsWith(line, ThemeKey) then Theme(Unquoted(line[|ThemeKey|..]))
    else Plain
  }

  /** setIcons recognises a header on the untrimmed line and a theme line on
      the trimmed one; it ignores the old value. */
  function WriterKind(raw: string): IniLine {
    if Header(raw) then Section(Trim(raw) == IconsHeader)
    else if StartsWith(Trim(raw), ThemeKey) then Theme("")
    else Plain
  }

  /** Whether the lines after this one are inside `[Icons]`. */
  function NextInIcons(kind: IniLine, inIcons: bool): bool {
    if kind.Section? then kind.isIcons else inIcons
  }

  /** currentIcons' scan: the value of the first theme line inside an
      `[Icons]` section. */
  function Scan(lines: seq<string>, inIcons: bool, read: string -> IniLine): Option<string> {
    if lines == [] then None
    else
      var kind := read(lines[0]);
      if kind.Theme? && inIcons then Some(kind.value)
      else Scan(lines[1..], NextInIcons(kind, inIcons), read)
  }

  /** currentIcons: always one of the three names, breeze-dark when the file
      cannot be read or has no theme line in its icon section. */
  function CurrentIcons(file: Option<seq<string>>): (r: string)
    ensures r == Dracula || r == SurfnTela || r == BreezeDark
    ensures file.None? ==> r == BreezeDark
  {
    if file.None? then BreezeDark
    else match Scan(file.value, false, ReaderKind)
      case None => BreezeDark
      case Some(v) => IconsName(v)
  }

  /** setIcons' rewrite: each theme line inside `[Icons]` becomes newLine. */
  function Rewrite(lines: seq<string>, inIcons: bool, newLine: string, kind: string -> IniLine): (r: seq<string>)
    ensures |r| == |lines|
  {
    if lines == [] then []
    else
      var k := kind(lines[0]);
      [if k.Theme? && inIcons then newLine else lines[0]] + Rewrite(lines[1..], NextInIcons(k, inIcons), newLine, kind)
  }

  /** setIcons sees an `[Icons]` header. */
  predicate HasIconsSection(lines: seq<string>) {
    exists i :: 0 <= i < |lines| && WriterKind(lines[i]) == Section(true)
  }

  /** The lines setIcons writes back. */
  function SetIconsLines(lines: seq<string>, icons: string): seq<string> {
    Rewrite(lines, false, ThemeKey + icons, WriterKind)
      + (if HasIconsSection(lines) then [] else [IconsHeader, ThemeKey + icons])
  }

  /** setIcons: rewrites kdeglobals line by line; an unreadable file is left
      alone (None). */
  method SetIcons(file: Option<seq<string>>, icons: string) returns (written: Option<seq<string>>)
    ensures file.None? ==> written.None?
    ensures file.Some? ==> written == Some(SetIconsLines(file.value, icons))
  {
    if file.None? {
      return None;
    }
    var out, foundIconsSection := RewriteLoop(file.value, ThemeKey + icons, WriterKind);
    assert foundIconsSection == HasIconsSection(file.value);
    assert out == Rewrite(file.value, false, ThemeKey + icons, WriterKind);
    if !foundIconsSection {
      out := out + [IconsHeader, ThemeKey + icons];
    } else {
      assert out + [] == out;
    }
    written := Some(out);
  }

  /** setIcons' loop with its inIconSection and foundIconsSection flags. */
  method RewriteLoop(lines: seq<string>, newLine: string, kind: string -> IniLine)
    returns (out: seq<string>, foundIconsSection: bool)
    ensures out == Rewrite(lines, false, newLine, kind)
    ensures foundIconsSection <==> exists j :: 0 <= j < |lines| && kind(lines[j]) == Section(true)
  {
    out := [];
    var inIconSection := false;
    foundIconsSection := false;
    var i := 0;
    while i < |lines|
      invariant 0 <= i <= |lines|
      invariant out + Rewrite(lines[i..], inIconSection, newLine, kind) == Rewrite(lines, false, newLine, kind)
      invariant foundIconsSection <==> exists j :: 0 <= j < i && kind(lines[j]) == Section(true)
    {
      assert lines[i..][1..] == lines[i + 1..];
      var line, opens;
      line, inIconSection, opens := RewriteLine(lines[i], inIconSection, newLine, kind);
      out := out + [line];
      foundIconsSection := foundIconsSection || opens;
      i := i + 1;
    }
  }

  /** One step of setIcons' loop: the line written, whether the lines after
      it are inside `[Icons]`, and whether it opens `[Icons]`. */
  method RewriteLine(line: string, inIconSection: bool, newLine: string, kind: string -> IniLine)
    returns (written: string, nextInIcons: bool, opensIcons: bool)
    ensures written == (if kind(line).Theme? && inIconSection then newLine else line)
    ensures nextInIcons == NextInIcons(kind(line), inIconSection)
    ensures opensIcons <==> kind(line) == Section(true)
  {
    var k := kind(line);
    written := line;
    nextInIcons := inIconSection;
    opensIcons := false;
    if k.Section? {
      nextInIcons := k.isIcons;
      opensIcons := k.isIcons;
    } else if inIconSection && k.Theme? {
      written := newLine;
    }
  }

  /** setIcons keeps every line in place except theme lines, which become
      newLine. */
  lemma {:induction false} RewriteKeeps(lines: seq<string>, inIcons: bool, newLine: string, kind: string -> IniLine)
    ensures var r := Rewrite(lines, inIcons, newLine, kind);
      forall k :: 0 <= k < |lines| ==> r[k] == lines[k] || (r[k] == newLine && kind(lines[k]).Theme?)
  {
    if lines != [] {
      var next := NextInIcons(kind(lines[0]), inIcons);
      RewriteKeeps(lines[1..], next, newLine, kind);
      var r := Rewrite(lines, inIcons, newLine, kind);
      forall k | 1 <= k < |lines|
        ensures r[k] == lines[k] || (r[k] == newLine && kind(lines[k]).Theme?)
      {
        assert r[k] == Rewrite(lines[1..], next, newLine, kind)[k - 1] && lines[k] == lines[1..][k - 1];
      }
    }
  }

  /** The two readings agree on headers and theme lines. */
  predicate Agree(a: IniLine, b: IniLine) {
    && (a.Section? <==> b.Section?)
    && (a.Section? ==> a.isIcons == b.isIcons)
    && (a.Theme? <==> b.Theme?)
  }

  /** Header lines carry no surrounding white space. */
  predicate CleanHeader(raw: string) {
    Header(Trim(raw)) ==> Trim(raw) == raw
  }

  lemma KindsAgree(raw: string)
    requires CleanHeader(raw)
    ensures Agree(ReaderKind(raw), WriterKind(raw))
  {
    var line := Trim(raw);
    if Header(raw) {
      assert raw[0] == '[' && raw[|raw| - 1] == ']';
      TrimNoop(raw);
    } else if StartsWith(line, ThemeKey) {
      assert line[0] == 'T';
    }
  }

  /** Where the scan finds a theme line, it finds the new line after the
      rewrite. */
  lemma {:induction false} RewriteFound(lines: seq<string>, inIcons: bool, newLine: string, v: string,
                                        read: string -> IniLine, write: string -> IniLine)
    requires forall i :: 0 <= i < |lines| ==> Agree(read(lines[i]), write(lines[i]))
    requires read(newLine) == Theme(v)
    requires Scan(lines, inIcons, read).Some?
    ensures Scan(Rewrite(lines, inIcons, newLine, write), inIcons, read) == Some(v)
  {
    var r := Rewrite(lines, inIcons, newLine, write);
    var a := read(lines[0]);
    var b := write(lines[0]);
    assert Agree(a, b);
    if !(a.Theme? && inIcons) {
      assert forall i :: 0 <= i < |lines| - 1 ==> lines[1..][i] == lines[i + 1];
      assert r[0] == lines[0] && r[1..] == Rewrite(lines[1..], NextInIcons(b, inIcons), newLine, write);
      assert NextInIcons(a, inIcons) == NextInIcons(b, inIcons);
      RewriteFound(lines[1..], NextInIcons(a, inIcons), newLine, v, read, write);
    }
  }

  /** Without an `[Icons]` header the rewrite keeps every line, and the scan
      passes over them to what follows. */
  lemma {:induction false} NoSectionKeeps(lines: seq<string>, newLine: string, tail: seq<string>,
                                          read: string -> IniLine, write: string -> IniLine)
    requires forall i :: 0 <= i < |lines| ==> Agree(read(lines[i]), write(lines[i]))
    requires forall i :: 0 <= i < |lines| ==> write(lines[i]) != Section(true)
    ensures Rewrite(lines, false, newLine, write) == lines
    ensures Scan(lines + tail, false, read) == Scan(tail, false, read)
  {
    if lines != [] {
      assert Agree(read(lines[0]), write(lines[0])) && write(lines[0]) != Section(true);
      assert !NextInIcons(read(lines[0]), false) && !NextInIcons(write(lines[0]), false);
      assert forall i :: 0 <= i < |lines| - 1 ==> lines[1..][i] == lines[i + 1];
      NoSectionKeeps(lines[1..], newLine, tail, read, write);
      assert (lines + tail)[0] == lines[0] && (lines + tail)[1..] == lines[1..] + tail;
    } else {
      assert lines + tail == tail;
    }
  }

  /** A `Theme=` line with a clean value reads as that value. */
  lemma ThemeLineReads(v: string)
    requires CleanValue(v)
    ensures ReaderKind(ThemeKey + v) == Theme(v)
  {
    KeyValueLine(ThemeKey, v);
    var line := ThemeKey + v;
    assert line[0] == 'T';
  }

  lemma IconsHeaderReads()
    ensures ReaderKind(IconsHeader) == Section(true)
  {
    assert IconsHeader[0] == '[' && IconsHeader[|IconsHeader| - 1] == ']';
    TrimNoop(IconsHeader);
  }

  lemma IconNameClean(icons: string)
    requires IconsName(icons) == icons
    ensures CleanValue(icons)
  {
    if icons == Dracula {
      CleanByEnds(Dracula);
    } else if icons == SurfnTela {
      CleanByEnds(SurfnTela);
    } else {
      CleanByEnds(BreezeDark);
    }
  }

  /** The rewrite followed by the appended section reads back newLine's
      value, for any pair of agreeing readings. */
  lemma RewriteReadsBack(lines: seq<string>, newLine: string, header: string, v: string,
                         read: string -> IniLine, write: string -> IniLine)
    requires forall i :: 0 <= i < |lines| ==> Agree(read(lines[i]), write(lines[i]))
    requires read(newLine) == Theme(v) && read(header) == Section(true)
    requires (exists i :: 0 <= i < |lines| && write(lines[i]) == Section(true)) ==> Scan(lines, false, read).Some?
    ensures var found := exists i :: 0 <= i < |lines| && write(lines[i]) == Section(true);
      Scan(Rewrite(lines, false, newLine, write) + (if found then [] else [header, newLine]), false, read) == Some(v)
  {
    var r := Rewrite(lines, false, newLine, write);
    if exists i :: 0 <= i < |lines| && write(lines[i]) == Section(true) {
      RewriteFound(lines, false, newLine, v, read, write);
      assert r + [] == r;
    } else {
      var tail := [header, newLine];
      NoSectionKeeps(lines, newLine, tail, read, write);
      assert tail[1..] == [newLine];
      assert Scan(tail, false, read) == Scan([newLine], true, read);
    }
  }

  /** currentIcons after setIcons returns the theme just set, when the file
      had no `[Icons]` section or its section had a theme line, and header
      lines carry no surrounding white space. */
  lemma IconsRoundTrip(lines: seq<string>, icons: string)
    // icons is one of the three offered themes
    requires IconsName(icons) == icons
    requires forall i :: 0 <= i < |lines| ==> CleanHeader(lines[i])
    requires HasIconsSection(lines) ==> Scan(lines, false, ReaderKind).Some?
    ensures CurrentIcons(Some(SetIconsLines(lines, icons))) == icons
  {
    IconNameClean(icons);
    SetIconsReadsBack(lines, icons);
    CurrentIconsOfScan(SetIconsLines(lines, icons), icons);
  }

  /** currentIcons names the theme its scan finds. */
  lemma CurrentIconsOfScan(file: seq<string>, icons: string)
    requires IconsName(icons) == icons
    requires Scan(file, false, ReaderKind) == Some(icons)
    ensures CurrentIcons(Some(file)) == icons
  {
  }

  /** The scan of setIcons' output finds the value written. */
  lemma SetIconsReadsBack(lines: seq<string>, icons: string)
    requires CleanValue(icons)
    requires forall i :: 0 <= i < |lines| ==> CleanHeader(lines[i])
    requires HasIconsSection(lines) ==> Scan(lines, false, ReaderKind).Some?
    ensures Scan(SetIconsLines(lines, icons), false, ReaderKind) == Some(icons)
  {
    KindsAgreeAll(lines);
    ThemeLineReads(icons);
    IconsHeaderReads();
    RewriteReadsBack(lines, ThemeKey + icons, IconsHeader, icons, ReaderKind, WriterKind);
  }

  lemma KindsAgreeAll(lines: seq<string>)
    requires forall i :: 0 <= i < |lines| ==> CleanHeader(lines[i])
    ensures forall i :: 0 <= i < |lines| ==> Agree(ReaderKind(lines[i]), WriterKind(lines[i]))
  {
    forall i | 0 <= i < |lines|
      ensures Agree(ReaderKind(lines[i]), WriterKind(lines[i]))
    {
      KindsAgree(lines[i]);
    }
  }

  /** As written, an `[Icons]` section without a `Theme=` line counts as
      found, so nothing is replaced or appended and the choice is lost. */
  lemma IconsChoiceLost()
    ensures HasIconsSection([IconsHeader])
    ensures SetIconsLines([IconsHeader], Dracula) == [IconsHeader]
    ensures CurrentIcons(Some(SetIconsLines([IconsHeader], Dracula))) == BreezeDark
  {
    assert IconsHeader[0] == '[' && IconsHeader[|IconsHeader| - 1] == ']';
    TrimNoop(IconsHeader);
    assert WriterKind([IconsHeader][0]) == Section(true);
    IconsHeaderReads();
    assert Scan([IconsHeader], false, ReaderKind) == Scan([], true, ReaderKind);
  }

  /** The evidently intended setIcons: the section is appended whenever no
      theme line inside `[Icons]` was replaced, not only when the header is
      missing. */
  function SetIconsLinesIntended(lines: seq<string>, icons: string): (r: seq<string>)
    ensures Scan(lines, false, WriterKind).Some? ==> r == Rewrite(lines, false, ThemeKey + icons, WriterKind)
    ensures Scan(lines, false, WriterKind).None? ==> r == lines + [IconsHeader, ThemeKey + icons]
  {
    if Scan(lines, false, WriterKind).Some? then Rewrite(lines, false, ThemeKey + icons, WriterKind)
    else
      RewriteNoTheme(lines, false, ThemeKey + icons, WriterKind);
      lines + [IconsHeader, ThemeKey + icons]
  }

  /** With the intended rewrite, currentIcons reads back every offered
      theme, whatever sections the file had (headers unindented). */
  lemma IconsRoundTripIntended(lines: seq<string>, icons: string)
    requires IconsName(icons) == icons
    requires forall i :: 0 <= i < |lines| ==> CleanHeader(lines[i])
    ensures CurrentIcons(Some(SetIconsLinesIntended(lines, icons))) == icons
  {
    IconNameClean(icons);
    KindsAgreeAll(lines);
    ThemeLineReads(icons);
    IconsHeaderReads();
    var newLine := ThemeKey + icons;
    ScanAgree(lines, false, ReaderKind, WriterKind);
    if Scan(lines, false, WriterKind).Some? {
      RewriteFound(lines, false, newLine, icons, ReaderKind, WriterKind);
    } else {
      var tail := [IconsHeader, newLine];
      var b := ScanAppend(lines, false, ReaderKind, tail);
      assert tail[1..] == [newLine];
      assert Scan(tail, b, ReaderKind) == Scan([newLine], true, ReaderKind);
    }
    CurrentIconsOfScan(SetIconsLinesIntended(lines, icons), icons);
  }

  /** Agreeing readings find a theme line in the same files. */
  lemma {:induction false} ScanAgree(lines: seq<string>, inIcons: bool, read: string -> IniLine, write: string -> IniLine)
    requires forall i :: 0 <= i < |lines| ==> Agree(read(lines[i]), write(lines[i]))
    ensures Scan(lines, inIcons, read).Some? <==> Scan(lines, inIcons, write).Some?
  {
    if lines != [] {
      assert Agree(read(lines[0]), write(lines[0]));
      assert NextInIcons(read(lines[0]), inIcons) == NextInIcons(write(lines[0]), inIcons);
      assert forall i :: 0 <= i < |lines| - 1 ==> lines[1..][i] == lines[i + 1];
      ScanAgree(lines[1..], NextInIcons(read(lines[0]), inIcons), read, write);
    }
  }

  /** With no theme line inside `[Icons]`, the rewrite changes nothing. */
  lemma {:induction false} RewriteNoTheme(lines: seq<string>, inIcons: bool, newLine: string, kind: string -> IniLine)
    requires Scan(lines, inIcons, kind).None?
    ensures Rewrite(lines, inIcons, newLine, kind) == lines
  {
    if lines != [] {
      RewriteNoTheme(lines[1..], NextInIcons(kind(lines[0]), inIcons), newLine, kind);
      assert lines == [lines[0]] + lines[1..];
    }
  }

  /** A scan that finds nothing in lines goes on into what follows, in the
      section state the lines end in. */
  lemma {:induction false} ScanAppend(lines: seq<string>, inIcons: bool, read: string -> IniLine, tail: seq<string>)
    returns (endsIn: bool)
    requires Scan(lines, inIcons, read).None?
    ensures Scan(lines + tail, inIcons, read) == Scan(tail, endsIn, read)
  {
    if lines == [] {
      assert lines + tail == tail;
      endsIn := inIcons;
    } else {
      assert (lines + tail)[0] == lines[0] && (lines + tail)[1..] == lines[1..] + tail;
      endsIn := ScanAppend(lines[1..], NextInIcons(read(lines[0]), inIcons), read, tail);
    }
  }

  // ---------------------------------------------------------------------
  // The Konsole default profile
  // ---------------------------------------------------------------------

  /** konsoleProfStatus: some trimmed line sets DefaultProfile to the Xray
      profile. */
  function KonsoleProfStatus(konsolerc: Option<seq<string>>): (r: bool)
    ensures konsolerc.None? ==> !r
    ensures r <==>
      konsolerc.Some? && exists i :: 0 <= i < |konsolerc.value| && SetsTo(konsolerc.value[i], ProfileKey, XrayProfile)
  {
    konsolerc.Some? && AnySetsTo(konsolerc.value, ProfileKey, XrayProfile)
  }

  /** setKonsoleProfile's first read: the unquoted value of the first line
      starting with `DefaultProfile=`, or empty. */
  function CurrentProfile(lines: seq<string>): string {
    match FirstWith(lines, ProfileKey)
    case None => ""
    case Some(k) => Unquoted(lines[k][|ProfileKey|..])
  }

  /** The profile saved in tolitica.conf, Arch.profile when there is none. */
  function SavedProfile(tolitica: Option<seq<string>>): string {
    if tolitica.None? then ArchProfile
    else match FirstWith(tolitica.value, LastProfileKey)
      case None => ArchProfile
      case Some(k) => Trim(tolitica.value[k][|LastProfileKey|..])
  }

  /** tolitica.conf after setKonsoleProfile: untouched when the Xray
      profile is current; otherwise it exists, its first `lastKonsoleProfile=` line
      records the current profile, and its other lines are kept. */
  function NewTolitica(konsolerc: seq<string>, tolitica: Option<seq<string>>): (r: Option<seq<string>>)
    ensures CurrentProfile(konsolerc) == XrayProfile ==> r == tolitica
    ensures CurrentProfile(konsolerc) != XrayProfile ==>
      && r.Some?
      && FirstWith(r.value, LastProfileKey).Some?
      && r.value[FirstWith(r.value, LastProfileKey).value] == LastProfileKey + CurrentProfile(konsolerc)
    ensures CurrentProfile(konsolerc) != XrayProfile && tolitica.Some? ==>
      && |r.value| >= |tolitica.value|
      && forall k :: 0 <= k < |tolitica.value| && !StartsWith(tolitica.value[k], LastProfileKey) ==>
           r.value[k] == tolitica.value[k]
  {
    var current := CurrentProfile(konsolerc);
    var line := LastProfileKey + current;
    PrefixedLine(LastProfileKey, current);
    if current == XrayProfile then tolitica
    else if tolitica.None? then
      FirstWithUnique([line], LastProfileKey, 0);
      Some([line])
    else
      UpsertFirst(tolitica.value, LastProfileKey, line);
      Some(Upsert(tolitica.value, LastProfileKey, line))
  }

  /** A key followed by a value starts with the key. */
  lemma PrefixedLine(key: string, value: string)
    ensures StartsWith(key + value, key)
  {
    assert (key + value)[..|key|] == key;
  }

  /** konsolerc after setKonsoleProfile: the Xray profile, or back to the
      saved one when the Xray profile was current. */
  function NewKonsolerc(konsolerc: seq<string>, tolitica: Option<seq<string>>): (r: seq<string>)
    ensures var target := if CurrentProfile(konsolerc) == XrayProfile then SavedProfile(tolitica) else XrayProfile;
      FirstWith(r, ProfileKey).Some? && r[FirstWith(r, ProfileKey).value] == ProfileKey + target
    ensures |r| >= |konsolerc|
    ensures forall k :: 0 <= k < |konsolerc| && !StartsWith(konsolerc[k], ProfileKey) ==> r[k] == konsolerc[k]
  {
    var target := if CurrentProfile(konsolerc) == XrayProfile then SavedProfile(tolitica) else XrayProfile;
    PrefixedLine(ProfileKey, target);
    UpsertFirst(konsolerc, ProfileKey, ProfileKey + target);
    Upsert(konsolerc, ProfileKey, ProfileKey + target)
  }

  /** setKonsoleProfile: saves the current profile and switches to the Xray
      profile, or switches back to the saved one. An unreadable konsolerc
      changes nothing. */
  method SetKonsoleProfile(konsolerc: Option<seq<string>>, tolitica: Option<seq<string>>)
    returns (newKonsolerc: Option<seq<string>>, newTolitica: Option<seq<string>>)
    ensures konsolerc.None? ==> newKonsolerc == konsolerc && newTolitica == tolitica
    ensures konsolerc.Some? ==>
      (newKonsolerc == Some(NewKonsolerc(konsolerc.value, tolitica)) && newTolitica == NewTolitica(konsolerc.value, tolitica))
  {
    if konsolerc.None? {
      return konsolerc, tolitica;
    }
    var lines := konsolerc.value;
    var currentProfile := "";
    var at := FindFirst(lines, ProfileKey);
    if at.Some? {
      currentProfile := Unquoted(lines[at.value][|ProfileKey|..]);
    }
    newTolitica := tolitica;
    if currentProfile != XrayProfile {
      if tolitica.Some? {
        var saved := UpsertLines(tolitica.value, LastProfileKey, LastProfileKey + currentProfile);
        newTolitica := Some(saved);
      } else {
        newTolitica := Some([LastProfileKey + currentProfile]);
      }
    }
    var target := XrayProfile;
    if currentProfile == XrayProfile {
      target := ArchProfile;
      if tolitica.Some? {
        var savedAt := FindFirst(tolitica.value, LastProfileKey);
        if savedAt.Some? {
          target := Trim(tolitica.value[savedAt.value][|LastProfileKey|..]);
        }
      }
    }
    var rewritten := UpsertLines(lines, ProfileKey, ProfileKey + target);
    newKonsolerc := Some(rewritten);
  }

  lemma ProfilesClean()
    ensures CleanValue(XrayProfile) && CleanValue(ArchProfile)
    ensures CleanKey(ProfileKey) && CleanKey(LastProfileKey)
  {
    CleanByEnds(XrayProfile);
    CleanByEnds(ArchProfile);
  }

  /** On lines with exactly one line starting with prefix, an upsert
      replaces that line and keeps the others. */
  lemma UpsertSingle(lines: seq<string>, prefix: string, at: nat, newLine: string)
    requires at < |lines| && StartsWith(lines[at], prefix)
    requires forall j :: 0 <= j < |lines| && j != at ==> !StartsWith(lines[j], prefix)
    ensures var r := Upsert(lines, prefix, newLine);
      && |r| == |lines| && r[at] == newLine
      && (forall j :: 0 <= j < |lines| && j != at ==> r[j] == lines[j])
  {
    FirstWithUnique(lines, prefix, at);
    assert Upsert(lines, prefix, newLine) == ReplacePrefixed(lines, prefix, newLine) + [];
  }

  /** The first setKonsoleProfile call on a konsolerc with one profile line
      sets the Xray profile on that line and nowhere else. */
  lemma KonsoleFirstCall(konsolerc: seq<string>, tolitica: Option<seq<string>>, p: string, at: nat)
    requires at < |konsolerc| && konsolerc[at] == ProfileKey + p
    requires forall j :: 0 <= j < |konsolerc| && j != at ==> !StartsWith(konsolerc[j], ProfileKey)
    requires CleanValue(p) && p != XrayProfile
    ensures CurrentProfile(konsolerc) == p
    ensures var k1 := NewKonsolerc(konsolerc, tolitica);
      && |k1| == |konsolerc| && k1[at] == ProfileKey + XrayProfile
      && (forall j :: 0 <= j < |konsolerc| && j != at ==> k1[j] == konsolerc[j])
      && CurrentProfile(k1) == XrayProfile
      && KonsoleProfStatus(Some(k1))
  {
    ProfilesClean();
    KeyValueLine(ProfileKey, p);
    KeyValueLine(ProfileKey, XrayProfile);
    FirstWithUnique(konsolerc, ProfileKey, at);
    var xrayLine := ProfileKey + XrayProfile;
    var k1 := NewKonsolerc(konsolerc, tolitica);
    assert k1 == Upsert(konsolerc, ProfileKey, xrayLine);
    UpsertSingle(konsolerc, ProfileKey, at, xrayLine);
    FirstWithUnique(k1, ProfileKey, at);
    assert SetsTo(k1[at], ProfileKey, XrayProfile);
  }

  /** After the first call, tolitica.conf holds the profile it replaced. */
  lemma KonsoleSaved(konsolerc: seq<string>, tolitica: Option<seq<string>>, p: string)
    requires CurrentProfile(konsolerc) == p && CleanValue(p) && p != XrayProfile
    ensures SavedProfile(NewTolitica(konsolerc, tolitica)) == p
  {
    ProfilesClean();
    KeyValueLine(LastProfileKey, p);
    var savedLine := LastProfileKey + p;
    if tolitica.Some? {
      UpsertFirst(tolitica.value, LastProfileKey, savedLine);
    } else {
      FirstWithUnique([savedLine], LastProfileKey, 0);
    }
  }

  /** Two calls of setKonsoleProfile restore the original konsolerc: the
      first switches to the Xray profile (and the status reads true), the
      second restores the profile the first one saved. */
  lemma KonsoleToggleRestores(konsolerc: seq<string>, tolitica: Option<seq<string>>, p: string, at: nat)
    requires at < |konsolerc| && konsolerc[at] == ProfileKey + p
    requires forall j :: 0 <= j < |konsolerc| && j != at ==> !StartsWith(konsolerc[j], ProfileKey)
    requires CleanValue(p) && p != XrayProfile
    ensures KonsoleProfStatus(Some(NewKonsolerc(konsolerc, tolitica)))
    ensures var k1 := NewKonsolerc(konsolerc, tolitica);
      NewKonsolerc(k1, NewTolitica(konsolerc, tolitica)) == konsolerc
  {
    KonsoleFirstCall(konsolerc, tolitica, p, at);
    KonsoleSaved(konsolerc, tolitica, p);
    var k1 := NewKonsolerc(konsolerc, tolitica);
    var k2 := NewKonsolerc(k1, NewTolitica(konsolerc, tolitica));
    assert k2 == Upsert(k1, ProfileKey, ProfileKey + p);
    assert StartsWith(k1[at], ProfileKey) by {
      ProfilesClean();
      KeyValueLine(ProfileKey, XrayProfile);
    }
    forall j | 0 <= j < |k1| && j != at
      ensures !StartsWith(k1[j], ProfileKey)
    {
      assert k1[j] == konsolerc[j];
    }
    UpsertSingle(k1, ProfileKey, at, ProfileKey + p);
    RestoredAt(konsolerc, k1, Upsert(k1, ProfileKey, ProfileKey + p), at);
  }

  /** A line changed at one position and changed back there is the
      original. */
  lemma RestoredAt(original: seq<string>, changed: seq<string>, restored: seq<string>, at: nat)
    requires |changed| == |original| && |restored| == |original| && at < |original|
    requires restored[at] == original[at]
    requires forall j :: 0 <= j < |original| && j != at ==> changed[j] == original[j]
    requires forall j :: 0 <= j < |original| && j != at ==> restored[j] == changed[j]
    ensures restored == original
  {
  }

  // ---------------------------------------------------------------------
  // os-release
  // ---------------------------------------------------------------------

  /** The expected os-release entries; IMAGE_VERSION is read from
      tolitica.conf. */
  function Expected(imageVersion: string): map<string, string> {
    map[
      "NAME" := "\"Xray_OS\"",
      "PRETTY_NAME" := "\"Xray_OS\"",
      "BUILD_ID" := "rolling",
      "ANSI_COLOR" := "\"38;2;23;147;209\"",
      "HOME_URL" := "\"https://xray-os.github.io/xray_os-website/index.html\"",
      "DOCUMENTATION_URL" := "\"https://xray-os.github.io/xray_os-website/get-started.html\"",
      "SUPPORT_URL" := "\"https://discord.com/invite/dBR7wR3ABk/\"",
      "BUG_REPORT_URL" := "\"https://github.com/Xray-OS/Xray_OS/issues\"",
      "PRIVACY_POLICY_URL" := "\"https://xray-os.github.io/xray_os-website/index.html#about-xray-os\"",
      "LOGO" := "xray-logo",
      "IMAGE_ID" := "xray_os",
      "IMAGE_VERSION" := imageVersion,
      "ID" := "xray_os"
    ]
  }

  const ImageVersionKey := "xrayos_img_ver = "

  /** The text after " = " on the first `xrayos_img_ver = ` line of
      tolitica.conf, or empty. */
  function ImageVersion(conf: Option<seq<string>>): string {
    if conf.None? then ""
    else match FirstWith(conf.value, ImageVersionKey)
      case None => ""
      case Some(k) =>
        var parts := Split(conf.value[k], " = ");
        if |parts| >= 2 then parts[1] else ""
  }

  /** A line that splits on '=' into exactly a key and its expected value. */
  predicate LineMatches(line: string, expected: map<string, string>) {
    var parts := Split(line, "=");
    |parts| == 2 && parts[0] in expected && expected[parts[0]] == parts[1]
  }

  /** osreleaseStatus' counter. */
  function MatchCount(lines: seq<string>, expected: map<string, string>): (r: nat)
    ensures r <= |lines|
  {
    if lines == [] then 0
    else MatchCount(lines[..|lines| - 1], expected) + (if LineMatches(lines[|lines| - 1], expected) then 1 else 0)
  }

  /** osreleaseStatus as written: the count of matching lines equals the
      number of expected entries. */
  function OsReleaseStatus(osRelease: Option<seq<string>>, conf: Option<seq<string>>): (r: bool)
    ensures osRelease.None? ==> !r
    ensures r ==> |osRelease.value| >= |Expected(ImageVersion(conf))|
    ensures osRelease.Some? && KeysDistinct(osRelease.value, Expected(ImageVersion(conf))) ==>
      (r <==> OsReleaseComplete(osRelease, conf))
  {
    var expected := Expected(ImageVersion(conf));
    if osRelease.Some? && KeysDistinct(osRelease.value, expected) then
      CountIsKeysWhenDistinct(osRelease.value, expected);
      SubsetOfSameSize(MatchedKeys(osRelease.value, expected), expected.Keys);
      MatchCount(osRelease.value, expected) == |expected|
    else
      osRelease.Some? && MatchCount(osRelease.value, expected) == |expected|
  }

  /** No two matching lines carry the same key. */
  predicate KeysDistinct(lines: seq<string>, expected: map<string, string>) {
    forall i, j :: 0 <= i < j < |lines| && LineMatches(lines[i], expected) && LineMatches(lines[j], expected)
      ==> Split(lines[i], "=")[0] != Split(lines[j], "=")[0]
  }

  /** A subset as large as its superset is all of it. */
  lemma SubsetOfSameSize(a: set<string>, b: set<string>)
    requires a <= b
    ensures |a| == |b| <==> a == b
  {
    if a != b {
      var x :| x in b && x !in a;
      SubsetSize(a, b - {x});
    }
  }

  lemma {:induction false} SubsetSize(a: set<string>, b: set<string>)
    requires a <= b
    ensures |a| <= |b|
    decreases |a|
  {
    if a != {} {
      var y :| y in a;
      SubsetSize(a - {y}, b - {y});
    }
  }

  /** Some line carries key with its expected value. */
  predicate HasMatch(lines: seq<string>, expected: map<string, string>, key: string) {
    exists i :: 0 <= i < |lines| && LineMatches(lines[i], expected) && Split(lines[i], "=")[0] == key
  }

  /** The keys some line matches. */
  function MatchedKeys(lines: seq<string>, expected: map<string, string>): (r: set<string>)
    ensures r <= expected.Keys
    ensures forall key :: key in r <==> HasMatch(lines, expected, key)
  {
    if lines == [] then {}
    else
      var init := lines[..|lines| - 1];
      var last := lines[|lines| - 1];
      var prev := MatchedKeys(init, expected);
      assert forall i :: 0 <= i < |init| ==> init[i] == lines[i];
      prev + (if LineMatches(last, expected) then {Split(last, "=")[0]} else {})
  }

  /** The evidently intended check: every expected entry is present. */
  function OsReleaseComplete(osRelease: Option<seq<string>>, conf: Option<seq<string>>): bool {
    var expected := Expected(ImageVersion(conf));
    osRelease.Some? && MatchedKeys(osRelease.value, expected) == expected.Keys
  }

  /** The corrected check holds exactly when every expected key has a line
      carrying its expected value. */
  lemma CompleteIffAllPresent(lines: seq<string>, conf: Option<seq<string>>)
    ensures OsReleaseComplete(Some(lines), conf) <==>
      var expected := Expected(ImageVersion(conf));
      forall key :: key in expected ==> HasMatch(lines, expected, key)
  {
    var expected := Expected(ImageVersion(conf));
    KeysAllMatched(MatchedKeys(lines, expected), lines, expected);
  }

  /** A subset of the expected keys is all of them iff it holds each one. */
  lemma KeysAllMatched(m: set<string>, lines: seq<string>, expected: map<string, string>)
    requires m <= expected.Keys
    requires forall key :: key in m <==> HasMatch(lines, expected, key)
    ensures m == expected.Keys <==> forall key :: key in expected ==> HasMatch(lines, expected, key)
  {
  }

  lemma IdLineMatches(v: string)
    ensures Split("ID=xray_os", "=") == ["ID", "xray_os"]
    ensures LineMatches("ID=xray_os", Expected(v))
    ensures "NAME" in Expected(v)
  {
    assert "ID=xray_os" == "ID" + ['='] + "xray_os";
    SplitAtSep("ID", '=', "xray_os");
    SplitNoSep("xray_os", '=');
  }

  /** As written, a file repeating one correct line once per expected entry
      passes, while the corrected check fails: the NAME entry is missing. */
  lemma RepeatedLinePasses(conf: Option<seq<string>>)
    ensures var expected := Expected(ImageVersion(conf));
      var lines := seq(|expected|, _ => "ID=xray_os");
      OsReleaseStatus(Some(lines), conf) && !OsReleaseComplete(Some(lines), conf)
  {
    var expected := Expected(ImageVersion(conf));
    var line := "ID=xray_os";
    IdLineMatches(ImageVersion(conf));
    var lines := seq(|expected|, _ => line);
    RepeatCount(|expected|, line, expected);
    forall i | 0 <= i < |lines|
      ensures Split(lines[i], "=")[0] != "NAME"
    {
      assert lines[i] == line;
    }
    assert "NAME" !in MatchedKeys(lines, expected);
  }

  lemma {:induction false} RepeatCount(n: nat, line: string, expected: map<string, string>)
    requires LineMatches(line, expected)
    ensures MatchCount(seq(n, _ => line), expected) == n
  {
    if n > 0 {
      var lines := seq(n, _ => line);
      assert lines[..n - 1] == seq(n - 1, _ => line);
      RepeatCount(n - 1, line, expected);
    }
  }

  /** When no key is matched by two lines, the as-written count and the
      corrected check agree. */
  lemma {:induction false} CountIsKeysWhenDistinct(lines: seq<string>, expected: map<string, string>)
    requires KeysDistinct(lines, expected)
    ensures MatchCount(lines, expected) == |MatchedKeys(lines, expected)|
  {
    if lines != [] {
      var init := lines[..|lines| - 1];
      var last := lines[|lines| - 1];
      CountIsKeysWhenDistinct(init, expected);
      if LineMatches(last, expected) {
        var key := Split(last, "=")[0];
        forall i | 0 <= i < |init| && LineMatches(init[i], expected)
          ensures Split(init[i], "=")[0] != key
        {
          assert init[i] == lines[i];
        }
        assert key !in MatchedKeys(init, expected);
      }
    }
  }

  // ---------------------------------------------------------------------
  // The GRUB theme
  // ---------------------------------------------------------------------

  /** grubThemeStatus: some trimmed line of /etc/default/grub sets
      GRUB_THEME to the Xray theme; an unreadable file reads as false. */
  function GrubThemeStatus(grub: Option<seq<string>>): (r: bool)
    ensures grub.None? ==> !r
    ensures r <==> grub.Some? && exists i :: 0 <= i < |grub.value| && SetsTo(grub.value[i], GrubKey, XrayGrubTheme)
  {
    grub.Some? && AnySetsTo(grub.value, GrubKey, XrayGrubTheme)
  }

  /** The theme setGrubTheme writes: the Arch theme when the Xray theme is
      set, the Xray theme otherwise. */
  function GrubValueFor(grub: Option<seq<string>>): (value: string)
    ensures value == ArchGrubTheme || value == XrayGrubTheme
    ensures value == XrayGrubTheme <==> !GrubThemeStatus(grub)
  {
    GrubThemesClean();
    if GrubThemeStatus(grub) then ArchGrubTheme else XrayGrubTheme
  }

  const GrubSedHead := "sed -i 's|^GRUB_THEME=.*|GRUB_THEME="
  const GrubSedTail := "|' /etc/default/grub && grub-mkconfig -o /boot/grub/grub.cfg"

  /** The well-formed files for the sed rewrite: some line starts with
      `GRUB_THEME=`, and no such line is indented. */
  predicate GrubEditable(lines: seq<string>) {
    && FirstWith(lines, GrubKey).Some?
    && forall i :: 0 <= i < |lines| ==> StartsWith(Trim(lines[i]), GrubKey) ==> StartsWith(lines[i], GrubKey)
  }

  /** The sed-and-mkconfig command that writes `GRUB_THEME=value`. */
  function GrubCommandOf(value: string): (r: string)
    ensures StartsWith(r, GrubSedHead) && EndsWith(r, GrubSedTail)
    ensures |r| >= |GrubSedHead| + |GrubSedTail|
    ensures r[|GrubSedHead|..|r| - |GrubSedTail|] == value
  {
    ThreeParts(GrubSedHead, value, GrubSedTail);
    GrubSedHead + value + GrubSedTail
  }

  /** setGrubTheme's command: a sed substitution of every `GRUB_THEME=` line
      followed by grub-mkconfig, substituting the theme grubThemeStatus does
      not currently report. */
  function SetGrubThemeCommand(grub: Option<seq<string>>): (r: string)
    ensures StartsWith(r, GrubSedHead) && EndsWith(r, GrubSedTail)
    ensures |r| >= |GrubSedHead| + |GrubSedTail|
    ensures r[|GrubSedHead|..|r| - |GrubSedTail|] == GrubValueFor(grub)
  {
    GrubCommandOf(GrubValueFor(grub))
  }

  /** Running setGrubTheme's command on a well-formed file flips
      grubThemeStatus: the value between the sed head and tail, written by
      the sed rewrite, makes the status the opposite of what it was. */
  lemma SetGrubThemeFlips(lines: seq<string>)
    requires GrubEditable(lines)
    ensures var r := SetGrubThemeCommand(Some(lines));
      GrubThemeStatus(Some(SedGrubTheme(lines, r[|GrubSedHead|..|r| - |GrubSedTail|]))) == !GrubThemeStatus(Some(lines))
  {
    GrubToggle(lines);
  }

  /** A string built from three parts starts with the first, ends with the
      last, and holds the middle one between them. */
  lemma ThreeParts(a: string, b: string, c: string)
    ensures var r := a + b + c;
      StartsWith(r, a) && EndsWith(r, c) && r[|a|..|r| - |c|] == b
  {
    var r := a + b + c;
    assert r[..|a|] == a;
    assert r[|a|..|r| - |c|] == b;
    assert r[|r| - |c|..] == c;
  }

  /** The effect of the sed command on /etc/default/grub: every line
      starting `GRUB_THEME=` becomes `GRUB_THEME=value`, and when there is
      one the file then sets the key to that value. */
  function SedGrubTheme(lines: seq<string>, value: string): (r: seq<string>)
    ensures |r| == |lines|
    ensures forall k :: 0 <= k < |lines| && !StartsWith(lines[k], GrubKey) ==> r[k] == lines[k]
    ensures CleanValue(value) && FirstWith(lines, GrubKey).Some? ==> AnySetsTo(r, GrubKey, value)
  {
    var r := ReplacePrefixed(lines, GrubKey, GrubKey + value);
    if CleanValue(value) && FirstWith(lines, GrubKey).Some? then
      GrubThemesClean();
      KeyValueLine(GrubKey, value);
      assert SetsTo(r[FirstWith(lines, GrubKey).value], GrubKey, value);
      r
    else
      r
  }

  /** Replacing every line that starts with key by `key + value`, with value
      the one the status does not read, flips the status. */
  lemma SedToggle(lines: seq<string>, key: string, on: string, off: string)
    requires CleanKey(key) && CleanValue(on) && CleanValue(off) && on != off
    requires FirstWith(lines, key).Some?
    requires forall i :: 0 <= i < |lines| ==> StartsWith(Trim(lines[i]), key) ==> StartsWith(lines[i], key)
    ensures var value := if AnySetsTo(lines, key, on) then off else on;
      AnySetsTo(ReplacePrefixed(lines, key, key + value), key, on) == !AnySetsTo(lines, key, on)
  {
    KeyValueLine(key, on);
    KeyValueLine(key, off);
    if AnySetsTo(lines, key, on) {
      var after := ReplacePrefixed(lines, key, key + off);
      forall i | 0 <= i < |after|
        ensures !SetsTo(after[i], key, on)
      {
        if !StartsWith(lines[i], key) {
          assert after[i] == lines[i];
        }
      }
    } else {
      var after := ReplacePrefixed(lines, key, key + on);
      assert SetsTo(after[FirstWith(lines, key).value], key, on);
    }
  }

  lemma GrubThemesClean()
    ensures CleanKey(GrubKey) && CleanValue(XrayGrubTheme) && CleanValue(ArchGrubTheme)
    ensures XrayGrubTheme != ArchGrubTheme
  {
    ThemePathClean("xray_os");
    ThemePathClean("Arch-Linux");
    assert XrayGrubTheme[18] != ArchGrubTheme[18];
  }

  /** A theme path under /boot/grub/themes/ is a clean value. */
  lemma ThemePathClean(name: string)
    requires name != [] && '"' !in name
    ensures CleanValue(GrubThemesDir + name + ThemeFile)
  {
    var v := GrubThemesDir + name + ThemeFile;
    assert v[0] == '/' && v[|v| - 1] == 't';
    assert '"' !in GrubThemesDir && '"' !in ThemeFile;
    assert forall i :: 0 <= i < |v| ==> v[i] in GrubThemesDir || v[i] in name || v[i] in ThemeFile;
    CleanByEnds(v);
  }

  /** Running setGrubTheme's command flips grubThemeStatus, when the file
      has a `GRUB_THEME=` line and no such line is indented. */
  lemma GrubToggle(lines: seq<string>)
    requires GrubEditable(lines)
    ensures GrubThemeStatus(Some(SedGrubTheme(lines, GrubValueFor(Some(lines))))) == !GrubThemeStatus(Some(lines))
  {
    GrubThemesClean();
    SedToggle(lines, GrubKey, XrayGrubTheme, ArchGrubTheme);
  }

  // ---------------------------------------------------------------------
  // Installing and removing packages
  // ---------------------------------------------------------------------

  const CleanCommands := ["pacman -Scc --noconfirm", "pacman -Sy"]

  /** The package command: remove when installed, install otherwise. */
  function PackageCommand(installed: bool, name: string): (r: string)
    ensures StartsWith(r, "pacman -Rns --noconfirm ") <==> installed
    ensures !installed ==> StartsWith(r, "pacman -S --noconfirm ")
    ensures EndsWith(r, name)
  {
    var verb := if installed then "pacman -Rns --noconfirm " else "pacman -S --noconfirm ";
    var r := verb + name;
    assert r[..|verb|] == verb;
    assert r[|r| - |name|..] == name;
    assert !installed ==> r[8] == 'S';
    r
  }

  function OfflinePath(home: string, name: string): string {
    home + "/tolitica-home-settings/offline-packages/" + name
  }

  /** The command actually run: the offline packages only when installing
      without a connection. */
  function CommandToRun(installed: bool, connected: bool, home: string, name: string): (r: string)
    ensures !connected && !installed <==> r == "sudo pacman -U --noconfirm " + OfflinePath(home, name) + "/*.zst"
    ensures connected || installed ==> r == PackageCommand(installed, name)
  {
    if !connected && !installed then "sudo pacman -U --noconfirm " + OfflinePath(home, name) + "/*.zst"
    else
      var r := PackageCommand(installed, name);
      assert r[0] == 'p';
      r
  }

  /** The commands of n runs: the command, followed by `cleanup` after a
      failing run. */
  function RetryLog(command: string, cleanup: seq<string>, exitOf: nat -> int, n: nat): seq<string> {
    if n == 0 then []
    else RetryLog(command, cleanup, exitOf, n - 1) + [command] + (if exitOf(n - 1) != 0 then cleanup else [])
  }

  /** The attempt counter of getRemoveAUR/getRemoveStore: it grows on a
      failing run only while below 2. */
  function CappedAttempts(attempts: nat, exitCode: int): nat {
    if exitCode != 0 && attempts < 2 then attempts + 1 else attempts
  }

  /** The counter of getArch7zGamingMeta: it grows on every failing run. */
  function CountedAttempts(attempts: nat, exitCode: int): nat {
    if exitCode != 0 then attempts + 1 else attempts
  }

  /** The loop condition both do-while loops share. */
  predicate RunAgain(attempts: nat, exitCode: int) {
    exitCode != 0 && attempts < 3
  }

  /** The counter after n failing runs. */
  function FailedCapped(n: nat): nat {
    if n == 0 then 0 else CappedAttempts(FailedCapped(n - 1), 1)
  }

  function FailedCounted(n: nat): nat {
    if n == 0 then 0 else CountedAttempts(FailedCounted(n - 1), 1)
  }

  /** As written, the capped counter never reaches 3, so after any number of
      failing runs the loop runs again. */
  lemma {:induction false} CappedNeverStops(n: nat, exitCode: int)
    requires exitCode != 0
    ensures FailedCapped(n) <= 2 && RunAgain(FailedCapped(n), exitCode)
  {
    if n > 0 {
      CappedNeverStops(n - 1, exitCode);
    }
  }

  /** With the counter growing on every failure, three failing runs end
      the loop. */
  lemma {:induction false} CountedStopsAtThree(n: nat, exitCode: int)
    ensures FailedCounted(n) == n
    ensures n >= 3 ==> !RunAgain(FailedCounted(n), exitCode)
  {
    if n > 0 {
      CountedStopsAtThree(n - 1, exitCode);
    }
  }

  /** The retry loop of getRemoveAUR and getRemoveStore as written. It
      ends only on a run that succeeds; the model looks at no more than
      `horizon` runs, and a loop still failing then is reported unfinished. */
  method RetryAsWritten(command: string, exitOf: nat -> int, horizon: nat)
    returns (log: seq<string>, runs: nat, finished: bool)
    requires horizon > 0
    ensures 1 <= runs <= horizon
    ensures forall k :: 0 <= k < runs - 1 ==> exitOf(k) != 0
    ensures finished <==> exitOf(runs - 1) == 0
    ensures !finished ==> runs == horizon
    ensures log == RetryLog(command, [], exitOf, runs)
  {
    var attempts: nat := 0;
    var exitCode := exitOf(0);
    log := [command];
    runs := 1;
    attempts := CappedAttempts(attempts, exitCode);
    while RunAgain(attempts, exitCode) && runs < horizon
      invariant 1 <= runs <= horizon
      invariant attempts <= 2
      invariant exitCode == exitOf(runs - 1)
      invariant forall k :: 0 <= k < runs - 1 ==> exitOf(k) != 0
      invariant log == RetryLog(command, [], exitOf, runs)
      decreases horizon - runs
    {
      exitCode := exitOf(runs);
      log := log + [command];
      runs := runs + 1;
      attempts := CappedAttempts(attempts, exitCode);
    }
    finished := exitCode == 0;
  }

  /** The retry loop of getArch7zGamingMeta: at most three runs, with the
      cleanup commands after each failing run. */
  method RunWithRetries(command: string, cleanup: seq<string>, exitOf: nat -> int)
    returns (log: seq<string>, runs: nat, success: bool)
    ensures 1 <= runs <= 3
    ensures forall k :: 0 <= k < runs - 1 ==> exitOf(k) != 0
    ensures success <==> exitOf(runs - 1) == 0
    ensures !success ==> runs == 3
    ensures log == RetryLog(command, cleanup, exitOf, runs)
  {
    var attempts: nat := 0;
    log := [];
    runs := 0;
    var exitCode := exitOf(0);
    log := log + [command];
    runs := runs + 1;
    if exitCode != 0 {
      log := log + cleanup;
    }
    attempts := CountedAttempts(attempts, exitCode);
    while RunAgain(attempts, exitCode)
      invariant 1 <= runs <= 3
      invariant exitCode != 0 ==> attempts == runs
      invariant exitCode == 0 ==> attempts == runs - 1
      invariant exitCode == exitOf(runs - 1)
      invariant forall k :: 0 <= k < runs - 1 ==> exitOf(k) != 0
      invariant log == RetryLog(command, cleanup, exitOf, runs)
      decreases 3 - runs
    {
      exitCode := exitOf(runs);
      log := log + [command];
      runs := runs + 1;
      if exitCode != 0 {
        log := log + cleanup;
      }
      attempts := CountedAttempts(attempts, exitCode);
    }
    success := exitCode == 0;
  }

  /** getRemoveAUR and getRemoveStore: nothing runs and the callback is not
      called when the offline package directory is missing or holds no
      `.zst` file; otherwise the chosen command is retried as written, every
      run but the last failing, and the callback is called with true exactly
      when the last run succeeded. */
  method GetRemovePackage(name: string, home: string, installed: bool, dirExists: bool,
                          zstFiles: seq<string>, connected: bool, exitOf: nat -> int, horizon: nat)
    returns (log: seq<string>, runs: nat, callback: Option<bool>)
    requires horizon > 0
    ensures !dirExists || zstFiles == [] ==> log == [] && runs == 0 && callback.None?
    ensures dirExists && zstFiles != [] ==>
      && 1 <= runs <= horizon
      && log == RetryLog(CommandToRun(installed, connected, home, name), [], exitOf, runs)
      && |log| == runs
      && (forall c :: c in log ==> c == CommandToRun(installed, connected, home, name))
      && (forall k :: 0 <= k < runs - 1 ==> exitOf(k) != 0)
      && callback == (if exitOf(runs - 1) == 0 then Some(true) else None)
      && (callback.None? ==> runs == horizon)
  {
    var command := PackageCommand(installed, name);
    var offlinePath := OfflinePath(home, name);
    if !dirExists {
      return [], 0, None;
    } else if zstFiles == [] {
      return [], 0, None;
    }
    var cmdToRun;
    if !connected && !installed {
      cmdToRun := "sudo pacman -U --noconfirm " + offlinePath + "/*.zst";
    } else {
      cmdToRun := command;
    }
    var finished;
    log, runs, finished := RetryAsWritten(cmdToRun, exitOf, horizon);
    RetryLogCommands(cmdToRun, exitOf, runs);
    callback := if finished then Some(true) else None;
  }

  lemma {:induction false} RetryLogCommands(command: string, exitOf: nat -> int, n: nat)
    ensures |RetryLog(command, [], exitOf, n)| == n
    ensures forall c :: c in RetryLog(command, [], exitOf, n) ==> c == command
  {
    if n > 0 {
      RetryLogCommands(command, exitOf, n - 1);
    }
  }

  /** getArch7zGamingMeta: nothing when offline; otherwise the install or
      remove command with up to three runs and cleanup between them, and the
      callback reports the last run. */
  method GetArch7zGamingMeta(installed: bool, connected: bool, exitOf: nat -> int)
    returns (log: seq<string>, callback: Option<bool>)
    ensures !connected ==> log == [] && callback.None?
    ensures connected ==> callback.Some? && (exists runs :: (
      && 1 <= runs <= 3
      && log == RetryLog(PackageCommand(installed, "arch7z-gaming-meta"), CleanCommands, exitOf, runs)
      && (callback.value <==> exitOf(runs - 1) == 0)
      && (forall k :: 0 <= k < runs - 1 ==> exitOf(k) != 0)
      && (!callback.value ==> runs == 3)))
  {
    var command := PackageCommand(installed, "arch7z-gaming-meta");
    if !connected {
      return [], None;
    }
    var runs, success;
    log, runs, success := RunWithRetries(command, CleanCommands, exitOf);
    callback := Some(success);
  }
}
