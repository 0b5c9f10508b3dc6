/**
 * The first-run setup window: the handlers that switch the `initialSetup`
 * flag in tolitica.conf off (the Done button, closing the window, the
 * completion hook), the icon-theme radio group, and the Xray and terminal
 * theming toggles. Files are `Option<...>`, None when they cannot be
 * opened; the calls into the theming helpers are returned as values.
 */
module WidgetInitial {
  import opened Text
  import Startup
  import CoreInitial

  // ---------------------------------------------------------------------
  // The initialSetup flag
  // ---------------------------------------------------------------------

  const FlagPrefix := "initialSetup = "
  const SetupPending := FlagPrefix + "0"
  const SetupDone := FlagPrefix + "1"

  /** The two flag texts differ only in their last character, '0' against
      '1'; neither holds a line break, and the pending text holds no '1'. */
  lemma FlagTexts()
    ensures |SetupPending| == 16 && |SetupDone| == 16
    ensures forall k :: 0 <= k < 15 ==> SetupDone[k] == SetupPending[k]
    ensures SetupPending[15] == '0' && SetupDone[15] == '1'
    ensures '1' !in SetupPending && '\n' !in SetupPending && '\n' !in SetupDone
    ensures SetupPending[0] == 'i' && SetupPending[1] == 'n' && SetupPending[12] == ' '
    ensures forall k :: 1 <= k < 15 ==> !(SetupDone[k] == 'i' && SetupDone[k + 1] == 'n')
  {
    assert FlagPrefix == "initialSetup = ";
  }

  // The Done button -------------------------------------------------------

  /** One line as the Done handler writes it back. */
  function DoneLine(line: string): string {
    if StartsWith(line, SetupPending) then SetupDone else line
  }

  /** The Done handler: reads tolitica.conf line by line, replaces each line
      starting with `initialSetup = 0` by `initialSetup = 1`, and writes all
      lines back in order; nothing is written when the file cannot be
      opened. */
  method DoneRewrite(configFile: Option<seq<string>>) returns (written: Option<seq<string>>)
    ensures configFile.None? ==> written.None?
    ensures configFile.Some? ==> written.Some? && |written.value| == |configFile.value|
    ensures configFile.Some? ==> forall i :: 0 <= i < |configFile.value| ==>
      written.value[i] == DoneLine(configFile.value[i])
  {
    if configFile.None? {
      return None;
    }
    var input := configFile.value;
    var lines: seq<string> := [];
    var i := 0;
    while i < |input|
      invariant 0 <= i <= |input|
      invariant |lines| == i
      invariant forall k :: 0 <= k < i ==> lines[k] == DoneLine(input[k])
    {
      var line := input[i];
      if StartsWith(line, SetupPending) {
        lines := lines + [SetupDone];
      } else {
        lines := lines + [line];
      }
      i := i + 1;
    }
    written := Some(lines);
  }

  /** A second Done changes nothing. */
  lemma DoneIdempotent(line: string)
    ensures DoneLine(DoneLine(line)) == DoneLine(line)
  {
    FlagTexts();
    assert !StartsWith(SetupDone, SetupPending) by {
      assert SetupDone[..16][15] != SetupPending[15];
    }
  }

  /** After Done, a line reads as 0 at start-up exactly when it read as 0
      before and did not start with `initialSetup = 0` (for instance an
      indented line or `initialSetup=0`). */
  lemma DoneSwitchesOff(line: string)
    ensures Startup.ReadsAsZero(DoneLine(line)) <==> Startup.ReadsAsZero(line) && !StartsWith(line, SetupPending)
  {
    if StartsWith(line, SetupPending) {
      assert SetupDone + [] == SetupDone;
      DoneLineReadsOne([]);
    }
  }

  // closeEvent and markSetupComplete --------------------------------------

  /** QString::replace(before, after): every leftmost non-overlapping
      occurrence, scanning from the front. */
  function ReplaceAll(s: string, before: string, after: string): string
    requires before != []
    decreases |s|
  {
    if |s| < |before| then s
    else if s[..|before|] == before then after + ReplaceAll(s[|before|..], before, after)
    else [s[0]] + ReplaceAll(s[1..], before, after)
  }

  /** The rewrite closeEvent (on Yes) and markSetupComplete apply to the
      whole file. */
  function SwitchOff(content: string): string {
    ReplaceAll(content, SetupPending, SetupDone)
  }

  /** markSetupComplete: the rewritten content, or nothing written when the
      file cannot be opened. */
  function MarkSetupComplete(content: Option<string>): (written: Option<string>)
    ensures written.Some? <==> content.Some?
    ensures content.Some? ==> !Contains(written.value, SetupPending)
    ensures content.Some? ==> Bumped(content.value, written.value)
  {
    if content.None? then None
    else
      ReplaceBumps(content.value);
      ReplaceNoPending(content.value);
      Some(SwitchOff(content.value))
  }

  /** closeEvent: on Yes the file is rewritten as by markSetupComplete and
      the window closes; on No nothing is written and it stays open. */
  function CloseEvent(yes: bool, content: Option<string>): (r: (bool, Option<string>))
    ensures r.0 == yes
    ensures r.1 == if yes then MarkSetupComplete(content) else None
  {
    if yes then (true, MarkSetupComplete(content)) else (false, None)
  }

  /** t is s with some '0' characters turned into '1'. */
  predicate Bumped(s: string, t: string) {
    |s| == |t| && forall k :: 0 <= k < |s| ==> t[k] == s[k] || (s[k] == '0' && t[k] == '1')
  }

  /** The replace only turns the final '0' of each occurrence into '1'. */
  lemma {:induction false} ReplaceBumps(s: string)
    ensures Bumped(s, SwitchOff(s))
    decreases |s|
  {
    FlagTexts();
    var t := SwitchOff(s);
    if |s| < 16 {
    } else if s[..16] == SetupPending {
      ReplaceBumps(s[16..]);
      assert t == SetupDone + SwitchOff(s[16..]);
      forall k | 0 <= k < |s|
        ensures t[k] == s[k] || (s[k] == '0' && t[k] == '1')
      {
        if k < 16 {
          assert s[k] == SetupPending[k];
        } else {
          assert s[k] == s[16..][k - 16];
        }
      }
    } else {
      ReplaceBumps(s[1..]);
      assert t == [s[0]] + SwitchOff(s[1..]);
      forall k | 1 <= k < |s|
        ensures t[k] == s[k] || (s[k] == '0' && t[k] == '1')
      {
        assert s[k] == s[1..][k - 1];
      }
    }
  }

  /** Where the rewritten text starts with a text holding no '1', the
      original starts with it too. */
  lemma BumpedPrefix(s: string, t: string, w: string)
    requires Bumped(s, t) && '1' !in w && StartsWith(t, w)
    ensures StartsWith(s, w)
  {
    forall k | 0 <= k < |w|
      ensures s[k] == w[k]
    {
      assert t[k] == w[k];
    }
    assert s[..|w|] == w;
  }

  /** No occurrence of the pending text can start inside an inserted
      `initialSetup = 1`. */
  lemma {:induction false} DoneTailNoPending(k: nat, x: string)
    requires k <= 16 && !Contains(x, SetupPending)
    ensures !Contains(SetupDone[k..] + x, SetupPending)
    decreases 16 - k
  {
    FlagTexts();
    var u := SetupDone[k..] + x;
    if k == 16 {
      assert u == x;
    } else {
      DoneTailNoPending(k + 1, x);
      assert u[1..] == SetupDone[k + 1..] + x;
      assert u[0] == SetupDone[k];
      if k == 0 {
        assert u[15] == SetupDone[15];
        assert |u| >= 16 ==> u[..16][15] == u[15];
      } else if k < 15 {
        assert u[1] == SetupDone[k + 1];
        assert |u| >= 16 ==> u[..16][0] == u[0] && u[..16][1] == u[1];
      } else {
        assert |u| >= 16 ==> u[..16][0] == u[0];
      }
    }
  }

  /** After the replace no `initialSetup = 0` is left anywhere. */
  lemma {:induction false} ReplaceNoPending(s: string)
    ensures !Contains(SwitchOff(s), SetupPending)
    decreases |s|
  {
    FlagTexts();
    var t := SwitchOff(s);
    if |s| < 16 {
      if Contains(t, SetupPending) {
        ContainsLength(t, SetupPending);
      }
    } else if s[..16] == SetupPending {
      ReplaceNoPending(s[16..]);
      assert t == SetupDone[0..] + SwitchOff(s[16..]);
      DoneTailNoPending(0, SwitchOff(s[16..]));
    } else {
      var y := SwitchOff(s[1..]);
      ReplaceNoPending(s[1..]);
      ReplaceBumps(s[1..]);
      assert t == [s[0]] + y;
      assert t[1..] == y;
      var tail := SetupPending[1..];
      assert '1' !in tail by {
        assert forall c :: c in tail ==> c in SetupPending;
      }
      if StartsWith(y, tail) {
        BumpedPrefix(s[1..], y, tail);
        assert s[..16] == [s[0]] + s[1..][..15];
      }
      StartsWithCons(t, SetupPending);
    }
  }

  /** A text holding no `initialSetup = 0` is left as it is. */
  lemma {:induction false} ReplaceNoop(s: string)
    requires !Contains(s, SetupPending)
    ensures SwitchOff(s) == s
    decreases |s|
  {
    FlagTexts();
    if |s| >= 16 {
      assert !StartsWith(s, SetupPending);
      ReplaceNoop(s[1..]);
      assert s == [s[0]] + s[1..];
    }
  }

  /** Closing twice, or closing after markSetupComplete, changes nothing
      more. */
  lemma SwitchOffIdempotent(s: string)
    ensures SwitchOff(SwitchOff(s)) == SwitchOff(s)
  {
    ReplaceNoPending(s);
    ReplaceNoop(SwitchOff(s));
  }

  /** Line breaks stop an occurrence, so the replace works line by line. */
  lemma {:induction false} ReplaceJoin(a: string, b: string)
    requires '\n' !in a
    ensures SwitchOff(a + "\n" + b) == SwitchOff(a) + "\n" + SwitchOff(b)
    decreases |a|
  {
    FlagTexts();
    var s := a + "\n" + b;
    if |s| < 16 {
      assert SwitchOff(a) == a && SwitchOff(b) == b && SwitchOff(s) == s;
    } else if s[..16] == SetupPending {
      StartsWithPast(s, SetupPending, |a|);
      assert a[..16] == SetupPending;
      assert s[16..] == a[16..] + "\n" + b;
      assert forall c :: c in a[16..] ==> c in a;
      ReplaceJoin(a[16..], b);
      assert SwitchOff(s) == SetupDone + SwitchOff(s[16..]);
      assert SwitchOff(a) == SetupDone + SwitchOff(a[16..]);
      AppendAssoc(SetupDone, SwitchOff(a[16..]) + "\n", SwitchOff(b));
      AppendAssoc(SetupDone, SwitchOff(a[16..]), "\n");
    } else if a == [] {
      assert s == "\n" + b && s[0] == '\n';
      assert s[1..] == b;
      assert SwitchOff(s) == "\n" + SwitchOff(b);
      assert SwitchOff(a) == [];
    } else {
      assert s[1..] == a[1..] + "\n" + b;
      assert forall c :: c in a[1..] ==> c in a;
      ReplaceJoin(a[1..], b);
      assert SwitchOff(s) == [a[0]] + SwitchOff(s[1..]);
      if |a| >= 16 {
        assert a[..16] == s[..16];
      }
      assert SwitchOff(a) == [a[0]] + SwitchOff(a[1..]);
      AppendAssoc([a[0]], SwitchOff(a[1..]) + "\n", SwitchOff(b));
      AppendAssoc([a[0]], SwitchOff(a[1..]), "\n");
    }
  }

  /** The file's lines, each rewritten on its own. */
  function SwitchOffLines(ls: seq<string>): (r: seq<string>)
    ensures |r| == |ls|
  {
    seq(|ls|, i requires 0 <= i < |ls| => SwitchOff(ls[i]))
  }

  lemma {:induction false} ReplaceJoinLines(ls: seq<string>)
    requires forall l :: l in ls ==> '\n' !in l
    ensures SwitchOff(JoinLines(ls)) == JoinLines(SwitchOffLines(ls))
    decreases |ls|
  {
    if |ls| > 1 {
      assert ls[0] in ls;
      assert forall l :: l in ls[1..] ==> l in ls;
      ReplaceJoin(ls[0], JoinLines(ls[1..]));
      ReplaceJoinLines(ls[1..]);
      assert SwitchOffLines(ls)[1..] == SwitchOffLines(ls[1..]);
    }
  }

  /** The rewrite keeps every character other than the flipped digits, so
      it adds no line break. */
  lemma BumpedKeepsBreaks(s: string, t: string)
    requires Bumped(s, t) && '\n' !in s
    ensures '\n' !in t
  {
    forall k | 0 <= k < |t|
      ensures t[k] != '\n'
    {
      assert s[k] in s;
    }
  }

  /** Dropping the first character keeps the correspondence. */
  lemma BumpedTail(s: string, t: string)
    requires Bumped(s, t) && s != []
    ensures Bumped(s[1..], t[1..])
  {
    forall k | 0 <= k < |s| - 1
      ensures t[1..][k] == s[1..][k] || (s[1..][k] == '0' && t[1..][k] == '1')
    {
      assert s[1..][k] == s[k + 1] && t[1..][k] == t[k + 1];
    }
  }

  /** Dropping the last character keeps the correspondence. */
  lemma BumpedInit(s: string, t: string)
    requires Bumped(s, t) && s != []
    ensures Bumped(s[..|s| - 1], t[..|t| - 1])
  {
  }

  /** Putting corresponding characters in front keeps the correspondence. */
  lemma BumpedCons(c: char, d: char, s: string, t: string)
    requires Bumped(s, t) && (d == c || (c == '0' && d == '1'))
    ensures Bumped([c] + s, [d] + t)
  {
    forall k | 1 <= k < |s| + 1
      ensures ([d] + t)[k] == ([c] + s)[k] || (([c] + s)[k] == '0' && ([d] + t)[k] == '1')
    {
      assert ([c] + s)[k] == s[k - 1] && ([d] + t)[k] == t[k - 1];
    }
  }

  /** Trimming keeps the correspondence: '0' and '1' are not white space. */
  lemma {:induction false} TrimBumped(s: string, t: string)
    requires Bumped(s, t)
    ensures Bumped(Trim(s), Trim(t))
    decreases |s|
  {
    if s != [] {
      assert IsSpace(s[0]) <==> IsSpace(t[0]);
      assert IsSpace(s[|s| - 1]) <==> IsSpace(t[|t| - 1]);
      if IsSpace(s[0]) {
        BumpedTail(s, t);
        TrimBumped(s[1..], t[1..]);
      } else if IsSpace(s[|s| - 1]) {
        BumpedInit(s, t);
        TrimBumped(s[..|s| - 1], t[..|t| - 1]);
      }
    }
  }

  /** Splitting on '=' keeps the correspondence field by field: '=' is
      never flipped. */
  lemma {:induction false} SplitBumped(s: string, t: string)
    requires Bumped(s, t)
    ensures |Split(s, "=")| == |Split(t, "=")|
    ensures forall i :: 0 <= i < |Split(s, "=")| ==> Bumped(Split(s, "=")[i], Split(t, "=")[i])
    decreases |s|
  {
    if |s| >= 1 {
      assert s[..1] == [s[0]] && t[..1] == [t[0]];
      BumpedTail(s, t);
      SplitBumped(s[1..], t[1..]);
      if s[..1] != "=" {
        var rs := Split(s[1..], "=");
        var rt := Split(t[1..], "=");
        BumpedCons(s[0], t[0], rs[0], rt[0]);
      }
    }
  }

  /** A trimmed line keeps a head whose ends are not white space. */
  lemma {:induction false} TrimKeepsHead(p: string, y: string)
    requires p != [] && !IsSpace(p[0]) && !IsSpace(p[|p| - 1])
    ensures StartsWith(Trim(p + y), p)
    decreases |y|
  {
    var s := p + y;
    assert s[0] == p[0];
    if y == [] {
      assert s == p;
      TrimNoop(p);
    } else if IsSpace(s[|s| - 1]) {
      assert s[..|s| - 1] == p + y[..|y| - 1];
      TrimKeepsHead(p, y[..|y| - 1]);
    } else {
      assert s[..|p|] == p;
    }
  }

  /** The first field of a split starts with any head free of the
      separator. */
  lemma {:induction false} FirstFieldHead(p: string, z: string, c: char)
    requires c !in p
    ensures StartsWith(Split(p + z, [c])[0], p)
    decreases |p|
  {
    if p != [] {
      var s := p + z;
      assert p[0] in p && s[0] == p[0];
      assert s[..1] != [c];
      assert s[1..] == p[1..] + z;
      assert forall x :: x in p[1..] ==> x in p;
      FirstFieldHead(p[1..], z, c);
      assert p == [p[0]] + p[1..];
    }
  }

  /** A line starting with `initialSetup = 1` never reads as 0. */
  lemma DoneLineReadsOne(y: string)
    ensures !Startup.ReadsAsZero(SetupDone + y)
  {
    FlagTexts();
    var line := Trim(SetupDone + y);
    TrimKeepsHead(SetupDone, y);
    var z := line[16..];
    assert line == SetupDone + z;
    assert line == "initialSetup " + "=" + (" 1" + z);
    SplitAtSep("initialSetup ", '=', " 1" + z);
    var f1 := Split(" 1" + z, "=")[0];
    assert Split(line, "=")[1] == f1;
    FirstFieldHead(" 1", z, '=');
    var w := f1[2..];
    assert f1 == " " + ("1" + w);
    assert Trim(f1) == Trim("1" + w);
    TrimKeepsHead("1", w);
  }

  /** The replace never makes a line read as 0 at start-up that did not
      before. */
  lemma NeverCreatesZero(s: string, t: string)
    requires Bumped(s, t)
    requires Startup.ReadsAsZero(t)
    ensures Startup.ReadsAsZero(s)
  {
    var u := Trim(s);
    var v := Trim(t);
    TrimBumped(s, t);
    assert '1' !in Startup.FlagKey;
    BumpedPrefix(u, v, Startup.FlagKey);
    ContainsChar(v, '=');
    var k :| 0 <= k < |v| && v[k] == '=';
    assert u[k] == '=';
    CharContains(u, '=');
    SplitBumped(u, v);
    var fu := Split(u, "=")[1];
    var fv := Split(v, "=")[1];
    TrimBumped(fu, fv);
    assert Trim(fv)[0] == '0';
  }

  /** A line starting with `initialSetup = 0` no longer reads as 0 after
      the replace. */
  lemma PendingSwitchedOff(line: string)
    requires StartsWith(line, SetupPending)
    ensures !Startup.ReadsAsZero(SwitchOff(line))
  {
    FlagTexts();
    assert line[..16] == SetupPending;
    assert SwitchOff(line) == SetupDone + SwitchOff(line[16..]);
    DoneLineReadsOne(SwitchOff(line[16..]));
  }

  /** A flag written without spaces is not rewritten, and the setup window
      still opens for it. */
  lemma UnspacedFlagKept()
    ensures SwitchOff("initialSetup=0") == "initialSetup=0"
    ensures DoneLine("initialSetup=0") == "initialSetup=0"
    ensures Startup.ReadsAsZero(SwitchOff("initialSetup=0"))
  {
    FlagTexts();
    assert ' ' !in "initialSetup=0";
    NotContainsChar("initialSetup=0", SetupPending, 12);
    ReplaceNoop("initialSetup=0");
    Startup.ZeroLineReads();
  }

  /** After markSetupComplete (or closeEvent on Yes) start-up reads the
      rewritten lines, and none of them reads as 0 provided every line that
      read as 0 started with `initialSetup = 0`; no other line starts to
      read as 0. */
  lemma MarkSetupCompleteClears(ls: seq<string>)
    requires ls != []
    requires forall l :: l in ls ==> '\n' !in l
    ensures Split(MarkSetupComplete(Some(JoinLines(ls))).value, "\n") == SwitchOffLines(ls)
    ensures forall i :: 0 <= i < |ls| && Startup.ReadsAsZero(SwitchOffLines(ls)[i]) ==>
      Startup.ReadsAsZero(ls[i]) && !StartsWith(ls[i], SetupPending)
    ensures (forall i :: 0 <= i < |ls| && Startup.ReadsAsZero(ls[i]) ==> StartsWith(ls[i], SetupPending)) ==>
      forall i :: 0 <= i < |ls| ==> !Startup.ReadsAsZero(SwitchOffLines(ls)[i])
  {
    ReplaceJoinLines(ls);
    var out := SwitchOffLines(ls);
    forall l | l in out
      ensures '\n' !in l
    {
      var i :| 0 <= i < |out| && out[i] == l;
      assert ls[i] in ls;
      ReplaceBumps(ls[i]);
      BumpedKeepsBreaks(ls[i], l);
    }
    SplitJoinLines(out);
    forall i | 0 <= i < |ls| && Startup.ReadsAsZero(out[i])
      ensures Startup.ReadsAsZero(ls[i]) && !StartsWith(ls[i], SetupPending)
    {
      ReplaceBumps(ls[i]);
      NeverCreatesZero(ls[i], out[i]);
      if StartsWith(ls[i], SetupPending) {
        PendingSwitchedOff(ls[i]);
      }
    }
  }

  // ---------------------------------------------------------------------
  // Icon theme radio group
  // ---------------------------------------------------------------------

  /** The three round checkboxes under the icon previews. */
  class IconChooser {
    var draculaCheck: bool
    var surfnCheck: bool
    var vanillaCheck: bool

    /** The boxes show the given theme: its box alone is checked. */
    predicate Shows(icons: string)
      reads this
    {
      draculaCheck == (icons == CoreInitial.Dracula) &&
      surfnCheck == (icons == CoreInitial.SurfnTela) &&
      vanillaCheck == (icons == CoreInitial.BreezeDark)
    }

    /** The page opens with the box of the theme currentIcons reports
        checked. */
    constructor (currentIcons: string)
      ensures Shows(currentIcons)
    {
      draculaCheck := currentIcons == CoreInitial.Dracula;
      surfnCheck := currentIcons == CoreInitial.SurfnTela;
      vanillaCheck := currentIcons == CoreInitial.BreezeDark;
    }

    /** The six click handlers (a preview button and a checkbox per theme),
        each passing its own theme name: kdeglobals is rewritten by setIcons
        and the theme's box alone is checked. When kdeglobals' headers carry
        no stray blanks, currentIcons then reads the checked theme back. */
    method OnIconClicked(kdeglobals: Option<seq<string>>, icons: string) returns (written: Option<seq<string>>)
      requires CoreInitial.IconsName(icons) == icons
      modifies this
      ensures Shows(icons)
      ensures (if draculaCheck then 1 else 0) + (if surfnCheck then 1 else 0) + (if vanillaCheck then 1 else 0) == 1
      ensures kdeglobals.None? ==> written.None?
      ensures kdeglobals.Some? ==> written == Some(CoreInitial.SetIconsLines(kdeglobals.value, icons))
      ensures kdeglobals.Some? &&
        (forall i :: 0 <= i < |kdeglobals.value| ==> CoreInitial.CleanHeader(kdeglobals.value[i])) &&
        (CoreInitial.HasIconsSection(kdeglobals.value) ==> CoreInitial.Scan(kdeglobals.value, false, CoreInitial.ReaderKind).Some?)
        ==> CoreInitial.CurrentIcons(written) == icons
    {
      written := CoreInitial.SetIcons(kdeglobals, icons);
      if kdeglobals.Some? &&
        (forall i :: 0 <= i < |kdeglobals.value| ==> CoreInitial.CleanHeader(kdeglobals.value[i])) &&
        (CoreInitial.HasIconsSection(kdeglobals.value) ==> CoreInitial.Scan(kdeglobals.value, false, CoreInitial.ReaderKind).Some?)
      {
        CoreInitial.IconsRoundTrip(kdeglobals.value, icons);
      }
      draculaCheck := icons == CoreInitial.Dracula;
      surfnCheck := icons == CoreInitial.SurfnTela;
      vanillaCheck := icons == CoreInitial.BreezeDark;
    }
  }

  // ---------------------------------------------------------------------
  // Theming toggles
  // ---------------------------------------------------------------------

  const XrayLookAndFeel := "XRAY-DARK.desktop"
  const BreezeLookAndFeel := "org.kde.breezedark.desktop"

  function XrayLabel(enabled: bool): string {
    if enabled then "Go back default Breeze Dark" else "Switch to Xray_OS theming"
  }

  /** The Xray theming switch; its state lives in the click handler. */
  class XrayToggle {
    var isXrayThemingEnabled: bool
    var labelText: string

    predicate Valid()
      reads this
    {
      labelText == XrayLabel(isXrayThemingEnabled)
    }

    /** The switch starts from xrayThemeStatus. */
    constructor (xrayThemeStatus: bool)
      ensures isXrayThemingEnabled == xrayThemeStatus && Valid()
    {
      isXrayThemingEnabled := xrayThemeStatus;
      labelText := XrayLabel(xrayThemeStatus);
    }

    /** A click applies Breeze Dark when Xray theming was on and XRAY-DARK
        otherwise, then flips the switch: the switch is on exactly when the
        Xray look-and-feel is the one just applied. */
    method OnClicked() returns (appliedTheme: string)
      modifies this
      ensures appliedTheme == if old(isXrayThemingEnabled) then BreezeLookAndFeel else XrayLookAndFeel
      ensures isXrayThemingEnabled == !old(isXrayThemingEnabled)
      ensures isXrayThemingEnabled <==> appliedTheme == XrayLookAndFeel
      ensures Valid()
    {
      appliedTheme := if isXrayThemingEnabled then BreezeLookAndFeel else XrayLookAndFeel;
      isXrayThemingEnabled := !isXrayThemingEnabled;
      labelText := XrayLabel(isXrayThemingEnabled);
    }
  }

  /** The helpers the terminal switch calls: setOSrelease and
      setKonsoleProfile of the initial-setup core, and the main window's
      disableTermTheme, which flips the oh-my-posh line of config.fish. */
  datatype TerminalCall = SetOSrelease | SetKonsoleProfile | DisableTermTheme

  function TerminalLabel(enabled: bool): string {
    if enabled then "Disable terminal theming" else "Enable terminal theming"
  }

  /** The terminal theming switch; its state lives in the click handler. */
  class TerminalToggle {
    var isTerminalThemingEnabled: bool
    var labelText: string

    /** Terminal theming counts as on when os-release, the Konsole profile
        and config.fish (status 1: the line is active) are all set up. */
    constructor (osReleaseStatus: bool, konsoleProfStatus: bool, termThemStatus: int)
      ensures isTerminalThemingEnabled <==> osReleaseStatus && konsoleProfStatus && termThemStatus == 1
      ensures labelText == TerminalLabel(isTerminalThemingEnabled)
    {
      var enabled := osReleaseStatus && konsoleProfStatus && termThemStatus == 1;
      isTerminalThemingEnabled := enabled;
      labelText := TerminalLabel(enabled);
    }

    /** A click with the freshly probed statuses. Switching on calls only
        the helpers whose part is not yet set up; switching off flips the
        config.fish line and calls both other helpers unconditionally. The
        switch then flips. */
    method OnClicked(osreleaseStatus: bool, konsoleProfStatus: bool, currentTermStatus: int)
      returns (calls: seq<TerminalCall>)
      modifies this
      ensures old(isTerminalThemingEnabled) ==> calls == [DisableTermTheme, SetOSrelease, SetKonsoleProfile]
      ensures !old(isTerminalThemingEnabled) ==>
        (SetOSrelease in calls <==> !osreleaseStatus) &&
        (SetKonsoleProfile in calls <==> !konsoleProfStatus) &&
        (DisableTermTheme in calls <==> currentTermStatus != 1)
      ensures forall i, j :: 0 <= i < j < |calls| ==> calls[i] != calls[j]
      ensures isTerminalThemingEnabled == !old(isTerminalThemingEnabled)
      ensures labelText == TerminalLabel(isTerminalThemingEnabled)
    {
      calls := [];
      if !isTerminalThemingEnabled {
        if !osreleaseStatus {
          calls := calls + [SetOSrelease];
        }
        if !konsoleProfStatus {
          calls := calls + [SetKonsoleProfile];
        }
        if currentTermStatus != 1 {
          calls := calls + [DisableTermTheme];
        }
      }
      if isTerminalThemingEnabled {
        calls := [DisableTermTheme, SetOSrelease, SetKonsoleProfile];
      }
      isTerminalThemingEnabled := !isTerminalThemingEnabled;
      labelText := TerminalLabel(isTerminalThemingEnabled);
    }
  }
}
