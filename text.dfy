/**
 * String helpers with the semantics of the Qt string calls used throughout
 * the application: QString::trimmed, startsWith, endsWith, contains,
 * split (keeping empty parts, or skipping them), section and toLower.
 * Strings are sequences of Unicode scalar values, as QString characters are
 * read here.
 */
module Text {

  datatype Option<+T> = None | Some(value: T)

  /** QChar::isSpace: U+0009..U+000D, U+0020, U+0085 and the Unicode
      separator categories (Zs, Zl, Zp). U+FEFF is not a space. */
  predicate IsSpace(c: char) {
    || ('\t' <= c <= '\r')
    || c == ' '
    || c == '\U{85}'
    || c == '\U{A0}'
    || c == '\U{1680}'
    || ('\U{2000}' <= c <= '\U{200A}')
    || c == '\U{2028}'
    || c == '\U{2029}'
    || c == '\U{202F}'
    || c == '\U{205F}'
    || c == '\U{3000}'
  }

  /** QString::trimmed: drops white space from both ends. */
  function Trim(s: string): (r: string)
    ensures |r| <= |s|
    ensures r == [] || (!IsSpace(r[0]) && !IsSpace(r[|r| - 1]))
    decreases |s|
  {
    if s == [] then s
    else if IsSpace(s[0]) then Trim(s[1..])
    else if IsSpace(s[|s| - 1]) then Trim(s[..|s| - 1])
    else s
  }

  /** The white space QByteArray::trimmed drops: ASCII tab, line feed,
      vertical tab, form feed, carriage return and space. */
  predicate IsAsciiSpace(c: char) {
    ('\t' <= c <= '\r') || c == ' '
  }

  /** QByteArray::trimmed on a process output, read as text: UTF-8 never
      uses an ASCII byte inside a longer sequence, so trimming the bytes is
      trimming the ASCII white space characters. */
  function TrimAscii(s: string): (r: string)
    ensures |r| <= |s|
    ensures r == [] || (!IsAsciiSpace(r[0]) && !IsAsciiSpace(r[|r| - 1]))
    ensures forall k :: 0 <= k < |s| && !IsAsciiSpace(s[k]) ==> r != []
    decreases |s|
  {
    if s == [] then s
    else if IsAsciiSpace(s[0]) then
      assert forall k :: 1 <= k < |s| ==> s[1..][k - 1] == s[k];
      TrimAscii(s[1..])
    else if IsAsciiSpace(s[|s| - 1]) then
      assert forall k :: 0 <= k < |s| - 1 ==> s[..|s| - 1][k] == s[k];
      TrimAscii(s[..|s| - 1])
    else s
  }

  /** A string whose ends are not white space is its own trimmed form. */
  lemma TrimNoop(s: string)
    requires s == [] || (!IsSpace(s[0]) && !IsSpace(s[|s| - 1]))
    ensures Trim(s) == s
  {
  }

  lemma TrimIdempotent(s: string)
    ensures Trim(Trim(s)) == Trim(s)
  {
    TrimNoop(Trim(s));
  }

  predicate StartsWith(s: string, p: string) {
    |p| <= |s| && s[..|p|] == p
  }

  predicate EndsWith(s: string, p: string) {
    |p| <= |s| && s[|s| - |p|..] == p
  }

  /** QString::contains for a string argument. */
  predicate Contains(s: string, p: string)
    decreases |s|
  {
    StartsWith(s, p) || (|s| > 0 && Contains(s[1..], p))
  }

  lemma {:induction false} ContainsAfter(a: string, b: string, p: string)
    requires Contains(b, p)
    ensures Contains(a + b, p)
    decreases |a|
  {
    if a == [] {
      assert a + b == b;
    } else {
      assert (a + b)[1..] == a[1..] + b;
      ContainsAfter(a[1..], b, p);
    }
  }

  lemma StartsWithExtends(b: string, c: string, p: string)
    requires StartsWith(b, p)
    ensures StartsWith(b + c, p) && Contains(b + c, p)
  {
    assert (b + c)[..|p|] == b[..|p|];
  }

  /** What a suffix contains, the whole string contains. */
  lemma {:induction false} ContainsFrom(s: string, p: string, j: nat)
    requires j <= |s| && Contains(s[j..], p)
    ensures Contains(s, p)
    decreases j
  {
    if j > 0 {
      assert s[1..][j - 1..] == s[j..];
      ContainsFrom(s[1..], p, j - 1);
    } else {
      assert s[0..] == s;
    }
  }

  /** A pattern occurring anywhere in the middle of a string is contained in it. */
  lemma ContainsInfix(a: string, p: string, c: string)
    ensures Contains(a + p + c, p)
  {
    StartsWithExtends(p, c, p);
    assert a + p + c == a + (p + c);
    ContainsAfter(a, p + c, p);
  }

  /** A string that lacks the first character of p does not contain p. */
  lemma {:induction false} NotContainsFirst(s: string, p: string)
    requires p != [] && p[0] !in s
    ensures !Contains(s, p)
    decreases |s|
  {
    if |s| > 0 {
      assert s[0] in s;
      assert forall x :: x in s[1..] ==> x in s;
      NotContainsFirst(s[1..], p);
    }
  }

  /** A string lacking some character of p does not contain p. */
  lemma {:induction false} NotContainsChar(s: string, p: string, j: nat)
    requires j < |p| && p[j] !in s
    ensures !Contains(s, p)
    decreases |s|
  {
    assert |p| <= |s| ==> s[j] in s;
    if |s| > 0 {
      assert forall x :: x in s[1..] ==> x in s;
      NotContainsChar(s[1..], p, j);
    }
  }

  /** Starting with p is matching its first character, then its rest. */
  lemma StartsWithCons(s: string, p: string)
    requires p != []
    ensures StartsWith(s, p) <==> |s| > 0 && s[0] == p[0] && StartsWith(s[1..], p[1..])
  {
    if |s| > 0 && |p| <= |s| {
      assert s[..|p|] == [s[0]] + s[1..][..|p| - 1];
      assert p == [p[0]] + p[1..];
    }
  }

  /** A prefix p ends before any position holding a character not in p. */
  lemma StartsWithPast(s: string, p: string, k: nat)
    requires k < |s|
    ensures StartsWith(s, p) && s[k] !in p ==> |p| <= k
  {
    if StartsWith(s, p) && k < |p| {
      assert s[..|p|][k] == s[k];
    }
  }

  /** A string holding character c contains the one-character string. */
  lemma {:induction false} CharContains(s: string, c: char)
    requires c in s
    ensures Contains(s, [c])
    decreases |s|
  {
    if s[0] != c {
      assert s == [s[0]] + s[1..];
      CharContains(s[1..], c);
    }
  }

  /** Only a string at least as long as p can contain p. */
  lemma {:induction false} ContainsLength(s: string, p: string)
    requires Contains(s, p)
    ensures |p| <= |s|
    decreases |s|
  {
    if !StartsWith(s, p) {
      ContainsLength(s[1..], p);
    }
  }

  function LowerChar(c: char): char {
    if 'A' <= c <= 'Z' then (c as int + 32) as char else c
  }

  /** QString::toLower, restricted to the ASCII letters. */
  function Lower(s: string): (r: string)
    ensures |r| == |s| && forall i :: 0 <= i < |s| ==> r[i] == LowerChar(s[i])
  {
    seq(|s|, i requires 0 <= i < |s| => LowerChar(s[i]))
  }

  /** QString::split(sep, Qt::KeepEmptyParts): the fields between the
      leftmost non-overlapping occurrences of sep. */
  function Split(s: string, sep: string): (r: seq<string>)
    requires sep != []
    ensures |r| > 0
    decreases |s|
  {
    if |s| < |sep| then [s]
    else if s[..|sep|] == sep then [""] + Split(s[|sep|..], sep)
    else
      var rest := Split(s[1..], sep);
      [[s[0]] + rest[0]] + rest[1..]
  }

  /** A string without the separator character is one field. */
  lemma {:induction false} SplitNoSep(s: string, c: char)
    requires c !in s
    ensures Split(s, [c]) == [s]
    decreases |s|
  {
    if |s| >= 1 {
      assert s[0] in s;
      assert s[..1] != [c];
      SplitNoSep(s[1..], c);
      assert [s[0]] + s[1..] == s;
    }
  }

  /** The first separator character ends the first field. */
  lemma {:induction false} SplitAtSep(a: string, c: char, b: string)
    requires c !in a
    ensures Split(a + [c] + b, [c]) == [a] + Split(b, [c])
    decreases |a|
  {
    var s := a + [c] + b;
    if a == [] {
      assert s[..1] == [c] && s[1..] == b;
    } else {
      assert a[0] in a && s[0] == a[0];
      assert s[..1] != [c];
      assert s[1..] == a[1..] + [c] + b;
      SplitAtSep(a[1..], c, b);
      assert [a[0]] + a[1..] == a;
    }
  }

  /** A string holding the separator splits into at least two fields. */
  lemma {:induction false} SplitHasTwo(s: string, c: char)
    requires c in s
    ensures |Split(s, [c])| >= 2
    decreases |s|
  {
    if s[..1] != [c] {
      assert s[0] != c;
      assert s == [s[0]] + s[1..];
      SplitHasTwo(s[1..], c);
    }
  }

  /** Containing a one-character string is holding that character. */
  lemma {:induction false} ContainsChar(s: string, c: char)
    requires Contains(s, [c])
    ensures c in s
    decreases |s|
  {
    if StartsWith(s, [c]) {
      assert s[0] == s[..1][0];
    } else {
      ContainsChar(s[1..], c);
      assert forall x :: x in s[1..] ==> x in s;
    }
  }

  /** Keeps the non-empty parts (Qt::SkipEmptyParts). */
  function NonEmpty(parts: seq<string>): (r: seq<string>)
    ensures forall w :: w in r ==> w != [] && w in parts
    ensures forall w :: w in parts && w != [] ==> w in r
  {
    if parts == [] then []
    else (if parts[0] == [] then [] else [parts[0]]) + NonEmpty(parts[1..])
  }

  /** QString::split(" ", Qt::SkipEmptyParts). */
  function Words(s: string): seq<string> {
    NonEmpty(Split(s, " "))
  }

  /** A single word is split into itself. */
  lemma WordsSingle(w: string)
    requires w != [] && ' ' !in w
    ensures Words(w) == [w]
  {
    SplitNoSep(w, ' ');
    assert Split(w, " ") == [w];
    assert NonEmpty([w]) == [w] + NonEmpty([]);
  }

  /** A leading word followed by one space comes out first. */
  lemma WordsCons(w: string, rest: string)
    requires w != [] && ' ' !in w
    ensures Words(w + " " + rest) == [w] + Words(rest)
  {
    SplitAtSep(w, ' ', rest);
    var parts := Split(w + " " + rest, " ");
    assert parts == [w] + Split(rest, " ");
    assert parts[1..] == Split(rest, " ");
  }

  /** QString::section(sep, k, k): field k of the split, or empty when the
      string has fewer fields. */
  function Section(s: string, sep: char, k: nat): (r: string)
    ensures |r| <= |s|
  {
    var fields := Split(s, [sep]);
    SplitFieldsShorter(s, [sep]);
    if k < |fields| then fields[k] else ""
  }

  lemma {:induction false} SplitFieldsShorter(s: string, sep: string)
    requires sep != []
    ensures forall f :: f in Split(s, sep) ==> |f| <= |s|
    decreases |s|
  {
    if |s| < |sep| {
    } else if s[..|sep|] == sep {
      SplitFieldsShorter(s[|sep|..], sep);
    } else {
      SplitFieldsShorter(s[1..], sep);
    }
  }

  /** The text after the prefix and its separator, when it holds no further separator. */
  lemma SectionAfterPrefix(prefix: string, c: char, id: string)
    requires c !in prefix && c !in id
    ensures Section(prefix + [c] + id, c, 1) == id
  {
    SplitAtSep(prefix, c, id);
    SplitNoSep(id, c);
  }

  /** Field 2 of "/mnt/<id>" split on '/' is id, when id has no '/'. */
  lemma SectionOfMountDir(id: string)
    requires '/' !in id
    ensures Section("/mnt/" + id, '/', 2) == id
  {
    assert "/mnt/" + id == [] + ['/'] + ("mnt" + ['/'] + id);
    SplitAtSep([], '/', "mnt" + ['/'] + id);
    SplitAtSep("mnt", '/', id);
    SplitNoSep(id, '/');
  }

  /** Joins lines with '\n', the inverse of splitting a text on '\n'. */
  function JoinLines(ls: seq<string>): string {
    if ls == [] then "" else if |ls| == 1 then ls[0] else ls[0] + "\n" + JoinLines(ls[1..])
  }

  lemma {:induction false} SplitJoinLines(ls: seq<string>)
    requires ls != []
    requires forall l :: l in ls ==> '\n' !in l
    ensures Split(JoinLines(ls), "\n") == ls
    decreases |ls|
  {
    if |ls| == 1 {
      SplitNoSep(ls[0], '\n');
    } else {
      SplitAtSep(ls[0], '\n', JoinLines(ls[1..]));
      SplitJoinLines(ls[1..]);
    }
  }

  lemma {:induction false} NonEmptyKeeps(ls: seq<string>)
    requires forall l :: l in ls ==> l != []
    ensures NonEmpty(ls) == ls
  {
    if ls != [] {
      assert forall l :: l in ls[1..] ==> l in ls;
      NonEmptyKeeps(ls[1..]);
      assert ls[0] in ls;
      assert ls == [ls[0]] + ls[1..];
    }
  }

  function DigitChar(d: nat): char
    requires d < 10
  {
    "0123456789"[d]
  }

  /** QString::number for a non-negative value. */
  function NatToString(n: nat): (r: string)
    ensures r != [] && forall k :: 0 <= k < |r| ==> '0' <= r[k] <= '9'
  {
    if n < 10 then [DigitChar(n)] else NatToString(n / 10) + [DigitChar(n % 10)]
  }

  /** QString::arg(int): decimal digits with a leading '-' for negatives. */
  function IntToString(i: int): (r: string)
    ensures r != [] && forall k :: 1 <= k < |r| ==> '0' <= r[k] <= '9'
    ensures (r[0] == '-') == (i < 0)
    ensures r[0] == '-' || '0' <= r[0] <= '9'
  {
    if i < 0 then "-" + NatToString(-i) else NatToString(i)
  }

  /** Removes every occurrence of c (QString::remove(QChar)). */
  function RemoveChar(s: string, c: char): (r: string)
    ensures c !in r && |r| <= |s|
    ensures c !in s ==> r == s
  {
    if s == [] then [] else (if s[0] == c then [] else [s[0]]) + RemoveChar(s[1..], c)
  }

  /** Concatenation regroups; stated once so that provers need not rebuild it
      element by element. */
  lemma AppendAssoc<T>(a: seq<T>, b: seq<T>, c: seq<T>)
    ensures (a + b) + c == a + (b + c)
  {
  }
}
