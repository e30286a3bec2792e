/**
 * The Python string operations `parse_color` relies on: `str.strip()` and
 * `str.split(sep)`, together with the two whitespace sets involved.
 */
module Text {

  /** Python's `str.isspace()` for one character: what `str.strip()` removes. */
  predicate IsSpace(c: char) {
    if c < '\U{80}' then '\U{09}' <= c <= '\U{0D}' || '\U{1C}' <= c <= '\U{20}'
    else IsWideSpace(c)
  }

  /** The non-ASCII characters for which `str.isspace()` holds. */
  predicate IsWideSpace(c: char) {
    || c == '\U{85}' || c == '\U{A0}' || c == '\U{1680}'
    || '\U{2000}' <= c <= '\U{200A}'
    || c == '\U{2028}' || c == '\U{2029}' || c == '\U{202F}' || c == '\U{205F}' || c == '\U{3000}'
  }

  /**
   * The whitespace `int()` skips around a number: the ASCII characters
   * space, tab, line feed, vertical tab, form feed and carriage return,
   * and every non-ASCII `str.isspace()` character. The separators
   * U+001C..U+001F, which `str.strip()` does remove, are not skipped.
   */
  predicate IsIntSpace(c: char) {
    if c < '\U{80}' then '\U{09}' <= c <= '\U{0D}' || c == ' '
    else IsWideSpace(c)
  }

  /** Removes the leading characters satisfying `sp`. */
  function StripLeft(s: string, sp: char -> bool): (t: string)
    ensures |t| <= |s| && t == s[|s| - |t|..]
    ensures forall k :: 0 <= k < |s| - |t| ==> sp(s[k])
    ensures t == [] || !sp(t[0])
    decreases |s|
  {
    if |s| > 0 && sp(s[0]) then StripLeft(s[1..], sp) else s
  }

  /** Removes the trailing characters satisfying `sp`. */
  function StripRight(s: string, sp: char -> bool): (t: string)
    ensures |t| <= |s| && t == s[..|t|]
    ensures forall k :: |t| <= k < |s| ==> sp(s[k])
    ensures t == [] || !sp(t[|t| - 1])
    decreases |s|
  {
    if |s| > 0 && sp(s[|s| - 1]) then StripRight(s[..|s| - 1], sp) else s
  }

  /**
   * `s.strip()` when `sp` is `IsSpace`: the longest middle part of `s`
   * that neither starts nor ends with a character satisfying `sp`.
   */
  function Strip(s: string, sp: char -> bool): (t: string)
    ensures t == [] || (!sp(t[0]) && !sp(t[|t| - 1]))
    ensures (s == [] || (!sp(s[0]) && !sp(s[|s| - 1]))) ==> t == s
  {
    StripRight(StripLeft(s, sp), sp)
  }

  /** What stripping keeps is the slice `s[i..i + |t|]`; everything before and after it is stripped. */
  lemma StripSlice(s: string, sp: char -> bool) returns (i: nat)
    ensures var t := Strip(s, sp); i + |t| <= |s| && t == s[i..i + |t|]
    ensures forall k :: 0 <= k < i ==> sp(s[k])
    ensures forall k :: i + |Strip(s, sp)| <= k < |s| ==> sp(s[k])
  {
    var l := StripLeft(s, sp);
    var t := StripRight(l, sp);
    i := |s| - |l|;
    assert l == s[i..];
    assert t == l[..|t|];
    assert l[..|t|] == s[i..i + |t|];
    forall k | i + |t| <= k < |s|
      ensures sp(s[k])
    {
      assert s[k] == l[k - i];
    }
  }

  /** Stripping leaves nothing exactly when every character is one to strip. */
  lemma StripEmptyIffAllSpace(s: string, sp: char -> bool)
    ensures Strip(s, sp) == [] <==> forall k :: 0 <= k < |s| ==> sp(s[k])
  {
    var t := Strip(s, sp);
    var i := StripSlice(s, sp);
    if t != [] {
      assert t[0] == s[i];
    }
  }

  /**
   * `s.split(sep)`: the pieces between occurrences of `sep`, empty pieces
   * included; there is always one more piece than there are separators.
   */
  function Split(s: string, sep: char): (parts: seq<string>)
    ensures |parts| == multiset(s)[sep] + 1
    ensures forall k :: 0 <= k < |parts| ==> sep !in parts[k]
    decreases |s|
  {
    if s == [] then [[]]
    else
      assert s == [s[0]] + s[1..];
      var rest := Split(s[1..], sep);
      if s[0] == sep then [[]] + rest else [[s[0]] + rest[0]] + rest[1..]
  }

  /** `sep.join(parts)`. */
  function Join(parts: seq<string>, sep: char): string
    requires |parts| > 0
    decreases |parts|
  {
    if |parts| == 1 then parts[0] else parts[0] + [sep] + Join(parts[1..], sep)
  }

  /** Joining the pieces of a split gives back the string. */
  lemma {:induction false} JoinSplit(s: string, sep: char)
    ensures Join(Split(s, sep), sep) == s
    decreases |s|
  {
    if s != [] {
      JoinSplit(s[1..], sep);
      if s[0] == sep {
        JoinSplitStep(s, sep);
      } else {
        JoinSplitInside(s, sep);
      }
    }
  }

  lemma JoinSplitStep(s: string, sep: char)
    requires s != [] && s[0] == sep
    requires Join(Split(s[1..], sep), sep) == s[1..]
    ensures Join(Split(s, sep), sep) == s
  {
    SplitAtHead(s, sep);
    JoinEmptyHead(Split(s[1..], sep), sep);
    assert s == [sep] + s[1..];
  }

  /** An empty first piece contributes only its separator to the join. */
  lemma JoinEmptyHead(rest: seq<string>, sep: char)
    requires |rest| > 0
    ensures Join([[]] + rest, sep) == [sep] + Join(rest, sep)
  {
    var parts: seq<string> := [[]] + rest;
    assert parts[1..] == rest;
    JoinCons(parts, sep);
  }

  lemma JoinSplitInside(s: string, sep: char)
    requires s != [] && s[0] != sep
    requires Join(Split(s[1..], sep), sep) == s[1..]
    ensures Join(Split(s, sep), sep) == s
  {
    SplitInsideHead(s, sep);
    JoinPrepend(s[0], Split(s[1..], sep), sep);
    assert s == [s[0]] + s[1..];
  }

  /** Putting a character in front of the first piece puts it in front of the join. */
  lemma JoinPrepend(c: char, parts: seq<string>, sep: char)
    requires |parts| > 0
    ensures Join([[c] + parts[0]] + parts[1..], sep) == [c] + Join(parts, sep)
  {
    var moved := [[c] + parts[0]] + parts[1..];
    if |parts| > 1 {
      assert moved[1..] == parts[1..];
      assert [c] + parts[0] + [sep] + Join(parts[1..], sep) == [c] + (parts[0] + [sep] + Join(parts[1..], sep));
    }
  }

  lemma SplitAtHead(s: string, sep: char)
    requires s != [] && s[0] == sep
    ensures Split(s, sep) == [[]] + Split(s[1..], sep)
  {
  }

  lemma SplitInsideHead(s: string, sep: char)
    requires s != [] && s[0] != sep
    ensures Split(s, sep) == [[s[0]] + Split(s[1..], sep)[0]] + Split(s[1..], sep)[1..]
  {
  }

  lemma JoinCons(parts: seq<string>, sep: char)
    requires |parts| > 1
    ensures Join(parts, sep) == parts[0] + [sep] + Join(parts[1..], sep)
  {
  }

  /** A string without `sep` splits into itself. */
  lemma {:induction false} SplitNoSeparator(a: string, sep: char)
    requires sep !in a
    ensures Split(a, sep) == [a]
    decreases |a|
  {
    if a != [] {
      SplitNoSeparator(a[1..], sep);
      assert [a[0]] + a[1..] == a;
    }
  }

  /** Splitting at the first separator peels off the part before it. */
  lemma {:induction false} SplitAtSeparator(a: string, sep: char, b: string)
    requires sep !in a
    ensures Split(a + [sep] + b, sep) == [a] + Split(b, sep)
    decreases |a|
  {
    var s := a + [sep] + b;
    if a == [] {
      assert s[1..] == b;
    } else {
      assert s[1..] == a[1..] + [sep] + b;
      SplitAtSeparator(a[1..], sep, b);
      assert [a[0]] + a[1..] == a;
    }
  }

  /** Splitting a join of separator-free pieces gives back the pieces. */
  lemma {:induction false} SplitJoin(parts: seq<string>, sep: char)
    requires |parts| > 0
    requires forall k :: 0 <= k < |parts| ==> sep !in parts[k]
    ensures Split(Join(parts, sep), sep) == parts
    decreases |parts|
  {
    if |parts| == 1 {
      SplitNoSeparator(parts[0], sep);
    } else {
      SplitJoin(parts[1..], sep);
      SplitAtSeparator(parts[0], sep, Join(parts[1..], sep));
      assert [parts[0]] + parts[1..] == parts;
    }
  }
}
