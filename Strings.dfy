/**
 The three Python string operations the release-file parser relies on, written
 out over `string` (a `seq<char>`):
 - `s.split(c, 1)` on a string that contains `c`, as `SplitFirst`;
 - `s.split(c)` with an explicit separator, as `Split`;
 - `s.replace(" ", "")`, as `RemoveSpaces`.
 */
module Strings {
  import opened Wrappers

  /** The text before the first `c` in `s` and the text after it, or `None`
      when `c` does not occur in `s`. */
  function SplitFirst(s: string, c: char): (r: Option<(string, string)>)
    ensures r.None? <==> c !in s
    ensures r.Some? ==> c !in r.value.0 && s == r.value.0 + [c] + r.value.1
    decreases |s|
  {
    if s == [] then None
    else if s[0] == c then Some(([], s[1..]))
    else match SplitFirst(s[1..], c)
      case None => None
      case Some((before, after)) => Some(([s[0]] + before, after))
  }

  /** Cutting at the first `c` undoes gluing two pieces with `c` whenever the
      first piece holds no `c`: the cut is at the first separator, not a later one. */
  lemma {:induction false} SplitFirstAt(before: string, after: string, c: char)
    requires c !in before
    ensures SplitFirst(before + [c] + after, c) == Some((before, after))
  {
    var s := before + [c] + after;
    if before == [] {
      assert s[0] == c && s[1..] == after;
    } else {
      assert s[0] == before[0] != c;
      assert s[1..] == before[1..] + [c] + after;
      SplitFirstAt(before[1..], after, c);
      assert [s[0]] + before[1..] == before;
    }
  }

  /** The pieces glued back with `c` between them (Python's `c.join(parts)`). */
  function Join(parts: seq<string>, c: char): string
    requires |parts| >= 1
  {
    if |parts| == 1 then parts[0] else parts[0] + [c] + Join(parts[1..], c)
  }

  /** Python's `s.split(c)`: the maximal pieces of `s` between occurrences of
      `c`, always at least one (the empty string splits to `[""]`). */
  function Split(s: string, c: char): (r: seq<string>)
    ensures |r| >= 1
    ensures forall i :: 0 <= i < |r| ==> c !in r[i]
    ensures Join(r, c) == s
    decreases |s|
  {
    match SplitFirst(s, c)
    case None => [s]
    case Some((before, after)) =>
      var rest := Split(after, c);
      assert ([before] + rest)[1..] == rest;
      [before] + rest
  }

  /** Splitting a joined sequence of separator-free pieces gives back the pieces. */
  lemma {:induction false} SplitJoin(parts: seq<string>, c: char)
    requires |parts| >= 1
    requires forall i :: 0 <= i < |parts| ==> c !in parts[i]
    ensures Split(Join(parts, c), c) == parts
  {
    if |parts| > 1 {
      SplitFirstAt(parts[0], Join(parts[1..], c), c);
      SplitJoin(parts[1..], c);
      assert [parts[0]] + parts[1..] == parts;
    }
  }

  /** A character absent from `s` is absent from every piece of `s.split(c)`. */
  lemma {:induction false} SplitKeepsAbsent(s: string, c: char, d: char)
    requires d !in s
    ensures forall i :: 0 <= i < |Split(s, c)| ==> d !in Split(s, c)[i]
    decreases |s|
  {
    match SplitFirst(s, c)
    case None =>
    case Some((before, after)) =>
      assert s == before + [c] + after;
      assert d !in before && d !in after;
      SplitKeepsAbsent(after, c, d);
      assert Split(s, c) == [before] + Split(after, c);
  }

  /** Python's `s.replace(" ", "")`: `s` with every U+0020 space dropped. */
  function RemoveSpaces(s: string): (r: string)
    ensures ' ' !in r
    ensures |r| <= |s|
    ensures forall ch :: ch != ' ' ==> multiset(r)[ch] == multiset(s)[ch]
  {
    if s == [] then []
    else
      assert s == [s[0]] + s[1..];
      if s[0] == ' ' then RemoveSpaces(s[1..]) else [s[0]] + RemoveSpaces(s[1..])
  }

  /** Dropping spaces works piece by piece, so the order of the kept
      characters is the order they had in `s`. */
  lemma {:induction false} RemoveSpacesAppend(a: string, b: string)
    ensures RemoveSpaces(a + b) == RemoveSpaces(a) + RemoveSpaces(b)
  {
    if a != [] {
      assert (a + b)[0] == a[0] && (a + b)[1..] == a[1..] + b;
      RemoveSpacesAppend(a[1..], b);
    } else {
      assert a + b == b;
    }
  }

  /** A string without spaces is left as it is; in particular the operation
      is idempotent. */
  lemma {:induction false} RemoveSpacesNoSpace(s: string)
    requires ' ' !in s
    ensures RemoveSpaces(s) == s
  {
    if s != [] {
      assert s[0] != ' ';
      RemoveSpacesNoSpace(s[1..]);
      assert [s[0]] + s[1..] == s;
    }
  }
}
