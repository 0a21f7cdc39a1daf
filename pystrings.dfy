/**
 The few operations on Python `str` values that the hooks use, over
 `seq<char>`: membership (`c in s` is Dafny's own), `s.find(c)`,
 `s.split(sep)` and `sep.join(parts)` for a one-character separator, and an
 ASCII case fold for case-insensitive comparison.
 */
module PyStrings {

  /** Position of the first `c` in `s`, or `|s|` when `c` does not occur
      (Python's `s.find(c)`, with -1 reported as `len(s)`). */
  function IndexOf(s: string, c: char): (i: nat)
    ensures i <= |s|
    ensures i < |s| ==> s[i] == c
    ensures c !in s[..i]
  {
    if s == [] then 0
    else if s[0] == c then 0
    else
      var j := IndexOf(s[1..], c);
      assert s[..1 + j] == [s[0]] + s[1..][..j];
      1 + j
  }

  /** The three properties of `IndexOf` pin it down: any position that has
      them is the one `IndexOf` returns. */
  lemma IndexOfUnique(s: string, c: char, j: nat)
    requires j <= |s|
    requires c !in s[..j]
    requires j < |s| ==> s[j] == c
    ensures IndexOf(s, c) == j
  {
  }

  /** Python's `s.split(sep)` for a one-character separator: the pieces
      between consecutive separators, in order. There is always at least one
      piece (possibly empty), and a second one exactly when `sep` occurs. */
  function Split(s: string, sep: char): (parts: seq<string>)
    ensures |parts| >= 1
    ensures parts[0] == s[..IndexOf(s, sep)]
    ensures |parts| >= 2 <==> IndexOf(s, sep) < |s|
    ensures forall k :: 0 <= k < |parts| ==> sep !in parts[k]
    decreases |s|
  {
    var i := IndexOf(s, sep);
    if i == |s| then [s]
    else [s[..i]] + Split(s[i + 1..], sep)
  }

  /** A split has a second piece exactly when the separator occurs. */
  lemma SplitHasSecondPiece(s: string, sep: char)
    ensures |Split(s, sep)| >= 2 <==> sep in s
  {
    if IndexOf(s, sep) == |s| {
      assert s[..|s|] == s;
    }
  }

  /** The second piece of a split is the text between the first separator
      and the next one (or the end). */
  lemma SplitSecond(s: string, sep: char)
    requires IndexOf(s, sep) < |s|
    ensures var rest := s[IndexOf(s, sep) + 1..];
      Split(s, sep)[1] == rest[..IndexOf(rest, sep)]
  {
    var i := IndexOf(s, sep);
    var tail := Split(s[i + 1..], sep);
    assert Split(s, sep)[1] == tail[0];
  }

  /** Python's `sep.join(parts)`. */
  function Join(parts: seq<string>, sep: char): string
  {
    if parts == [] then []
    else if |parts| == 1 then parts[0]
    else parts[0] + [sep] + Join(parts[1..], sep)
  }

  /** Joining the pieces of a split with the same separator gives back the
      original text. */
  lemma {:induction false} JoinSplit(s: string, sep: char)
    ensures Join(Split(s, sep), sep) == s
    decreases |s|
  {
    var i := IndexOf(s, sep);
    if i < |s| {
      var rest := s[i + 1..];
      var tail := Split(rest, sep);
      assert Split(s, sep) == [s[..i]] + tail;
      JoinCons(s[..i], tail, sep);
      JoinSplit(rest, sep);
      assert Join(Split(s, sep), sep) == s[..i] + [sep] + rest;
      assert s == s[..i] + [sep] + rest;
    } else {
      assert Split(s, sep) == [s];
    }
  }

  /** Joining a piece in front of a non-empty sequence of pieces puts the
      separator between them. */
  lemma JoinCons(p: string, tail: seq<string>, sep: char)
    requires |tail| >= 1
    ensures Join([p] + tail, sep) == p + [sep] + Join(tail, sep)
  {
    assert ([p] + tail)[1..] == tail;
  }

  /** Splitting a join of separator-free pieces gives back the pieces. */
  lemma {:induction false} SplitJoin(parts: seq<string>, sep: char)
    requires |parts| >= 1
    requires forall k :: 0 <= k < |parts| ==> sep !in parts[k]
    ensures Split(Join(parts, sep), sep) == parts
  {
    var p := parts[0];
    if |parts| == 1 {
      IndexOfUnique(p, sep, |p|);
      assert Split(p, sep) == [p];
    } else {
      var rest := parts[1..];
      assert parts == [p] + rest;
      JoinCons(p, rest, sep);
      var j := Join(rest, sep);
      var s := p + [sep] + j;
      assert s[..|p|] == p && s[|p|] == sep;
      IndexOfUnique(s, sep, |p|);
      assert s[|p| + 1..] == j;
      SplitJoin(rest, sep);
      assert Split(s, sep) == [p] + Split(j, sep);
    }
  }

  /** ASCII lower-casing of one character; every other character is kept. */
  function Lower(c: char): char
  {
    if 'A' <= c <= 'Z' then (c as int - 'A' as int + 'a' as int) as char else c
  }

  /** Python's `s.lower()`, restricted to ASCII letters. */
  function LowerStr(s: string): string
  {
    seq(|s|, i requires 0 <= i < |s| => Lower(s[i]))
  }

  /** Case-insensitive equality, as `iexact` compares under an ASCII collation. */
  predicate EqualsIgnoreCase(a: string, b: string)
  {
    LowerStr(a) == LowerStr(b)
  }

  /** Two texts are equal up to case exactly when they have the same length
      and agree letter by letter once both letters are lower-cased. */
  lemma EqualsIgnoreCasePointwise(a: string, b: string)
    ensures EqualsIgnoreCase(a, b) <==>
      |a| == |b| && forall i :: 0 <= i < |a| ==> Lower(a[i]) == Lower(b[i])
  {
    if EqualsIgnoreCase(a, b) {
      assert |a| == |LowerStr(a)| == |LowerStr(b)| == |b|;
      forall i | 0 <= i < |a| ensures Lower(a[i]) == Lower(b[i]) {
        assert LowerStr(a)[i] == LowerStr(b)[i];
      }
    } else if |a| == |b| {
      assert LowerStr(a) != LowerStr(b);
    }
  }
}
