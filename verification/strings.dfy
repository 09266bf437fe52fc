/** Character search and slicing on strings, in the way Python's `str`
    methods behave for the one-character separators the filter uses. */
module Strings {

  /** Index of the first occurrence of `c` in `s`, or -1 when there is
      none (Python's `s.find(c)`). */
  function Find(s: string, c: char): (i: int)
    ensures -1 <= i < |s|
    ensures i == -1 <==> c !in s
    ensures 0 <= i ==> s[i] == c && c !in s[..i]
  {
    if |s| == 0 then -1
    else if s[0] == c then 0
    else
      var j := Find(s[1..], c);
      if j == -1 then -1
      else
        assert s[..j + 1] == [s[0]] + s[1..][..j];
        j + 1
  }

  /** Index of the last occurrence of `c` in `s`, or -1 when there is
      none (Python's `s.rfind(c)`). */
  function RFind(s: string, c: char): (i: int)
    ensures -1 <= i < |s|
    ensures i == -1 <==> c !in s
    ensures 0 <= i ==> s[i] == c && c !in s[i + 1..]
  {
    if |s| == 0 then -1
    else if s[|s| - 1] == c then |s| - 1
    else
      var init := s[..|s| - 1];
      var j := RFind(init, c);
      assert s == init + [s[|s| - 1]];
      if j == -1 then -1
      else
        assert s[j + 1..] == init[j + 1..] + [s[|s| - 1]];
        j
  }

  /** `s[s.find(c) + 1:]`: everything after the first `c`. When `c` does
      not occur, `find` yields -1, the slice starts at 0 and `s` comes back
      whole. */
  function DropThrough(s: string, c: char): (r: string)
    ensures c !in s ==> r == s
    ensures c in s ==> |r| < |s| && c !in s[..|s| - |r| - 1]
    ensures c in s ==> s == s[..|s| - |r| - 1] + [c] + r
  {
    var k := Find(s, c);
    assert c in s ==> s == s[..k] + [c] + s[k + 1..];
    s[k + 1..]
  }

  /** `Find` is pinned down by its contract: an index holding `c` with no
      `c` before it is the one it returns. */
  lemma FindAt(s: string, c: char, i: nat)
    requires i < |s| && s[i] == c && c !in s[..i]
    ensures Find(s, c) == i
  {
  }

  /** Likewise for `RFind`: an index holding `c` with no `c` after it. */
  lemma RFindAt(s: string, c: char, i: nat)
    requires i < |s| && s[i] == c && c !in s[i + 1..]
    ensures RFind(s, c) == i
  {
  }

  /** A string split at its first `c` comes apart into the same two pieces,
      whatever follows the separator. */
  lemma SplitAtFirst(p: string, c: char, rest: string)
    requires c !in p
    ensures Find(p + [c] + rest, c) == |p|
    ensures DropThrough(p + [c] + rest, c) == rest
  {
    var s := p + [c] + rest;
    assert s[..|p|] == p;
    FindAt(s, c, |p|);
    assert s[|p| + 1..] == rest;
  }

  /** A string split at its last `c`: the last `c` sits right after the
      first piece. */
  lemma SplitAtLast(p: string, c: char, rest: string)
    requires c !in rest
    ensures RFind(p + [c] + rest, c) == |p|
  {
    var s := p + [c] + rest;
    assert s[|p| + 1..] == rest;
    RFindAt(s, c, |p|);
  }

  /** Python's `s.endswith(suffix)`. */
  predicate EndsWith(s: string, suffix: string)
  {
    |suffix| <= |s| && s[|s| - |suffix|..] == suffix
  }

  /** Number of occurrences of `c` in `s`. */
  function Occurrences(s: string, c: char): nat
  {
    if |s| == 0 then 0
    else (if s[0] == c then 1 else 0) + Occurrences(s[1..], c)
  }

  lemma {:induction false} OccurrencesConcat(a: string, b: string, c: char)
    ensures Occurrences(a + b, c) == Occurrences(a, c) + Occurrences(b, c)
  {
    if |a| == 0 {
      assert a + b == b;
    } else {
      assert (a + b)[1..] == a[1..] + b;
      OccurrencesConcat(a[1..], b, c);
    }
  }

  lemma {:induction false} OccurrencesAbsent(s: string, c: char)
    requires c !in s
    ensures Occurrences(s, c) == 0
  {
    if |s| > 0 {
      OccurrencesAbsent(s[1..], c);
    }
  }

  lemma {:induction false} OccurrencesPresent(s: string, c: char)
    requires c in s
    ensures Occurrences(s, c) > 0
  {
    if s[0] != c {
      OccurrencesPresent(s[1..], c);
    }
  }

  /** Cutting through the first `c` removes exactly one `c` and keeps a
      suffix of the original. */
  lemma DropThroughOccurrences(s: string, c: char)
    requires c in s
    ensures Occurrences(DropThrough(s, c), c) == Occurrences(s, c) - 1
    ensures EndsWith(s, DropThrough(s, c))
  {
    var r := DropThrough(s, c);
    var p := s[..|s| - |r| - 1];
    OccurrencesConcat(p + [c], r, c);
    OccurrencesConcat(p, [c], c);
    OccurrencesAbsent(p, c);
    assert Occurrences([c], c) == 1 by {
      assert [c][1..] == [];
    }
  }

  /** Python's slice `s[:stop]` for any integer `stop`: a negative stop
      counts from the end, and the result is clamped to `s`. */
  function SliceTo(s: string, stop: int): (r: string)
    ensures |r| <= |s| && r == s[..|r|]
    ensures 0 <= stop ==> |r| == if stop < |s| then stop else |s|
    ensures stop < 0 ==> |r| == if |s| + stop < 0 then 0 else |s| + stop
  {
    if 0 <= stop then
      if stop < |s| then s[..stop] else s
    else if |s| + stop < 0 then ""
    else s[..|s| + stop]
  }
}
