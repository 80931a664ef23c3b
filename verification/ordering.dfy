/**
 * Ordering of the collected dates and truncation of the list: the `orderDates`
 * helper shared by both scheduler revisions (a `uasort` by timestamp) and the
 * `array_slice($dates, 0, $limit)` that follows it.
 */
module Ordering {

  /** Ascending by timestamp. */
  predicate Sorted(s: seq<int>) {
    forall i, j :: 0 <= i < j < |s| ==> s[i] <= s[j]
  }

  /** Every element of `s` is at least `lo`. */
  predicate AllAtLeast(lo: int, s: seq<int>) {
    forall k :: 0 <= k < |s| ==> lo <= s[k]
  }

  lemma SortedCons(h: int, t: seq<int>)
    requires Sorted(t) && AllAtLeast(h, t)
    ensures Sorted([h] + t)
  {

  }

  lemma AllAtLeastPerm(lo: int, s: seq<int>, t: seq<int>, x: int)
    requires lo <= x && AllAtLeast(lo, s)
    requires multiset(t) == multiset(s) + multiset{x}
    ensures AllAtLeast(lo, t)
  {
    forall k | 0 <= k < |t| ensures lo <= t[k] {
      assert t[k] in multiset(t);
      if t[k] != x {
        assert t[k] in multiset(s);
      }
    }
  }

  /** Puts `x` in front of the first element of `s` that is not below it. */
  function Insert(x: int, s: seq<int>): (r: seq<int>)
    ensures multiset(r) == multiset(s) + multiset{x}
  {
    if s == [] || x <= s[0] then [x] + s
    else
      assert s == [s[0]] + s[1..];
      [s[0]] + Insert(x, s[1..])
  }

  lemma {:induction false} InsertSorted(x: int, s: seq<int>)
    requires Sorted(s)
    ensures Sorted(Insert(x, s))
  {
    if s == [] || x <= s[0] {
      SortedCons(x, s);
    } else {
      InsertSorted(x, s[1..]);
      AllAtLeastPerm(s[0], s[1..], Insert(x, s[1..]), x);
      SortedCons(s[0], Insert(x, s[1..]));
    }
  }

  /**
   * The ascending rearrangement of `s`. Because equal timestamps are equal
   * integers, it is the only sorted permutation (SortedUnique), so it is what
   * any comparison sort by timestamp produces, whatever it does with ties.
   */
  function SortAsc(s: seq<int>): (r: seq<int>)
    ensures Sorted(r)
    ensures multiset(r) == multiset(s)
  {
    if s == [] then []
    else
      assert s == [s[0]] + s[1..];
      InsertSorted(s[0], SortAsc(s[1..]));
      Insert(s[0], SortAsc(s[1..]))
  }

  /** The head of a non-empty ascending sequence is its least element. */
  lemma HeadIsLeast(s: seq<int>, y: int)
    requires Sorted(s) && y in multiset(s)
    ensures s[0] <= y
  {

  }

  lemma TailFacts(s: seq<int>)
    requires s != []
    ensures multiset(s[1..]) == multiset(s) - multiset{s[0]}
    ensures Sorted(s) ==> Sorted(s[1..])
  {
    assert s == [s[0]] + s[1..];
  }

  /** Two ascending sequences holding the same timestamps are the same sequence. */
  lemma {:induction false} SortedUnique(s: seq<int>, t: seq<int>)
    requires Sorted(s) && Sorted(t)
    requires multiset(s) == multiset(t)
    ensures s == t
  {
    assert |s| == |multiset(s)| == |multiset(t)| == |t|;
    if s != [] {
      assert t[0] in multiset(t) && s[0] in multiset(s);
      HeadIsLeast(s, t[0]);
      HeadIsLeast(t, s[0]);
      var h := s[0];
      assert t[0] == h;
      TailFacts(s);
      TailFacts(t);
      assert multiset(s[1..]) == multiset(t[1..]);
      SortedUnique(s[1..], t[1..]);
    }
  }

  /**
   * `array_slice($s, 0, $length)`: a non-negative length keeps at most that many
   * leading elements; a negative length drops that many trailing elements.
   */
  function Slice(s: seq<int>, length: int): (r: seq<int>)
    ensures r <= s
    ensures length >= 0 ==> |r| == if length < |s| then length else |s|
    ensures length < 0 ==> |r| == if |s| + length > 0 then |s| + length else 0
  {
    if length >= 0 then
      if length < |s| then s[..length] else s
    else if |s| + length > 0 then s[..|s| + length]
    else []
  }

  /** A prefix of an ascending sequence is ascending. */
  lemma SortedPrefix(s: seq<int>, r: seq<int>)
    requires Sorted(s) && r <= s
    ensures Sorted(r)
  {

  }

  /** In an ascending sequence, everything in the prefix is at most everything after it. */
  lemma PrefixBelowRest(s: seq<int>, r: seq<int>, x: int, y: int)
    requires Sorted(s) && r <= s
    requires x in r && y in s[|r|..]
    ensures x <= y
  {

  }

  /**
   * What the sort-then-slice step returns: an ascending list, no longer than a
   * non-negative limit, drawn from the candidates, and no candidate left out is
   * earlier than one kept.
   */
  lemma {:induction false} EarliestFirst(c: seq<int>, length: int)
    ensures var r := Slice(SortAsc(c), length);
      && Sorted(r)
      && (length >= 0 ==> |r| == if length < |c| then length else |c|)
      && multiset(r) <= multiset(c)
      && forall x, y :: x in r && y in multiset(c) - multiset(r) ==> x <= y
  {
    var s := SortAsc(c);
    var r := Slice(s, length);
    assert |s| == |multiset(s)| == |c|;
    SortedPrefix(s, r);
    var rest := s[|r|..];
    assert s == r + rest;
    assert multiset(c) == multiset(r) + multiset(rest);
    forall x, y | x in r && y in multiset(c) - multiset(r)
      ensures x <= y
    {
      assert y in multiset(rest);
      PrefixBelowRest(s, r, x, y);
    }
  }

  /** With limit 1: nothing for no candidates, otherwise the earliest one. */
  lemma EarliestSingle(c: seq<int>)
    ensures var r := Slice(SortAsc(c), 1);
      && (c == [] <==> r == [])
      && (c != [] ==> |r| == 1 && r[0] in c && forall y :: y in c ==> r[0] <= y)
  {
    var s := SortAsc(c);
    assert |s| == |multiset(s)| == |c|;
    if c != [] {
      assert s[0] in multiset(c);
      forall y | y in c
        ensures s[0] <= y
      {
        assert y in multiset(s);
        HeadIsLeast(s, y);
      }
    }
  }

  /**
   * `orderDates`: sorts the collected dates in place, ascending by timestamp
   * (an insertion sort standing in for the library's `uasort`).
   */
  method OrderDates(a: array<int>)
    modifies a
    ensures Sorted(a[..])
    ensures multiset(a[..]) == multiset(old(a[..]))
    ensures a[..] == SortAsc(old(a[..]))
  {
    var i := 0;
    while i < a.Length
      invariant 0 <= i <= a.Length
      invariant Sorted(a[..i])
      invariant multiset(a[..]) == multiset(old(a[..]))
    {
      SinkLast(a, i);
      i := i + 1;
    }
    assert a[..a.Length] == a[..];
    SortedUnique(a[..], SortAsc(old(a[..])));
  }

  /**
   * The state of one insertion step: the first `i + 1` elements are in order
   * except that the element travelling left sits at `j`.
   */
  predicate SinkingAt(s: seq<int>, j: int, i: int)
    requires 0 <= j <= i < |s|
  {
    && (forall p, q :: 0 <= p < q <= i && q != j ==> s[p] <= s[q])
    && (0 < j < i ==> s[j - 1] <= s[j + 1])
  }

  /** Swapping the travelling element with a larger left neighbour keeps the state. */
  lemma SwapLeft(s: seq<int>, j: int, i: int)
    requires 0 < j <= i < |s| && SinkingAt(s, j, i) && s[j - 1] > s[j]
    ensures SinkingAt(s[j - 1 := s[j]][j := s[j - 1]], j - 1, i)
    ensures multiset(s[j - 1 := s[j]][j := s[j - 1]]) == multiset(s)
  {
    var t := s[j - 1 := s[j]][j := s[j - 1]];
    forall p, q | 0 <= p < q <= i && q != j - 1
      ensures t[p] <= t[q]
    {
      if q == j {
        assert t[q] == s[j - 1];
        if p < j - 1 { assert s[p] <= s[j - 1]; }
      } else if p == j - 1 {
        assert t[p] == s[j];
        assert s[j] < s[j - 1] <= s[q];
      } else if p == j {
        assert t[p] == s[j - 1] && t[q] == s[q];
      } else {
        assert t[p] == s[p] && t[q] == s[q];
      }
    }
    if j - 1 > 0 {
      assert t[j - 2] == s[j - 2] && t[j] == s[j - 1];
    }
  }

  /** Moves `a[i]` left past every larger element, extending the sorted prefix by one. */
  method SinkLast(a: array<int>, i: int)
    requires 0 <= i < a.Length && Sorted(a[..i])
    modifies a
    ensures Sorted(a[..i + 1])
    ensures multiset(a[..]) == multiset(old(a[..]))
  {
    var j := i;
    assert SinkingAt(a[..], j, i);
    while j > 0 && a[j - 1] > a[j]
      invariant 0 <= j <= i
      invariant SinkingAt(a[..], j, i)
      invariant multiset(a[..]) == multiset(old(a[..]))
    {
      SwapLeft(a[..], j, i);
      a[j - 1], a[j] := a[j], a[j - 1];
      j := j - 1;
    }
    forall p, q | 0 <= p < q <= i
      ensures a[p] <= a[q]
    {
      if q == j && 0 < j {
        assert p == j - 1 || a[p] <= a[j - 1];
      }
    }
  }
}
