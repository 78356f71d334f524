/** Sorting column names the way `list.sort` does (line 226 of the simulator): an in-place
    sort of an array of strings, a functional reference sort, and the fact that the order a
    sorted permutation takes is unique, so the output column order is determined. */
module Sorting {
  import opened Text

  predicate Sorted(s: seq<string>)
  {
    forall i, j :: 0 <= i < j < |s| ==> LessEq(s[i], s[j])
  }

  /** Insert `x` before the first element it is not greater than. */
  function Insert(x: string, s: seq<string>): (r: seq<string>)
    ensures multiset(r) == multiset(s) + multiset{x}
  {
    if |s| == 0 then [x]
    else if LessEq(x, s[0]) then [x] + s
    else
      assert s == [s[0]] + s[1..];
      [s[0]] + Insert(x, s[1..])
  }

  lemma {:induction false} InsertSorted(x: string, s: seq<string>)
    requires Sorted(s)
    ensures Sorted(Insert(x, s))
  {
    if |s| == 0 {
    } else if LessEq(x, s[0]) {
      forall j | 0 < j < |s| ensures LessEq(x, s[j]) { LessEqTransitive(x, s[0], s[j]); }
    } else {
      InsertSorted(x, s[1..]);
      LessEqTotal(x, s[0]);
      var t := Insert(x, s[1..]);
      assert s == [s[0]] + s[1..];
      forall k | 0 <= k < |t| ensures LessEq(s[0], t[k]) {
        assert t[k] in multiset(t);
      }
    }
  }

  /** Reference definition of the sorted order: insertion sort as a function. */
  function SortedCopy(s: seq<string>): (r: seq<string>)
    ensures Sorted(r)
    ensures multiset(r) == multiset(s)
  {
    if |s| == 0 then []
    else
      assert s == [s[0]] + s[1..];
      InsertSorted(s[0], SortedCopy(s[1..]));
      Insert(s[0], SortedCopy(s[1..]))
  }

  /** Two sorted arrangements of the same names are the same sequence. */
  lemma {:induction false} SortedUnique(a: seq<string>, b: seq<string>)
    requires Sorted(a) && Sorted(b)
    requires multiset(a) == multiset(b)
    ensures a == b
  {
    if |a| == 0 {
      assert |b| == |multiset(b)| == 0;
    } else {
      SortedHeadsEqual(a, b);
      TailsSameMultiset(a, b);
      SortedUnique(a[1..], b[1..]);
      assert a == [a[0]] + a[1..];
      assert b == [b[0]] + b[1..];
    }
  }

  /** Two sorted arrangements of the same names start with the same name. */
  lemma SortedHeadsEqual(a: seq<string>, b: seq<string>)
    requires Sorted(a) && Sorted(b)
    requires multiset(a) == multiset(b) && |a| > 0
    ensures |b| > 0 && a[0] == b[0]
  {
    assert |b| == |multiset(b)| == |a|;
    assert a[0] in multiset(b);
    var k :| 0 <= k < |b| && b[k] == a[0];
    assert b[0] in multiset(a);
    var h :| 0 <= h < |a| && a[h] == b[0];
    LessEqTotal(a[0], a[0]);
    assert LessEq(b[0], a[0]) by { if k > 0 { assert LessEq(b[0], b[k]); } }
    assert LessEq(a[0], b[0]) by { if h > 0 { assert LessEq(a[0], a[h]); } }
    LessEqAntisymmetric(a[0], b[0]);
  }

  /** Removing the same first name from two arrangements of the same names leaves arrangements
      of the same names. */
  lemma TailsSameMultiset(a: seq<string>, b: seq<string>)
    requires |a| > 0 && |b| > 0 && a[0] == b[0]
    requires multiset(a) == multiset(b)
    ensures multiset(a[1..]) == multiset(b[1..])
  {
    assert a == [a[0]] + a[1..];
    assert b == [b[0]] + b[1..];
    assert multiset(a) == multiset{a[0]} + multiset(a[1..]);
    assert multiset(b) == multiset{b[0]} + multiset(b[1..]);
    assert multiset(a[1..]) == multiset(a) - multiset{a[0]};
    assert multiset(b[1..]) == multiset(b) - multiset{b[0]};
  }

  /** `outfeats.sort()`: insertion sort in place. */
  method SortInPlace(a: array<string>)
    modifies a
    ensures Sorted(a[..])
    ensures multiset(a[..]) == old(multiset(a[..]))
  {
    var i := 0;
    while i < a.Length
      invariant 0 <= i <= a.Length
      invariant forall p, q :: 0 <= p < q < i ==> LessEq(a[p], a[q])
      invariant multiset(a[..]) == old(multiset(a[..]))
    {
      InsertAt(a, i);
      i := i + 1;
    }
  }

  /** One pass of the insertion sort: swap `a[i]` leftwards, past every greater name, into the
      sorted prefix `a[..i]`, so that `a[..i + 1]` is sorted. Only the prefix is rearranged. */
  method InsertAt(a: array<string>, i: nat)
    requires i < a.Length
    requires forall p, q :: 0 <= p < q < i ==> LessEq(a[p], a[q])
    modifies a
    ensures forall p, q :: 0 <= p < q <= i ==> LessEq(a[p], a[q])
    ensures multiset(a[..]) == old(multiset(a[..]))
    ensures a[i + 1..] == old(a[i + 1..])
    ensures multiset(a[..i + 1]) == old(multiset(a[..i + 1]))
  {
    ghost var a0 := a[..];
    var j := i;
    while j > 0 && !LessEq(a[j - 1], a[j])
      invariant 0 <= j <= i
      invariant forall p, q :: 0 <= p < q <= i && q != j ==> LessEq(a[p], a[q])
      invariant forall q :: j < q <= i ==> LessEq(a[j], a[q])
      invariant Rearranged(a[..], a0, i)
    {
      ghost var b := a[..];
      SwapDown(a, i, j);
      SwapKeepsSuffix(a0, b, a[..], i, j);
      j := j - 1;
    }
    GapClosed(a[..], i, j);
    SamePrefixMultiset(a[..], a0, i + 1);
  }

  /** `s` holds the names of `t`, with `t[i + 1..]` left in place. */
  predicate Rearranged(s: seq<string>, t: seq<string>, i: nat)
  {
    i < |s| == |t| && multiset(s) == multiset(t) && s[i + 1..] == t[i + 1..]
  }

  /** One step of `InsertAt`: `a[j]` is smaller than `a[j - 1]`, so the two change places and
      the gap in the sorted run `a[..i + 1]` moves one place to the left. */
  method SwapDown(a: array<string>, i: nat, j: nat)
    requires 0 < j <= i < a.Length && !LessEq(a[j - 1], a[j])
    requires forall p, q :: 0 <= p < q <= i && q != j ==> LessEq(a[p], a[q])
    requires forall q :: j < q <= i ==> LessEq(a[j], a[q])
    modifies a
    ensures forall p, q :: 0 <= p < q <= i && q != j - 1 ==> LessEq(a[p], a[q])
    ensures forall q :: j - 1 < q <= i ==> LessEq(a[j - 1], a[q])
    ensures a[..] == old(a[..])[j - 1 := old(a[j])][j := old(a[j - 1])]
  {
    LessEqTotal(a[j - 1], a[j]);
    a[j - 1], a[j] := a[j], a[j - 1];
  }

  /** When the moved name is no smaller than its left neighbour (or has none), the whole run
      `s[..i + 1]` is sorted. */
  lemma GapClosed(s: seq<string>, i: nat, j: nat)
    requires j <= i < |s|
    requires forall p, q :: 0 <= p < q <= i && q != j ==> LessEq(s[p], s[q])
    requires forall q :: j < q <= i ==> LessEq(s[j], s[q])
    requires j > 0 ==> LessEq(s[j - 1], s[j])
    ensures forall p, q :: 0 <= p < q <= i ==> LessEq(s[p], s[q])
  {
    if j > 0 {
      forall p | 0 <= p < j - 1 ensures LessEq(s[p], s[j]) {
        LessEqTransitive(s[p], s[j - 1], s[j]);
      }
    }
  }

  /** Swapping two neighbours below `i` keeps the names counted with multiplicity and leaves
      everything after `i` in place. */
  lemma SwapKeepsSuffix(t: seq<string>, b: seq<string>, c: seq<string>, i: nat, j: nat)
    requires 0 < j <= i && Rearranged(b, t, i) && c == b[j - 1 := b[j]][j := b[j - 1]]
    ensures Rearranged(c, t, i)
  {
    assert multiset(c) == multiset(b);
    assert c[i + 1..] == b[i + 1..];
  }

  /** Two permutations of each other that agree from `k` on have the same first `k` names,
      counted with multiplicity. */
  lemma SamePrefixMultiset(s: seq<string>, t: seq<string>, k: nat)
    requires k <= |s| == |t| && multiset(s) == multiset(t) && s[k..] == t[k..]
    ensures multiset(s[..k]) == multiset(t[..k])
  {
    assert s == s[..k] + s[k..];
    assert t == t[..k] + t[k..];
    assert multiset(s[..k]) == multiset(s) - multiset(s[k..]);
    assert multiset(t[..k]) == multiset(t) - multiset(t[k..]);
  }
}
