/**
  What the evening of the sibling pages comes to: the result is fixed by the cell sizes alone, a bulk load leaves the
  packing as it is, and otherwise every cut lies where the scales tip.
 */
module BalanceEven {

  import opened BalanceDistribute

  /** There is only one way to fill the pages from the left. */
  lemma {:induction false} GreedyAgrees(
      sz: seq<nat>, leafData: bool, usableSpace: int, cut: seq<int>, cut': seq<int>, n: nat)
    requires Greedy(sz, leafData, usableSpace, cut) && Greedy(sz, leafData, usableSpace, cut')
    requires n <= |cut| && n <= |cut'|
    ensures forall i :: 0 <= i < n ==> cut[i] == cut'[i]
  {
    hide Greedy;
    if n > 0 {
      GreedyAgrees(sz, leafData, usableSpace, cut, cut', n - 1);
      NotFurther(sz, leafData, usableSpace, cut, cut', n - 1);
      NotFurther(sz, leafData, usableSpace, cut', cut, n - 1);
    }
  }

  lemma NotFurther(sz: seq<nat>, leafData: bool, usableSpace: int, cut: seq<int>, cut': seq<int>, i: nat)
    requires Greedy(sz, leafData, usableSpace, cut) && Greedy(sz, leafData, usableSpace, cut')
    requires i < |cut| && i < |cut'| && (i > 0 ==> cut[i - 1] == cut'[i - 1])
    ensures cut'[i] <= cut[i]
  {
    assert Bytes(sz, leafData, cut', i) <= usableSpace;
    if cut[i] < cut'[i] {
      PrefixMonotone(sz, cut[i] + 1, cut'[i]);
    }
  }

  lemma GreedyIsUnique(sz: seq<nat>, leafData: bool, usableSpace: int, cut: seq<int>, cut': seq<int>)
    requires Greedy(sz, leafData, usableSpace, cut) && Greedy(sz, leafData, usableSpace, cut')
    ensures cut == cut'
  {
    var n := if |cut| < |cut'| then |cut| else |cut'|;
    GreedyAgrees(sz, leafData, usableSpace, cut, cut', n);
  }

  lemma EvenCutIsUnique(
      sz: seq<nat>, leafData: bool, bBulk: bool, a: int, was: int, b: int, last: bool, c: int, c': int)
    requires 0 <= a <= |sz| && 0 <= b <= |sz| && 0 <= was <= |sz|
    requires EvenCut(sz, leafData, bBulk, a, was, b, last, c) && EvenCut(sz, leafData, bBulk, a, was, b, last, c')
    ensures c == c'
  {
    hide MayStop;
  }

  lemma {:induction false} EvenedAgrees(
      sz: seq<nat>, leafData: bool, bBulk: bool, was: seq<int>, cnt: seq<int>, cnt': seq<int>, i: nat)
    requires EvenedOut(sz, leafData, bBulk, was, cnt, 0) && EvenedOut(sz, leafData, bBulk, was, cnt', 0) && i < |cnt|
    ensures cnt[i] == cnt'[i]
    decreases |cnt| - i
  {
    hide EvenCut;
    if i < |cnt| - 1 {
      EvenedAgrees(sz, leafData, bBulk, was, cnt, cnt', i + 1);
      var a := First(|sz|, leafData, was, i);
      assert EvenCut(sz, leafData, bBulk, a, was[i], cnt[i + 1], i + 1 == |cnt| - 1, cnt[i + 1 - 1]);
      assert EvenCut(sz, leafData, bBulk, a, was[i], cnt'[i + 1], i + 1 == |cnt'| - 1, cnt'[i + 1 - 1]);
      EvenCutIsUnique(sz, leafData, bBulk, a, was[i], cnt[i + 1], i + 1 == |cnt| - 1, cnt[i], cnt'[i]);
    }
  }

  /** The distribution is determined by the cells: what the siblings were like before does not matter. */
  lemma DistributionIsUnique(
      sz: seq<nat>, leafData: bool, bBulk: bool, usableSpace: int, was: seq<int>, cnt: seq<int>, was': seq<int>,
      cnt': seq<int>)
    requires Greedy(sz, leafData, usableSpace, was) && EvenedOut(sz, leafData, bBulk, was, cnt, 0)
    requires Greedy(sz, leafData, usableSpace, was') && EvenedOut(sz, leafData, bBulk, was', cnt', 0)
    ensures cnt == cnt'
  {
    hide Greedy;
    GreedyIsUnique(sz, leafData, usableSpace, was, was');
    forall i | 0 <= i < |cnt| ensures cnt[i] == cnt'[i] {
      EvenedAgrees(sz, leafData, bBulk, was, cnt, cnt', i);
    }
  }

  /** A smaller left page means a larger right page. */
  lemma Tips(sz: seq<nat>, leafData: bool, a: int, c: int, c': int, b: int, last: bool)
    requires 0 <= a <= |sz| && 0 <= b <= |sz| && 0 <= c <= c' <= |sz|
    requires LeftHeavy(sz, leafData, a, c, b, last)
    ensures LeftHeavy(sz, leafData, a, c', b, last)
  {
    PrefixMonotone(sz, c, c');
    PrefixMonotone(sz, After(|sz|, leafData, c), After(|sz|, leafData, c'));
  }

  /**
    Where a cut ends up, if siblings are evened.  Every cut further to the left makes the right page the larger one;
    and if any cell was moved, then the cut where it is does not, unless the right page would be empty otherwise.
   */
  lemma EvenCutTips(sz: seq<nat>, leafData: bool, a: int, was: int, b: int, last: bool, c: int, x: int)
    requires 0 <= a <= |sz| && 0 <= b <= |sz| && 0 <= was <= |sz| && 0 <= x <= |sz|
    requires EvenCut(sz, leafData, false, a, was, b, last, c)
    ensures x < c ==> !LeftHeavy(sz, leafData, a, x, b, last)
    ensures c < was ==> LeftHeavy(sz, leafData, a, c, b, last) || RightOf(sz, leafData, c + 1, b) == 0
  {
    if x < c {
      assert !LeftHeavy(sz, leafData, a, c - 1, b, last);
      if LeftHeavy(sz, leafData, a, x, b, last) { Tips(sz, leafData, a, x, c - 1, b, last); }
    }
    if c < was {
      assert !MayStop(sz, leafData, false, a, c + 1, b, last);
    }
  }

  /** A bulk load moves no cell to a page that has one, and a single cell to a page that has none. */
  lemma BulkCut(sz: seq<nat>, leafData: bool, a: int, was: int, b: int, last: bool, c: int)
    requires 0 <= a <= |sz| && 0 < was < b <= |sz|
    requires EvenCut(sz, leafData, true, a, was, b, last, c)
    ensures c == if RightOf(sz, leafData, was, b) == 0 then was - 1 else was
  {
    PrefixMonotone(sz, After(|sz|, leafData, was - 1), b);
    assert c < was - 1 ==> !MayStop(sz, leafData, true, a, was - 1, b, last);
    assert c < was ==> !MayStop(sz, leafData, true, a, was, b, last);
  }

  // ---- six equal cells on a page for five

  const SIX: seq<nat> := [98, 98, 98, 98, 98, 98]

  lemma {:induction false} SixPrefix(n: nat)
    requires n <= 6
    ensures Prefix(SIX, n) == 100 * n
  {
    if n > 0 { SixPrefix(n - 1); }
  }

  /** A leaf of a table is too full by one cell: it is split in the middle, in a bulk load behind the fifth. */
  lemma SixCells(bBulk: bool, was: seq<int>, cnt: seq<int>)
    requires Greedy(SIX, true, 504, was) && EvenedOut(SIX, true, bBulk, was, cnt, 0)
    ensures cnt == if bBulk then [5, 6] else [3, 6]
  {
    SixPrefix(5);
    SixPrefix(6);
    SixPrefix(0);
    assert InRange(6, [5, 6]);
    assert Greedy(SIX, true, 504, [5, 6]) by {
      assert Bytes(SIX, true, [5, 6], 0) == 500 && Bytes(SIX, true, [5, 6], 1) == 100;
    }
    GreedyIsUnique(SIX, true, 504, was, [5, 6]);
    assert EvenCut(SIX, true, bBulk, 0, 5, 6, true, cnt[1 - 1]) by { assert cnt[1] == 6; }
    SixCut(bBulk, cnt[0]);
  }

  lemma SixCut(bBulk: bool, c: int)
    requires EvenCut(SIX, true, bBulk, 0, 5, 6, true, c)
    ensures c == if bBulk then 5 else 3
  {
    forall n: nat | n <= 6 ensures Prefix(SIX, n) == 100 * n { SixPrefix(n); }
    hide Prefix;
    if bBulk {
      BulkCut(SIX, true, 0, 5, 6, true, c);
    } else {
      EvenCutTips(SIX, true, 0, 5, 6, true, c, 3);
      EvenCutTips(SIX, true, 0, 5, 6, true, c, 2);
    }
  }
}
