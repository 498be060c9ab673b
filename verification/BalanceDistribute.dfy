/**
  The cell distribution of balance_nonroot: the cells of up to NB sibling pages, with the
  divider cells between them, are laid out again over at most NB+2 pages.

  Cell j of the combined list is described by its size alone; on a page it takes that size
  plus a 2-byte cell pointer.  Two loops over the arrays cntNew and szNew first pack the
  cells to the left and then move cells rightwards until the pages are in balance.
 */
module BalanceDistribute {

  import opened Basics

  const NB := 3               // sibling pages that take part in one balance
  const MAX_PAGES := NB + 2   // length of the arrays cntNew and szNew

  datatype Rc = Ok | Corrupt

  /** One page that takes part: its free bytes, the sizes of its overflow cells, and the
      index in the combined cell list of the first cell to its right. */
  datatype Sibling = Sibling(nFree: int, ovfl: seq<nat>, cntOld: nat)

  /** Bytes taken on a page by the first n cells of the list, cell pointers included. */
  function Prefix(sz: seq<nat>, n: nat): nat
    requires n <= |sz|
  {
    if n == 0 then 0 else Prefix(sz, n - 1) + 2 + sz[n - 1]
  }

  lemma {:induction false} PrefixMonotone(sz: seq<nat>, i: nat, j: nat)
    requires i <= j <= |sz|
    ensures Prefix(sz, i) + 2 * (j - i) <= Prefix(sz, j)
    decreases j
  {
    if i < j { PrefixMonotone(sz, i, j - 1); }
  }

  /** Bytes taken by the overflow cells of a page. */
  function OverflowBytes(ovfl: seq<nat>): nat {
    if ovfl == [] then 0 else OverflowBytes(ovfl[..|ovfl| - 1]) + 2 + ovfl[|ovfl| - 1]
  }

  /** The first cell to the right of a page that ends at cnt.  Unless the siblings are leaves of
      a table, cell cnt itself goes to the parent as a divider. */
  function After(nCell: nat, leafData: bool, cnt: int): int {
    if leafData then cnt else Min(cnt + 1, nCell)
  }

  /** First cell of page i. */
  function First(nCell: nat, leafData: bool, cnt: seq<int>, i: nat): int
    requires i <= |cnt|
  {
    if i == 0 then 0 else After(nCell, leafData, cnt[i - 1])
  }

  ghost predicate InRange(nCell: nat, cnt: seq<int>) {
    forall i :: 0 <= i < |cnt| ==> 0 <= cnt[i] <= nCell
  }

  /** Byte sum of the cells of page i as a difference of prefix sums; negative while page i-1
      has been pushed past the end of page i. */
  function Bytes(sz: seq<nat>, leafData: bool, cnt: seq<int>, i: nat): int
    requires i < |cnt| && 0 <= cnt[i] <= |sz| && (i > 0 ==> 0 <= cnt[i - 1] <= |sz|)
  {
    Prefix(sz, cnt[i]) - Prefix(sz, First(|sz|, leafData, cnt, i))
  }

  ghost predicate Exact(sz: seq<nat>, leafData: bool, cnt: seq<int>, size: seq<int>) {
    && |cnt| <= |size| && InRange(|sz|, cnt)
    && forall i {:trigger Bytes(sz, leafData, cnt, i)} :: 0 <= i < |cnt| ==> size[i] == Bytes(sz, leafData, cnt, i)
  }

  /** What the finished distribution has to be: cells in order, no page empty, no page too full. */
  ghost predicate Balanced(sz: seq<nat>, leafData: bool, usableSpace: int, cnt: seq<int>, size: seq<int>) {
    && 1 <= |cnt| == |size| <= MAX_PAGES
    && Exact(sz, leafData, cnt, size)
    && cnt[|cnt| - 1] == |sz|
    && (forall i, j :: 0 <= i < j < |cnt| ==> cnt[i] < cnt[j])
    && (forall i :: 0 <= i < |cnt| ==> size[i] <= usableSpace)
    && (|sz| > 0 ==> forall i :: 0 <= i < |cnt| ==> 0 <= First(|sz|, leafData, cnt, i) < cnt[i] && 0 < size[i])
  }

  /** A way to lay the cells out, in order, over at most MAX_PAGES pages. */
  ghost predicate Layout(sz: seq<nat>, leafData: bool, usableSpace: int, cut: seq<int>) {
    && 1 <= |cut| <= MAX_PAGES
    && InRange(|sz|, cut)
    && cut[|cut| - 1] == |sz|
    && forall i :: 0 <= i < |cut| ==> Bytes(sz, leafData, cut, i) <= usableSpace
  }

  /** The pages as they are found: every byte of a page is either free or taken by a cell. */
  ghost predicate Accounted(sz: seq<nat>, leafData: bool, usableSpace: int, sibs: seq<Sibling>) {
    && InRange(|sz|, Cuts(sibs))
    && |sibs| > 0 && sibs[|sibs| - 1].cntOld == |sz|
    && forall i :: 0 <= i < |sibs| ==>
         usableSpace - sibs[i].nFree + OverflowBytes(sibs[i].ovfl) == Bytes(sz, leafData, Cuts(sibs), i)
  }

  function Cuts(sibs: seq<Sibling>): seq<int> { seq(|sibs|, i requires 0 <= i < |sibs| => sibs[i].cntOld as int) }

  ghost predicate Fits(sz: seq<nat>, usableSpace: int) {
    forall c :: 0 <= c < |sz| ==> 2 + sz[c] <= usableSpace
  }

  /** No cell takes more than half of a page; true of every index page and interior page. */
  ghost predicate SmallCells(sz: seq<nat>, usableSpace: int) {
    forall c :: 0 <= c < |sz| ==> 2 * (2 + sz[c]) <= usableSpace
  }

  /** State of the packing loop: the pages before i are closed. */
  ghost predicate Packed(sz: seq<nat>, leafData: bool, usableSpace: int, cnt: seq<int>, size: seq<int>, i: nat) {
    && 1 <= |cnt| <= MAX_PAGES && i <= |cnt|
    && Exact(sz, leafData, cnt, size)
    && cnt[|cnt| - 1] == |sz|
    && (forall j :: 0 <= j < i ==> size[j] <= usableSpace)
    && (forall j, j' :: 0 <= j < j' < i ==> cnt[j] < cnt[j'])
    && (i > 0 && |sz| > 0 ==> cnt[0] > 0)
    && (forall j :: 0 <= j < i && j < |cnt| - 1 ==> cnt[j] < |sz|)
    && (forall j {:trigger size[j]} :: 0 <= j < i && j < |cnt| - 1 ==> size[j] + 2 + sz[cnt[j]] > usableSpace)
  }

  /** A page of another layout that starts no later and ends later holds one cell more. */
  lemma LongerPage(sz: seq<nat>, leafData: bool, cnt: seq<int>, size: seq<int>, cut: seq<int>, j: nat)
    requires Exact(sz, leafData, cnt, size) && InRange(|sz|, cut)
    requires j < |cnt| && j < |cut| && (j > 0 ==> cut[j - 1] <= cnt[j - 1])
    requires cnt[j] < cut[j]
    ensures Bytes(sz, leafData, cut, j) >= size[j] + 2 + sz[cnt[j]]
  {
    PrefixMonotone(sz, First(|sz|, leafData, cut, j), First(|sz|, leafData, cnt, j));
    PrefixMonotone(sz, cnt[j] + 1, cut[j]);
    assert size[j] == Bytes(sz, leafData, cnt, j);
  }

  /** The packing is greedy, so it gets at least as far as any other layout. */
  lemma {:induction false} GreedyDominates(
      sz: seq<nat>, leafData: bool, usableSpace: int, cnt: seq<int>, size: seq<int>, i: nat, cut: seq<int>, j: nat)
    requires Packed(sz, leafData, usableSpace, cnt, size, i)
    requires Layout(sz, leafData, usableSpace, cut)
    requires j < i && j < |cnt| - 1 && j < |cut|
    ensures cut[j] <= cnt[j]
  {
    if j > 0 { GreedyDominates(sz, leafData, usableSpace, cnt, size, i, cut, j - 1); }
    if cnt[j] < cut[j] { LongerPage(sz, leafData, cnt, size, cut, j); }
  }

  /** With all MAX_PAGES pages in use, the last page of the packing is no fuller than the last
      page of any other layout. */
  lemma GreedyLastPage(sz: seq<nat>, leafData: bool, usableSpace: int, cnt: seq<int>, size: seq<int>, cut: seq<int>)
    requires Packed(sz, leafData, usableSpace, cnt, size, MAX_PAGES - 1) && |cnt| == MAX_PAGES
    requires Layout(sz, leafData, usableSpace, cut)
    ensures size[MAX_PAGES - 1] <= usableSpace
  {
    var last := |cut| - 1;
    GreedyDominates(sz, leafData, usableSpace, cnt, size, MAX_PAGES - 1, cut, Min(last, MAX_PAGES - 2));
    if last == MAX_PAGES - 1 {
      PrefixMonotone(sz, First(|sz|, leafData, cut, last), First(|sz|, leafData, cnt, last));
      assert Bytes(sz, leafData, cut, last) <= usableSpace;
      assert size[last] == Bytes(sz, leafData, cnt, last);
    }
  }

  lemma NoLayout(sz: seq<nat>, leafData: bool, usableSpace: int, cnt: seq<int>, size: seq<int>, cut: seq<int>)
    requires Packed(sz, leafData, usableSpace, cnt, size, MAX_PAGES - 1) && |cnt| == MAX_PAGES
    requires size[MAX_PAGES - 1] > usableSpace
    ensures !Layout(sz, leafData, usableSpace, cut)
  {
    if Layout(sz, leafData, usableSpace, cut) { GreedyLastPage(sz, leafData, usableSpace, cnt, size, cut); }
  }

  /** A page whose byte sum is positive holds a cell. */
  lemma PositiveMeansCells(sz: seq<nat>, i: nat, j: nat)
    requires i <= |sz| && j <= |sz|
    requires Prefix(sz, i) < Prefix(sz, j)
    ensures i < j
  {
    if j <= i { PrefixMonotone(sz, j, i); }
  }

  /** Moving the right end of page i, and the bytes with it, keeps all byte sums exact. */
  lemma MoveEnd(sz: seq<nat>, leafData: bool, cnt: seq<int>, size: seq<int>, cnt': seq<int>, size': seq<int>, i: nat,
                c: int)
    requires Exact(sz, leafData, cnt, size)
    requires i < |cnt| && 0 <= c <= |sz| && cnt' == cnt[i := c] && |size'| == |size|
    requires forall j :: 0 <= j < |cnt| && j != i && j != i + 1 ==> size'[j] == size[j]
    requires size'[i] == size[i] + Prefix(sz, c) - Prefix(sz, cnt[i])
    requires i + 1 < |cnt| ==>
      size'[i + 1] == size[i + 1] + Prefix(sz, After(|sz|, leafData, cnt[i])) - Prefix(sz, After(|sz|, leafData, c))
    ensures Exact(sz, leafData, cnt', size')
  {
    forall j | 0 <= j < |cnt'| ensures size'[j] == Bytes(sz, leafData, cnt', j) {
      assert size[j] == Bytes(sz, leafData, cnt, j);
    }
  }

  /** One cell leaves page i for page i+1; the cell before it becomes the divider, if there is one. */
  lemma ShedStep(sz: seq<nat>, leafData: bool, usableSpace: int, cnt: seq<int>, size: seq<int>, i: nat)
    requires Packed(sz, leafData, usableSpace, cnt, size, i) && i + 1 < |cnt| && |size| == |cnt|
    requires 0 <= usableSpace < size[i]
    ensures 0 < cnt[i] <= |sz|
    ensures var c := cnt[i];
      var moved := if leafData then 2 + sz[c - 1] else if c < |sz| then 2 + sz[c] else 0;
      Packed(sz, leafData, usableSpace, cnt[i := c - 1],
             size[i := size[i] - 2 - sz[c - 1]][i + 1 := size[i + 1] + moved], i)
  {
    assert size[i] == Bytes(sz, leafData, cnt, i);
    PositiveMeansCells(sz, First(|sz|, leafData, cnt, i), cnt[i]);
    var c := cnt[i];
    var moved := if leafData then 2 + sz[c - 1] else if c < |sz| then 2 + sz[c] else 0;
    MoveEnd(sz, leafData, cnt, size, cnt[i := c - 1],
            size[i := size[i] - 2 - sz[c - 1]][i + 1 := size[i + 1] + moved], i, c - 1);
  }

  /** One cell joins page i from the right. */
  lemma PullStep(sz: seq<nat>, leafData: bool, usableSpace: int, cnt: seq<int>, size: seq<int>, i: nat)
    requires Packed(sz, leafData, usableSpace, cnt, size, i) && i < |cnt| && |size| == |cnt|
    requires cnt[i] < |sz|
    ensures 0 <= cnt[i] && i + 1 < |cnt|
    ensures var c := cnt[i];
      var moved := if leafData then 2 + sz[c] else if c + 1 < |sz| then 2 + sz[c + 1] else 0;
      Packed(sz, leafData, usableSpace, cnt[i := c + 1],
             size[i := size[i] + 2 + sz[c]][i + 1 := size[i + 1] - moved], i)
  {
    var c := cnt[i];
    var moved := if leafData then 2 + sz[c] else if c + 1 < |sz| then 2 + sz[c + 1] else 0;
    MoveEnd(sz, leafData, cnt, size, cnt[i := c + 1],
            size[i := size[i] + 2 + sz[c]][i + 1 := size[i + 1] - moved], i, c + 1);
  }

  lemma AddPage(
      sz: seq<nat>, leafData: bool, usableSpace: int, cnt: seq<int>, size: seq<int>, cnt': seq<int>,
      size': seq<int>, i: nat)
    requires Packed(sz, leafData, usableSpace, cnt, size, i)
    requires |cnt| == |size| == i + 1 < MAX_PAGES
    requires cnt' == cnt + [|sz|] && size' == size + [0]
    ensures Packed(sz, leafData, usableSpace, cnt', size', i)
  {
    forall j | 0 <= j < |cnt'| ensures size'[j] == Bytes(sz, leafData, cnt', j) {
      if j <= i { assert size[j] == Bytes(sz, leafData, cnt, j); }
    }
  }

  lemma EndsInList(sz: seq<nat>, leafData: bool, usableSpace: int, cnt: seq<int>, size: seq<int>, i: nat)
    requires Packed(sz, leafData, usableSpace, cnt, size, i) && i < |cnt|
    ensures 0 <= cnt[i] <= |sz|
  {
  }

  /** First inner loop of the packing: shed cells of page i to the right until it fits. */
  method ShedCells(sz: seq<nat>, leafData: bool, usableSpace: int, cntNew: array<int>, szNew: array<int>, i: nat,
                   k0: nat)
    returns (rc: Rc, k: nat)
    requires cntNew.Length == szNew.Length == MAX_PAGES && cntNew != szNew
    requires i < k0 <= MAX_PAGES && 0 <= usableSpace
    requires Packed(sz, leafData, usableSpace, cntNew[..k0], szNew[..k0], i)
    modifies cntNew, szNew
    ensures rc.Ok? ==> i < k && k0 <= k <= MAX_PAGES && 0 <= cntNew[i] <= |sz| && szNew[i] <= usableSpace
    ensures rc.Ok? ==> Packed(sz, leafData, usableSpace, cntNew[..k], szNew[..k], i)
    ensures rc.Corrupt? ==> forall cut :: !Layout(sz, leafData, usableSpace, cut)
  {
    hide Packed, Layout;
    k := k0;
    ghost var cnt, size := cntNew[..k], szNew[..k];
    while szNew[i] > usableSpace
      invariant i < k && k0 <= k <= MAX_PAGES
      invariant cntNew[..k] == cnt && szNew[..k] == size
      invariant Packed(sz, leafData, usableSpace, cnt, size, i)
      decreases if szNew[i] > usableSpace then cntNew[i] else -1
    {
      assert size[i] == szNew[i] && cnt[i] == cntNew[i];
      if i + 1 >= k {
        if i + 2 > MAX_PAGES {
          forall cut ensures !Layout(sz, leafData, usableSpace, cut) {
            NoLayout(sz, leafData, usableSpace, cnt, size, cut);
          }
          return Corrupt, k;
        }
        k := i + 2;
        szNew[k - 1] := 0;
        cntNew[k - 1] := |sz|;
        AddPage(sz, leafData, usableSpace, cnt, size, cnt + [|sz|], size + [0], i);
        cnt, size := cnt + [|sz|], size + [0];
      }
      ShedStep(sz, leafData, usableSpace, cnt, size, i);
      var s := 2 + sz[cntNew[i] - 1];
      szNew[i] := szNew[i] - s;
      if !leafData {
        s := if cntNew[i] < |sz| then 2 + sz[cntNew[i]] else 0;
      }
      szNew[i + 1] := szNew[i + 1] + s;
      cntNew[i] := cntNew[i] - 1;
      cnt, size := cnt[i := cnt[i] - 1], size[i := szNew[i]][i + 1 := szNew[i + 1]];
    }
    EndsInList(sz, leafData, usableSpace, cnt, size, i);
    return Ok, k;
  }

  /** Second inner loop of the packing: pull cells from the right while they fit. */
  method PullCells(sz: seq<nat>, leafData: bool, usableSpace: int, cntNew: array<int>, szNew: array<int>, i: nat,
                   k: nat)
    requires cntNew.Length == szNew.Length == MAX_PAGES && cntNew != szNew
    requires i < k <= MAX_PAGES && Fits(sz, usableSpace)
    requires Packed(sz, leafData, usableSpace, cntNew[..k], szNew[..k], i)
    requires 0 <= cntNew[i] <= |sz| && szNew[i] <= usableSpace
    modifies cntNew, szNew
    ensures Packed(sz, leafData, usableSpace, cntNew[..k], szNew[..k], i)
    ensures 0 <= cntNew[i] <= |sz| && szNew[i] <= usableSpace
    ensures cntNew[i] < |sz| ==> szNew[i] + 2 + sz[cntNew[i]] > usableSpace
  {
    hide Packed;
    ghost var cnt, size := cntNew[..k], szNew[..k];
    while cntNew[i] < |sz|
      invariant cntNew[..k] == cnt && szNew[..k] == size
      invariant Packed(sz, leafData, usableSpace, cnt, size, i)
      invariant 0 <= cntNew[i] <= |sz| && szNew[i] <= usableSpace
      decreases |sz| - cntNew[i]
    {
      assert size[i] == szNew[i] && cnt[i] == cntNew[i];
      PullStep(sz, leafData, usableSpace, cnt, size, i);
      var s := 2 + sz[cntNew[i]];
      if szNew[i] + s > usableSpace { break; }
      szNew[i] := szNew[i] + s;
      cntNew[i] := cntNew[i] + 1;
      if !leafData {
        s := if cntNew[i] < |sz| then 2 + sz[cntNew[i]] else 0;
      }
      szNew[i + 1] := szNew[i + 1] - s;
      cnt, size := cnt[i := cnt[i] + 1], size[i := szNew[i]][i + 1 := szNew[i + 1]];
    }
  }

  /** A page that was filled as far as possible ends to the right of the page before it, so the
      packing may close it; if no cell is left, it becomes the last page. */
  lemma ClosePage(sz: seq<nat>, leafData: bool, usableSpace: int, cnt: seq<int>, size: seq<int>, i: nat)
    requires Packed(sz, leafData, usableSpace, cnt, size, i) && Fits(sz, usableSpace) && i < |cnt| == |size|
    requires size[i] <= usableSpace
    requires 0 <= cnt[i] < |sz| ==> size[i] + 2 + sz[cnt[i]] > usableSpace
    ensures cnt[i] < |sz| ==> (if i > 0 then cnt[i - 1] else 0) < cnt[i] && i + 1 < |cnt|
    ensures if cnt[i] < |sz| then Packed(sz, leafData, usableSpace, cnt, size, i + 1)
            else Packed(sz, leafData, usableSpace, cnt[..i + 1], size[..i + 1], i + 1)
  {
    assert size[i] == Bytes(sz, leafData, cnt, i);
    if cnt[i] < |sz| {
      PositiveMeansCells(sz, First(|sz|, leafData, cnt, i), cnt[i]);
    } else {
      KeepPages(sz, leafData, usableSpace, cnt, size, i);
    }
  }

  lemma KeepPages(sz: seq<nat>, leafData: bool, usableSpace: int, cnt: seq<int>, size: seq<int>, i: nat)
    requires Packed(sz, leafData, usableSpace, cnt, size, i) && i < |cnt| == |size|
    requires cnt[i] == |sz| && size[i] <= usableSpace
    ensures Packed(sz, leafData, usableSpace, cnt[..i + 1], size[..i + 1], i + 1)
  {
    var cnt', size' := cnt[..i + 1], size[..i + 1];
    forall j | 0 <= j <= i ensures size'[j] == Bytes(sz, leafData, cnt', j) {
      assert size[j] == Bytes(sz, leafData, cnt, j);
    }
  }

  /** The packing loop: every page gets as many cells as fit, starting from the left. */
  method PackLeft(sz: seq<nat>, leafData: bool, usableSpace: int, cntNew: array<int>, szNew: array<int>, k0: nat)
    returns (rc: Rc, k: nat)
    requires cntNew.Length == szNew.Length == MAX_PAGES && cntNew != szNew
    requires 1 <= k0 <= MAX_PAGES && 0 <= usableSpace && Fits(sz, usableSpace)
    requires Packed(sz, leafData, usableSpace, cntNew[..k0], szNew[..k0], 0)
    modifies cntNew, szNew
    ensures rc.Ok? ==> 1 <= k <= MAX_PAGES && Packed(sz, leafData, usableSpace, cntNew[..k], szNew[..k], k)
    ensures rc.Corrupt? ==> forall cut :: !Layout(sz, leafData, usableSpace, cut)
  {
    hide Packed, Layout, Fits;
    k := k0;
    var i := 0;
    while i < k
      invariant 0 <= i <= k && 1 <= k <= MAX_PAGES
      invariant Packed(sz, leafData, usableSpace, cntNew[..k], szNew[..k], i)
      decreases MAX_PAGES - i
    {
      rc, k := ShedCells(sz, leafData, usableSpace, cntNew, szNew, i, k);
      if rc.Corrupt? { return; }
      PullCells(sz, leafData, usableSpace, cntNew, szNew, i, k);
      ghost var cnt, size := cntNew[..k], szNew[..k];
      assert cnt[i] == cntNew[i] && size[i] == szNew[i] && (i > 0 ==> cnt[i - 1] == cntNew[i - 1]);
      ClosePage(sz, leafData, usableSpace, cnt, size, i);
      if cntNew[i] >= |sz| {
        k := i + 1;
        assert cntNew[..k] == cnt[..k] && szNew[..k] == size[..k];
      } else if cntNew[i] <= (if i > 0 then cntNew[i - 1] else 0) {
        assert false;
        return Corrupt, k;
      }
      i := i + 1;
    }
    return Ok, k;
  }

  /** State of the balancing loop when page i is next: the pages after i are final, and pages end in
      order, except that page i-1 may meanwhile have lost all it had. */
  ghost predicate Moving(sz: seq<nat>, leafData: bool, usableSpace: int, cnt: seq<int>, size: seq<int>, i: nat) {
    && 0 < i < |cnt| == |size| <= MAX_PAGES
    && Exact(sz, leafData, cnt, size)
    && cnt[|cnt| - 1] == |sz|
    && (forall j, j' :: 0 <= j < j' < |cnt| && j' != i - 1 ==> cnt[j] < cnt[j'])
    && (i > 1 ==> cnt[0] > 0)
    && (forall j :: 0 <= j < |cnt| ==> size[j] <= usableSpace)
    && (forall j :: i < j < |cnt| ==> 0 < size[j])
  }

  ghost predicate Evening(sz: seq<nat>, leafData: bool, usableSpace: int, cnt: seq<int>, size: seq<int>, i: nat) {
    && 1 <= |cnt| == |size| <= MAX_PAGES && i < |cnt|
    && Exact(sz, leafData, cnt, size)
    && cnt[|cnt| - 1] == |sz|
    && (forall j, j' :: 0 <= j < j' < |cnt| ==> cnt[j] < cnt[j'])
    && (|sz| > 0 ==> cnt[0] > 0)
    && (forall j :: 0 <= j < |cnt| ==> size[j] <= usableSpace)
    && (forall j :: i < j < |cnt| ==> 0 < size[j])
  }

  /** The pages left of i are as the packing left them: the next cell did not fit.  With it comes the
      assumption under which balancing cannot empty a page. */
  ghost predicate Sound(sz: seq<nat>, leafData: bool, usableSpace: int, cnt: seq<int>, size: seq<int>, i: nat) {
    && i < |cnt| == |size|
    && Fits(sz, usableSpace) && (leafData || SmallCells(sz, usableSpace))
    && (forall j :: 0 <= j < i ==> 0 <= cnt[j] < |sz|)
    && (forall j {:trigger size[j]} :: 0 <= j < i ==> size[j] + 2 + sz[cnt[j]] > usableSpace)
    && (leafData ==> size[i] > 0)
  }

  // How far a cut is moved, in prefix sums.  A page to the left begins with cell a; the page to the right ends at b.

  function LeftOf(sz: seq<nat>, a: int, c: int): int
    requires 0 <= a <= |sz| && 0 <= c <= |sz|
  {
    Prefix(sz, c) - Prefix(sz, a)
  }

  function RightOf(sz: seq<nat>, leafData: bool, c: int, b: int): int
    requires 0 <= b <= |sz| && 0 <= c <= |sz|
  {
    Prefix(sz, b) - Prefix(sz, After(|sz|, leafData, c))
  }

  /** With the cut at c, the right page is no larger than the left one; the last page may be larger by 2. */
  predicate LeftHeavy(sz: seq<nat>, leafData: bool, a: int, c: int, b: int, last: bool)
    requires 0 <= a <= |sz| && 0 <= b <= |sz| && 0 <= c <= |sz|
  {
    RightOf(sz, leafData, c, b) <= LeftOf(sz, a, c) + if last then 2 else 0
  }

  /** The page to the right has cells, and one more from the left would make it the larger one. */
  predicate MayStop(sz: seq<nat>, leafData: bool, bBulk: bool, a: int, c: int, b: int, last: bool)
    requires 0 <= a <= |sz| && 0 <= b <= |sz| && 0 < c <= |sz|
  {
    RightOf(sz, leafData, c, b) != 0 && (bBulk || !LeftHeavy(sz, leafData, a, c - 1, b, last))
  }

  ghost predicate NoStop(
      sz: seq<nat>, leafData: bool, bBulk: bool, a: int, c: int, was: int, b: int, last: bool)
    requires 0 <= a <= |sz| && 0 <= b <= |sz| && 0 <= c && was <= |sz|
  {
    forall x :: c < x <= was ==> !MayStop(sz, leafData, bBulk, a, x, b, last)
  }

  /** Of the cuts up to the old one, c is the largest that may stay; 0 if there is none. */
  ghost predicate EvenCut(
      sz: seq<nat>, leafData: bool, bBulk: bool, a: int, was: int, b: int, last: bool, c: int)
    requires 0 <= a <= |sz| && 0 <= b <= |sz| && 0 <= was <= |sz|
  {
    && 0 <= c <= was
    && (c > 0 ==> MayStop(sz, leafData, bBulk, a, c, b, last))
    && NoStop(sz, leafData, bBulk, a, c, was, b, last)
  }

  /** One round of the evening replaces the (i-1)-th of the cuts by c. */
  ghost predicate EvenStep(sz: seq<nat>, leafData: bool, bBulk: bool, cnt: seq<int>, i: nat, c: int) {
    && 0 < i < |cnt| && InRange(|sz|, cnt)
    && EvenCut(sz, leafData, bBulk, First(|sz|, leafData, cnt, i - 1), cnt[i - 1], cnt[i], i == |cnt| - 1, c)
  }

  /** The cuts of the packing, every page filled from the left as far as possible. */
  ghost predicate Greedy(sz: seq<nat>, leafData: bool, usableSpace: int, was: seq<int>) {
    && 1 <= |was| && InRange(|sz|, was) && was[|was| - 1] == |sz|
    && (forall i :: 0 <= i < |was| ==> Bytes(sz, leafData, was, i) <= usableSpace)
    && forall i {:trigger was[i]} :: 0 <= i < |was| - 1 ==>
         was[i] < |sz| && Bytes(sz, leafData, was, i) + 2 + sz[was[i]] > usableSpace
  }

  /** The cuts from `from` on, but for the last, are as the evening leaves them, coming from the right. */
  ghost predicate EvenedOut(sz: seq<nat>, leafData: bool, bBulk: bool, was: seq<int>, cnt: seq<int>, from: nat) {
    && from < |cnt| == |was| && InRange(|sz|, cnt) && InRange(|sz|, was)
    && cnt[..from] == was[..from] && cnt[|cnt| - 1] == was[|was| - 1]
    && forall i {:trigger cnt[i]} :: from < i < |cnt| ==>
         EvenCut(sz, leafData, bBulk, First(|sz|, leafData, was, i - 1), was[i - 1], cnt[i], i == |cnt| - 1, cnt[i - 1])
  }

  lemma PackedIsGreedy(
      sz: seq<nat>, leafData: bool, usableSpace: int, bBulk: bool, cnt: seq<int>, size: seq<int>)
    requires Packed(sz, leafData, usableSpace, cnt, size, |cnt|)
    ensures Greedy(sz, leafData, usableSpace, cnt) && EvenedOut(sz, leafData, bBulk, cnt, cnt, |cnt| - 1)
  {
    forall i | 0 <= i < |cnt| ensures size[i] == Bytes(sz, leafData, cnt, i) {
    }
  }

  /** The cut was moved to c because it could not stop earlier. */
  ghost predicate Unstopped(sz: seq<nat>, leafData: bool, bBulk: bool, was: seq<int>, i: nat, c: int) {
    && 0 < i < |was| && InRange(|sz|, was) && 0 <= c <= was[i - 1]
    && NoStop(sz, leafData, bBulk, First(|sz|, leafData, was, i - 1), c, was[i - 1], was[i], i == |was| - 1)
  }

  lemma NoStopYet(
      sz: seq<nat>, leafData: bool, usableSpace: int, bBulk: bool, was: seq<int>, size: seq<int>, i: nat)
    requires Moving(sz, leafData, usableSpace, was, size, i)
    ensures Unstopped(sz, leafData, bBulk, was, i, was[i - 1])
  {
  }

  /** What the test of the inner loop compares, and what follows from either answer. */
  lemma StopIs(
      sz: seq<nat>, leafData: bool, usableSpace: int, bBulk: bool, was: seq<int>, cnt: seq<int>, size: seq<int>, i: nat,
      r: nat, d: nat)
    requires Moving(sz, leafData, usableSpace, cnt, size, i) && |was| == |cnt| && cnt == was[i - 1 := r + 1]
    requires d == r + 1 - (if leafData then 1 else 0) && Unstopped(sz, leafData, bBulk, was, i, r + 1)
    ensures d < |sz| && r < |sz|
    ensures
      if size[i] != 0 && (bBulk || size[i] + sz[d] + 2 > size[i - 1] - (sz[r] + if i == |cnt| - 1 then 0 else 2))
      then EvenStep(sz, leafData, bBulk, was, i, r + 1)
      else Unstopped(sz, leafData, bBulk, was, i, r) && (r == 0 ==> EvenStep(sz, leafData, bBulk, was, i, r))
  {
    MovingBounds(sz, leafData, usableSpace, cnt, size, i);
    assert size[i] == Bytes(sz, leafData, cnt, i);
    assert size[i - 1] == Bytes(sz, leafData, cnt, i - 1);
    var a, last := First(|sz|, leafData, was, i - 1), i == |was| - 1;
    assert cnt[i] == was[i] && First(|sz|, leafData, cnt, i - 1) == a;
    assert MayStop(sz, leafData, bBulk, a, r + 1, was[i], last) <==>
      size[i] != 0 && (bBulk || size[i] + sz[d] + 2 > size[i - 1] - (sz[r] + if last then 0 else 2));
    hide MayStop;
  }

  lemma MovingBounds(sz: seq<nat>, leafData: bool, usableSpace: int, cnt: seq<int>, size: seq<int>, i: nat)
    requires Moving(sz, leafData, usableSpace, cnt, size, i)
    ensures 0 <= cnt[i - 1] < cnt[i] <= |sz|
    ensures size[i] >= 0
    ensures size[i] > 0 ==> First(|sz|, leafData, cnt, i) < cnt[i]
    ensures size[i - 1] > 0 ==> (if i > 1 then cnt[i - 2] else 0) < cnt[i - 1]
  {
    assert size[i] == Bytes(sz, leafData, cnt, i);
    assert size[i - 1] == Bytes(sz, leafData, cnt, i - 1);
    PrefixMonotone(sz, First(|sz|, leafData, cnt, i), cnt[i]);
    if size[i - 1] > 0 { PositiveMeansCells(sz, First(|sz|, leafData, cnt, i - 1), cnt[i - 1]); }
  }

  /** One cell goes from page i-1 to page i. */
  lemma MovingStep(
      sz: seq<nat>, leafData: bool, usableSpace: int, cnt: seq<int>, size: seq<int>, i: nat, r: nat, d: nat)
    requires Moving(sz, leafData, usableSpace, cnt, size, i) && Fits(sz, usableSpace)
    requires r == cnt[i - 1] - 1 && d == r + 1 - (if leafData then 1 else 0) && d < |sz|
    requires size[i] == 0 || size[i] + sz[d] + 2 <= size[i - 1]
    ensures Moving(sz, leafData, usableSpace, cnt[i - 1 := r],
                   size[i := size[i] + sz[d] + 2][i - 1 := size[i - 1] - sz[r] - 2], i)
  {
    MoveEnd(sz, leafData, cnt, size, cnt[i - 1 := r],
            size[i := size[i] + sz[d] + 2][i - 1 := size[i - 1] - sz[r] - 2], i - 1, r);
  }

  lemma MovingDone(sz: seq<nat>, leafData: bool, usableSpace: int, cnt: seq<int>, size: seq<int>, i: nat)
    requires Moving(sz, leafData, usableSpace, cnt, size, i)
    requires size[i] != 0 && (if i > 1 then cnt[i - 2] else 0) < cnt[i - 1]
    ensures Evening(sz, leafData, usableSpace, cnt, size, i - 1)
  {
    MovingBounds(sz, leafData, usableSpace, cnt, size, i);
  }

  lemma EveningStarts(sz: seq<nat>, leafData: bool, usableSpace: int, cnt: seq<int>, size: seq<int>, i: nat)
    requires Evening(sz, leafData, usableSpace, cnt, size, i) && 0 < i
    ensures Moving(sz, leafData, usableSpace, cnt, size, i) && 0 < cnt[i - 1] && 0 < |sz|
  {
  }

  /** What a sound page i-1 has to give. */
  lemma SoundPageHasCells(sz: seq<nat>, leafData: bool, usableSpace: int, cnt: seq<int>, size: seq<int>, i: nat)
    requires Sound(sz, leafData, usableSpace, cnt, size, i) && 0 < i
    ensures size[i - 1] > 0 && (leafData || SmallCells(sz, usableSpace))
    ensures size[i] == 0 ==> !leafData && 2 * size[i - 1] > usableSpace
  {
    assert size[i - 1] + 2 + sz[cnt[i - 1]] > usableSpace;
  }

  lemma SoundGoesOn(
      sz: seq<nat>, leafData: bool, usableSpace: int, cnt: seq<int>, size: seq<int>, cnt': seq<int>,
      size': seq<int>, i: nat)
    requires Sound(sz, leafData, usableSpace, cnt, size, i) && 0 < i
    requires |cnt'| == |cnt| == |size'| && cnt'[..i - 1] == cnt[..i - 1] && size'[..i - 1] == size[..i - 1]
    requires size'[i - 1] > 0
    ensures Sound(sz, leafData, usableSpace, cnt', size', i - 1)
  {
    forall j | 0 <= j < i - 1 ensures size'[j] == size[j] && cnt'[j] == cnt[j] {
      assert size'[j] == size'[..i - 1][j] && cnt'[j] == cnt'[..i - 1][j];
    }
  }

  /** A sound page gives a cell and still keeps one. */
  lemma SoundStep(
      sz: seq<nat>, leafData: bool, usableSpace: int, szRight: int, szLeft: int, r: nat, d: nat, slack: int)
    requires r < |sz| && d < |sz| && 0 <= szRight && 0 <= slack && 0 < szLeft
    requires leafData || SmallCells(sz, usableSpace)
    requires szRight == 0 ==> !leafData && 2 * szLeft > usableSpace
    requires szRight == 0 || szRight + sz[d] + 2 <= szLeft - sz[r] - slack
    ensures szLeft - sz[r] - 2 > 0
  {
  }

  /**
    Inner loop of the balancing: page i takes cells from page i-1 until it has some and one more would make it the
    larger page; in a bulk load only until it has some.
   */
  method TakeCells(
      sz: seq<nat>, leafData: bool, bBulk: bool, ghost usableSpace: int, cntNew: array<int>, i: nat, k: nat,
      right: int, left: int, ghost size: seq<int>, ghost sound: bool)
    returns (szRight: int, szLeft: int)
    requires 0 < i < k <= MAX_PAGES && cntNew.Length == MAX_PAGES && Fits(sz, usableSpace)
    requires Moving(sz, leafData, usableSpace, cntNew[..k], size, i) && 0 < cntNew[i - 1]
    requires |size| == k && size[i] == right && size[i - 1] == left
    requires sound ==> left > 0 && (leafData || SmallCells(sz, usableSpace))
    requires sound && right == 0 ==> !leafData && 2 * left > usableSpace
    modifies cntNew
    ensures cntNew[..k] == old(cntNew[..k])[i - 1 := cntNew[i - 1]]
    ensures Moving(sz, leafData, usableSpace, cntNew[..k], size[i := szRight][i - 1 := szLeft], i)
    ensures szRight != 0 || cntNew[i - 1] == 0
    ensures EvenStep(sz, leafData, bBulk, old(cntNew[..k]), i, cntNew[i - 1])
    ensures sound ==> szLeft > 0
  {
    hide Moving, Fits, SmallCells, EvenStep, Unstopped;
    ghost var was := cntNew[..k];
    NoStopYet(sz, leafData, usableSpace, bBulk, was, size, i);
    szRight, szLeft := right, left;
    var r := cntNew[i - 1] - 1;
    var d := r + 1 - (if leafData then 1 else 0);
    ghost var cnt, now := cntNew[..k], size;
    while true
      invariant 0 <= r == cntNew[i - 1] - 1 && d == r + 1 - (if leafData then 1 else 0)
      invariant cntNew[..k] == cnt == old(cntNew[..k])[i - 1 := r + 1]
      invariant now == size[i := szRight][i - 1 := szLeft]
      invariant Moving(sz, leafData, usableSpace, cnt, now, i)
      invariant Unstopped(sz, leafData, bBulk, was, i, r + 1)
      invariant sound ==> szLeft > 0 && (szRight == 0 ==> !leafData && 2 * szLeft > usableSpace)
      decreases r
    {
      MovingBounds(sz, leafData, usableSpace, cnt, now, i);
      StopIs(sz, leafData, usableSpace, bBulk, was, cnt, now, i, r, d);
      if szRight != 0 && (bBulk || szRight + sz[d] + 2 > szLeft - (sz[r] + if i == k - 1 then 0 else 2)) {
        break;
      }
      MovingStep(sz, leafData, usableSpace, cnt, now, i, r, d);
      if sound { SoundStep(sz, leafData, usableSpace, szRight, szLeft, r, d, if i == k - 1 then 0 else 2); }
      szRight := szRight + sz[d] + 2;
      szLeft := szLeft - (sz[r] + 2);
      cntNew[i - 1] := r;
      cnt, now := cnt[i - 1 := r], now[i := szRight][i - 1 := szLeft];
      assert now == size[i := szRight][i - 1 := szLeft];
      r := r - 1;
      d := d - 1;
      if r < 0 { break; }
    }
  }

  /** One round of the balancing. */
  method EvenPage(
      sz: seq<nat>, leafData: bool, bBulk: bool, ghost usableSpace: int, cntNew: array<int>, szNew: array<int>,
      i: nat, k: nat)
    returns (rc: Rc)
    requires cntNew.Length == szNew.Length == MAX_PAGES && cntNew != szNew
    requires 0 < i < k <= MAX_PAGES && Fits(sz, usableSpace)
    requires Evening(sz, leafData, usableSpace, cntNew[..k], szNew[..k], i)
    modifies cntNew, szNew
    ensures rc.Ok? ==> Evening(sz, leafData, usableSpace, cntNew[..k], szNew[..k], i - 1)
    ensures cntNew[..k] == old(cntNew[..k])[i - 1 := cntNew[i - 1]]
    ensures EvenStep(sz, leafData, bBulk, old(cntNew[..k]), i, cntNew[i - 1])
    ensures 0 < |sz|
    ensures old(Sound(sz, leafData, usableSpace, cntNew[..k], szNew[..k], i)) ==>
      rc.Ok? && Sound(sz, leafData, usableSpace, cntNew[..k], szNew[..k], i - 1)
  {
    hide Moving, Evening, Fits, Sound, SmallCells, EvenStep;
    ghost var cnt, size := cntNew[..k], szNew[..k];
    ghost var sound := Sound(sz, leafData, usableSpace, cnt, size, i);
    EveningStarts(sz, leafData, usableSpace, cnt, size, i);
    if sound { SoundPageHasCells(sz, leafData, usableSpace, cnt, size, i); }
    assert size[i] == szNew[i] && size[i - 1] == szNew[i - 1];
    var szRight, szLeft :=
      TakeCells(sz, leafData, bBulk, usableSpace, cntNew, i, k, szNew[i], szNew[i - 1], size, sound);
    szNew[i] := szRight;
    szNew[i - 1] := szLeft;
    ghost var cnt', size' := cntNew[..k], szNew[..k];
    assert size' == size[i := szRight][i - 1 := szLeft];
    MovingBounds(sz, leafData, usableSpace, cnt', size', i);
    if cntNew[i - 1] <= (if i > 1 then cntNew[i - 2] else 0) {
      return Corrupt;
    }
    MovingDone(sz, leafData, usableSpace, cnt', size', i);
    if sound { SoundGoesOn(sz, leafData, usableSpace, cnt, size, cnt', size', i); }
    return Ok;
  }

  lemma PackedIsEvening(sz: seq<nat>, leafData: bool, usableSpace: int, cnt: seq<int>, size: seq<int>)
    requires Packed(sz, leafData, usableSpace, cnt, size, |cnt|) && |cnt| == |size|
    ensures Evening(sz, leafData, usableSpace, cnt, size, |cnt| - 1)
    ensures Fits(sz, usableSpace) && (leafData || SmallCells(sz, usableSpace)) && |sz| > 0 ==>
      Sound(sz, leafData, usableSpace, cnt, size, |cnt| - 1)
  {
    var last := |cnt| - 1;
    assert size[last] == Bytes(sz, leafData, cnt, last);
    if leafData && |sz| > 0 {
      PrefixMonotone(sz, First(|sz|, leafData, cnt, last), cnt[last]);
    }
  }

  lemma EveningEnds(sz: seq<nat>, leafData: bool, usableSpace: int, cnt: seq<int>, size: seq<int>)
    requires Evening(sz, leafData, usableSpace, cnt, size, 0)
    ensures Balanced(sz, leafData, usableSpace, cnt, size)
  {
    if |sz| > 0 {
      forall i | 0 <= i < |cnt| ensures 0 <= First(|sz|, leafData, cnt, i) < cnt[i] && 0 < size[i] {
        assert size[i] == Bytes(sz, leafData, cnt, i);
        if i == 0 {
          PrefixMonotone(sz, 0, cnt[0]);
        } else {
          PositiveMeansCells(sz, First(|sz|, leafData, cnt, i), cnt[i]);
        }
      }
    }
  }

  lemma AccountedStarts(sz: seq<nat>, sibs: seq<Sibling>, leafData: bool, usableSpace: int, cnt: seq<int>,
                        size: seq<int>)
    requires |sibs| <= NB && Accounted(sz, leafData, usableSpace, sibs)
    requires |cnt| == |size| == |sibs|
    requires forall j :: 0 <= j < |sibs| ==> cnt[j] == sibs[j].cntOld
    requires forall j :: 0 <= j < |sibs| ==> size[j] == usableSpace - sibs[j].nFree + OverflowBytes(sibs[j].ovfl)
    ensures Packed(sz, leafData, usableSpace, cnt, size, 0)
  {
    assert cnt == Cuts(sibs);
  }

  /** The sizes of the pages as they are: bytes not free, and bytes of overflow cells. */
  method LoadPages(sz: seq<nat>, sibs: seq<Sibling>, leafData: bool, usableSpace: int, cntNew: array<int>,
                   szNew: array<int>)
    requires 1 <= |sibs| <= NB && Accounted(sz, leafData, usableSpace, sibs)
    requires cntNew.Length == szNew.Length == MAX_PAGES && cntNew != szNew
    modifies cntNew, szNew
    ensures Packed(sz, leafData, usableSpace, cntNew[..|sibs|], szNew[..|sibs|], 0)
  {
    hide Accounted, Packed;
    for i := 0 to |sibs|
      invariant forall j :: 0 <= j < i ==> cntNew[j] == sibs[j].cntOld
      invariant forall j :: 0 <= j < i ==> szNew[j] == usableSpace - sibs[j].nFree + OverflowBytes(sibs[j].ovfl)
    {
      szNew[i] := usableSpace - sibs[i].nFree;
      ghost var before := szNew[..i];
      for j := 0 to |sibs[i].ovfl|
        modifies szNew
        invariant forall j' :: 0 <= j' < i ==> szNew[j'] == before[j']
        invariant szNew[i] == usableSpace - sibs[i].nFree + OverflowBytes(sibs[i].ovfl[..j])
      {
        assert sibs[i].ovfl[..j + 1][..j] == sibs[i].ovfl[..j];
        szNew[i] := szNew[i] + 2 + sibs[i].ovfl[j];
      }
      assert sibs[i].ovfl[..|sibs[i].ovfl|] == sibs[i].ovfl;
      cntNew[i] := sibs[i].cntOld;
    }
    AccountedStarts(sz, sibs, leafData, usableSpace, cntNew[..|sibs|], szNew[..|sibs|]);
  }

  lemma OneEvenedOut(
      sz: seq<nat>, leafData: bool, bBulk: bool, was: seq<int>, cnt: seq<int>, cnt': seq<int>, i: nat)
    requires 0 < i < |cnt| == |cnt'| && cnt' == cnt[i - 1 := cnt'[i - 1]]
    requires EvenedOut(sz, leafData, bBulk, was, cnt, i) && EvenStep(sz, leafData, bBulk, cnt, i, cnt'[i - 1])
    ensures EvenedOut(sz, leafData, bBulk, was, cnt', i - 1)
  {
    assert cnt[i - 1] == was[..i][i - 1];
    if i > 1 { assert cnt[i - 2] == was[..i][i - 2]; }
    assert First(|sz|, leafData, cnt, i - 1) == First(|sz|, leafData, was, i - 1);
    assert EvenCut(sz, leafData, bBulk, First(|sz|, leafData, was, i - 1), was[i - 1], cnt'[i], i == |cnt| - 1,
                   cnt'[i - 1]);
    forall j | i - 1 < j < |cnt'|
      ensures EvenCut(sz, leafData, bBulk, First(|sz|, leafData, was, j - 1), was[j - 1], cnt'[j], j == |cnt'| - 1,
                      cnt'[j - 1])
    {
      if j > i { assert cnt'[j] == cnt[j] && cnt'[j - 1] == cnt[j - 1]; }
    }
  }

  /** The whole distribution. */
  method Distribute(sz: seq<nat>, sibs: seq<Sibling>, leafData: bool, bBulk: bool, usableSpace: int)
    returns (rc: Rc, cnt: seq<int>, size: seq<int>, ghost was: seq<int>)
    requires 1 <= |sibs| <= NB && 0 <= usableSpace && Accounted(sz, leafData, usableSpace, sibs)
    requires Fits(sz, usableSpace)
    ensures rc.Ok? ==> Balanced(sz, leafData, usableSpace, cnt, size)
    ensures rc.Ok? ==> Greedy(sz, leafData, usableSpace, was) && EvenedOut(sz, leafData, bBulk, was, cnt, 0)
    ensures (leafData || SmallCells(sz, usableSpace)) && (exists cut :: Layout(sz, leafData, usableSpace, cut)) ==>
      rc.Ok?
  {
    hide Accounted, Evening, Sound, SmallCells, Fits, Layout, Balanced, Greedy, EvenedOut, EvenStep;
    var cntNew, szNew := new int[MAX_PAGES], new int[MAX_PAGES];
    LoadPages(sz, sibs, leafData, usableSpace, cntNew, szNew);
    var k;
    was := [];
    rc, k := PackLeft(sz, leafData, usableSpace, cntNew, szNew, |sibs|);
    if rc.Corrupt? { return Corrupt, [], [], was; }
    was := cntNew[..k];
    PackedIsEvening(sz, leafData, usableSpace, cntNew[..k], szNew[..k]);
    PackedIsGreedy(sz, leafData, usableSpace, bBulk, cntNew[..k], szNew[..k]);
    var i := k - 1;
    while i > 0
      invariant 0 <= i < k
      invariant Evening(sz, leafData, usableSpace, cntNew[..k], szNew[..k], i)
      invariant EvenedOut(sz, leafData, bBulk, was, cntNew[..k], i)
      invariant leafData || SmallCells(sz, usableSpace) ==> |sz| > 0 ==>
        Sound(sz, leafData, usableSpace, cntNew[..k], szNew[..k], i)
    {
      ghost var cnt0 := cntNew[..k];
      rc := EvenPage(sz, leafData, bBulk, usableSpace, cntNew, szNew, i, k);
      OneEvenedOut(sz, leafData, bBulk, was, cnt0, cntNew[..k], i);
      if rc.Corrupt? { return Corrupt, [], [], was; }
      i := i - 1;
    }
    EveningEnds(sz, leafData, usableSpace, cntNew[..k], szNew[..k]);
    return Ok, cntNew[..k], szNew[..k], was;
  }

  predicate OnPage(nCell: nat, leafData: bool, cnt: seq<int>, i: nat, c: nat)
    requires i < |cnt|
  {
    First(nCell, leafData, cnt, i) <= c < cnt[i]
  }

  /** Cell c lies between two pages and goes to the parent. */
  predicate IsDivider(leafData: bool, cnt: seq<int>, c: nat) {
    !leafData && exists i :: 0 <= i < |cnt| - 1 && cnt[i] == c
  }

  /** Every cell ends up on exactly one page, or else is exactly one divider. */
  lemma EveryCellPlacedOnce(sz: seq<nat>, leafData: bool, usableSpace: int, cnt: seq<int>, size: seq<int>, c: nat)
    requires Balanced(sz, leafData, usableSpace, cnt, size) && c < |sz|
    ensures IsDivider(leafData, cnt, c) <==> !exists i: nat :: i < |cnt| && OnPage(|sz|, leafData, cnt, i, c)
    ensures forall i: nat, j: nat :: i < j < |cnt| ==>
      !(OnPage(|sz|, leafData, cnt, i, c) && OnPage(|sz|, leafData, cnt, j, c))
    ensures forall i, j :: 0 <= i < j < |cnt| - 1 ==> cnt[i] != cnt[j]
  {
    var i := PageToTheRight(cnt, c, 0);
    assert OnPage(|sz|, leafData, cnt, i, c) || (i > 0 && cnt[i - 1] == c && !leafData);
    forall i: nat, j: nat | i < j < |cnt| && OnPage(|sz|, leafData, cnt, i, c)
      ensures !OnPage(|sz|, leafData, cnt, j, c)
    {
      assert i == j - 1 || cnt[i] < cnt[j - 1];
    }
  }

  /** The first page that ends after cell c. */
  lemma {:induction false} PageToTheRight(cnt: seq<int>, c: nat, from: nat) returns (i: nat)
    requires from < |cnt| && c < cnt[|cnt| - 1]
    requires forall i, j :: 0 <= i < j < |cnt| ==> cnt[i] < cnt[j]
    requires from > 0 ==> cnt[from - 1] <= c
    ensures i < |cnt| && c < cnt[i] && (i > 0 ==> cnt[i - 1] <= c)
    decreases |cnt| - from
  {
    if c < cnt[from] { i := from; } else { i := PageToTheRight(cnt, c, from + 1); }
  }

  /** What Distribute returns is itself a layout, so it succeeds on table leaves exactly when some layout exists. */
  lemma BalancedIsLayout(sz: seq<nat>, leafData: bool, usableSpace: int, cnt: seq<int>, size: seq<int>)
    requires Balanced(sz, leafData, usableSpace, cnt, size)
    ensures Layout(sz, leafData, usableSpace, cnt)
  {
    forall i | 0 <= i < |cnt| ensures Bytes(sz, leafData, cnt, i) <= usableSpace {
      assert size[i] == Bytes(sz, leafData, cnt, i);
    }
  }

  /** The cuts with page p split at cell q: into three pages, or into two and a divider. */
  function SplitAt(leafData: bool, cut: seq<int>, p: nat, q: nat): (r: seq<int>)
    requires p <= |cut|
    ensures |r| == |cut| + if leafData then 2 else 1
  {
    cut[..p] + (if leafData then [q, q + 1] else [q]) + cut[p..]
  }

  lemma PagesBeside(sz: seq<nat>, leafData: bool, cut: seq<int>, p: nat, q: nat, i: nat)
    requires InRange(|sz|, cut) && p < |cut| && i < |SplitAt(leafData, cut, p, q)|
    requires InRange(|sz|, SplitAt(leafData, cut, p, q))
    ensures var r, m := SplitAt(leafData, cut, p, q), if leafData then 2 else 1;
      && (i < p ==> Bytes(sz, leafData, r, i) == Bytes(sz, leafData, cut, i))
      && (i > p + m ==> Bytes(sz, leafData, r, i) == Bytes(sz, leafData, cut, i - m))
  {
  }

  lemma PagesWithin(sz: seq<nat>, leafData: bool, usableSpace: int, cut: seq<int>, p: nat, q: nat, i: nat)
    requires InRange(|sz|, cut) && p < |cut| && InRange(|sz|, SplitAt(leafData, cut, p, q))
    requires First(|sz|, leafData, cut, p) <= q < cut[p]
    requires Bytes(sz, leafData, cut, p) - 2 - sz[q] <= usableSpace && 2 + sz[q] <= usableSpace
    requires p <= i <= p + if leafData then 2 else 1
    ensures Bytes(sz, leafData, SplitAt(leafData, cut, p, q), i) <= usableSpace
  {
    var a := First(|sz|, leafData, cut, p);
    PrefixMonotone(sz, a, q);
    PrefixMonotone(sz, q + 1, cut[p]);
    assert First(|sz|, leafData, SplitAt(leafData, cut, p, q), p) == a;
  }

  /** Old pages of which only page p is too full, by one cell q on it, can always be laid out again. */
  lemma LayoutWithOneOverflow(sz: seq<nat>, leafData: bool, usableSpace: int, cut: seq<int>, p: nat, q: nat)
    returns (cut': seq<int>)
    requires 1 <= |cut| <= NB && InRange(|sz|, cut) && cut[|cut| - 1] == |sz|
    requires forall i :: 0 <= i < |cut| && i != p ==> Bytes(sz, leafData, cut, i) <= usableSpace
    requires p < |cut| && First(|sz|, leafData, cut, p) <= q < cut[p]
    requires Bytes(sz, leafData, cut, p) - 2 - sz[q] <= usableSpace && 2 + sz[q] <= usableSpace
    ensures Layout(sz, leafData, usableSpace, cut')
  {
    hide Bytes, First;
    cut' := SplitAt(leafData, cut, p, q);
    forall i | 0 <= i < |cut'| ensures Bytes(sz, leafData, cut', i) <= usableSpace {
      PagesBeside(sz, leafData, cut, p, q, i);
      if p <= i <= p + if leafData then 2 else 1 {
        PagesWithin(sz, leafData, usableSpace, cut, p, q, i);
      }
    }
  }
}
