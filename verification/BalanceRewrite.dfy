/**
  The last part of balance_nonroot: the sibling pages are overwritten, one at a time, with their new
  cells, while the other pages still hold cells that have to be copied from them.

  A page is a map from indices in the combined cell list to cell contents.  A cell is read from the
  page it was found on, as that page is at that moment, or from a copy made beforehand (divider cells
  and overflow cells).
 */
module BalanceRewrite {
  import opened BalanceDistribute

  type Text = seq<nat>
  type Page = map<nat, Text>
  datatype Place = Resident(page: nat) | Copied(text: Text)

  /** First cell of old page p; pages from nOld on are new and hold nothing. */
  function FirstOld(nCell: nat, leafData: bool, cntOld: seq<nat>, nOld: nat, p: nat): nat
    requires p <= |cntOld|
  {
    if p == 0 then 0 else if p < nOld then cntOld[p - 1] + (if leafData then 0 else 1) else nCell
  }

  /** Cell c was found on old page p. */
  predicate WasOn(nCell: nat, leafData: bool, cntOld: seq<nat>, nOld: nat, p: nat, c: nat)
    requires p < |cntOld|
  {
    FirstOld(nCell, leafData, cntOld, nOld, p) <= c < cntOld[p] && p < nOld
  }

  /** The page that holds cells [lo, hi) of the list. */
  function Holding(text: seq<Text>, lo: int, hi: int): Page
    requires 0 <= lo && hi <= |text|
  {
    map c: nat | lo <= c < hi :: text[c]
  }

  ghost predicate CanRead(pages: seq<Page>, place: seq<Place>, text: seq<Text>, c: nat)
    requires c < |place| == |text|
  {
    match place[c]
    case Resident(p) => p < |pages| && c in pages[p] && pages[p][c] == text[c]
    case Copied(t) => t == text[c]
  }

  /** The pages and copies as loaded: every cell of the list can be found. */
  ghost predicate Loaded(
      text: seq<Text>, leafData: bool, cntOld: seq<nat>, nOld: nat, pages: seq<Page>, place: seq<Place>)
  {
    && 1 <= nOld && |pages| == |cntOld| && |place| == |text|
    && (forall p, q :: 0 <= p < q < |cntOld| ==> cntOld[p] <= cntOld[q])
    && (forall c :: 0 <= c < |text| ==> CanRead(pages, place, text, c))
    && (forall c :: 0 <= c < |text| && place[c].Resident? ==>
         place[c].page < |cntOld| && WasOn(|text|, leafData, cntOld, nOld, place[c].page, c))
  }

  /** editPage: page iPg is made to hold the cells [iNew, iNew + nNewCell), each read from where it is now. */
  method EditPage(pages: array<Page>, place: seq<Place>, ghost text: seq<Text>, iPg: nat, iNew: nat, nNewCell: nat)
    requires iPg < pages.Length && iNew + nNewCell <= |place| == |text|
    requires forall c :: iNew <= c < iNew + nNewCell ==> CanRead(pages[..], place, text, c)
    modifies pages
    ensures pages[..] == old(pages[..])[iPg := Holding(text, iNew, iNew + nNewCell)]
  {
    var page: Page := map[];
    for c := iNew to iNew + nNewCell
      invariant page == Holding(text, iNew, c)
    {
      assert CanRead(pages[..], place, text, c);
      page := page[c := match place[c] case Resident(p) => pages[p][c] case Copied(t) => t];
    }
    pages[iPg] := page;
  }

  /** Page p as it has to be in the end. */
  function Target(text: seq<Text>, leafData: bool, cntNew: seq<int>, p: nat): Page
    requires p < |cntNew| && 0 <= First(|text|, leafData, cntNew, p) && cntNew[p] <= |text|
  {
    Holding(text, First(|text|, leafData, cntNew, p), cntNew[p])
  }

  ghost predicate Goal(nCell: nat, leafData: bool, cntNew: seq<int>) {
    && 1 <= |cntNew|
    && (forall p :: 0 <= p < |cntNew| ==> 0 <= First(nCell, leafData, cntNew, p) <= cntNew[p] <= nCell)
    && (forall p, q :: 0 <= p < q < |cntNew| ==> cntNew[p] < cntNew[q])
  }

  /** Page p has to wait for the page to its left, which still has cells to take from it. */
  predicate Deferred(cntOld: seq<nat>, cntNew: seq<int>, p: nat)
    requires p < |cntNew| <= |cntOld|
  {
    p > 0 && cntOld[p - 1] < cntNew[p - 1]
  }

  /** A rewritten page holds its new cells, any other page is as it was, and no page was rewritten
      before every cell that leaves it had reached its new page. */
  ghost predicate Safe(
      text: seq<Text>, leafData: bool, cntOld: seq<nat>, nOld: nat, cntNew: seq<int>,
      was: seq<Page>, pages: seq<Page>, done: seq<nat>)
    requires Goal(|text|, leafData, cntNew) && |done| == |cntNew| <= |cntOld| == |pages| == |was|
  {
    && (forall p :: 0 <= p < |done| ==> done[p] <= 1)
    && (forall p :: 0 <= p < |done| && done[p] == 1 ==> pages[p] == Target(text, leafData, cntNew, p))
    && (forall p :: 0 <= p < |pages| && (p < |done| ==> done[p] == 0) ==> pages[p] == was[p])
    && (forall p: nat, n: nat, c: nat | p < |done| && done[p] == 1 && n < |done| && n != p
          && WasOn(|text|, leafData, cntOld, nOld, p, c) && OnPage(|text|, leafData, cntNew, n, c)
        :: done[n] == 1)
  }

  /** Whatever a page still to be written needs can be read. */
  lemma CellsReadable(
      text: seq<Text>, leafData: bool, cntOld: seq<nat>, nOld: nat, cntNew: seq<int>,
      was: seq<Page>, pages: seq<Page>, done: seq<nat>, place: seq<Place>, n: nat, c: nat)
    requires Goal(|text|, leafData, cntNew) && |done| == |cntNew| <= |cntOld| == |pages| == |was|
    requires Loaded(text, leafData, cntOld, nOld, was, place)
    requires Safe(text, leafData, cntOld, nOld, cntNew, was, pages, done)
    requires n < |done| && done[n] == 0 && c < |text| && OnPage(|text|, leafData, cntNew, n, c)
    ensures CanRead(pages, place, text, c)
  {
    assert CanRead(was, place, text, c);
    if place[c].Resident? {
      assert WasOn(|text|, leafData, cntOld, nOld, place[c].page, c);
    }
  }

  /** The order of the two passes makes it safe to rewrite page n: pages to the right of it are done
      or deferred, and it is not itself deferred unless all pages to its left are done. */
  lemma SafeToRewrite(
      nCell: nat, leafData: bool, cntOld: seq<nat>, nOld: nat, cntNew: seq<int>, done: seq<nat>, p: nat, n: nat, c: nat)
    requires Goal(nCell, leafData, cntNew) && |done| == |cntNew| <= |cntOld| && p < |done| && n < |done| && n != p
    requires forall q, q' :: 0 <= q < q' < |cntOld| ==> cntOld[q] <= cntOld[q']
    requires forall q :: p < q < |done| ==> done[q] == 1 || Deferred(cntOld, cntNew, q)
    requires !Deferred(cntOld, cntNew, p) || forall q :: 0 <= q < p ==> done[q] == 1
    requires WasOn(nCell, leafData, cntOld, nOld, p, c) && OnPage(nCell, leafData, cntNew, n, c)
    ensures done[n] == 1
  {
    if n < p {
      assert n == p - 1 || cntNew[n] < cntNew[p - 1];
    } else {
      assert p == n - 1 || cntOld[p] <= cntOld[n - 1];
      assert cntNew[n - 1] <= First(nCell, leafData, cntNew, n);
    }
  }

  /** One page is rewritten. */
  lemma RewriteKeepsSafe(
      text: seq<Text>, leafData: bool, cntOld: seq<nat>, nOld: nat, cntNew: seq<int>,
      was: seq<Page>, pages: seq<Page>, done: seq<nat>, p: nat)
    requires Goal(|text|, leafData, cntNew) && |done| == |cntNew| <= |cntOld| == |pages| == |was|
    requires forall q, q' :: 0 <= q < q' < |cntOld| ==> cntOld[q] <= cntOld[q']
    requires Safe(text, leafData, cntOld, nOld, cntNew, was, pages, done)
    requires p < |done| && done[p] == 0
    requires forall q :: p < q < |done| ==> done[q] == 1 || Deferred(cntOld, cntNew, q)
    requires !Deferred(cntOld, cntNew, p) || forall q :: 0 <= q < p ==> done[q] == 1
    ensures Safe(text, leafData, cntOld, nOld, cntNew, was, pages[p := Target(text, leafData, cntNew, p)], done[p := 1])
  {
    var done' := done[p := 1];
    forall q: nat, n: nat, c: nat | q < |done'| && done'[q] == 1 && n < |done'| && n != q
      && WasOn(|text|, leafData, cntOld, nOld, q, c) && OnPage(|text|, leafData, cntNew, n, c)
      ensures done'[n] == 1
    {
      if q == p { SafeToRewrite(|text|, leafData, cntOld, nOld, cntNew, done, p, n, c); }
    }
  }

  lemma StartsSafe(
      text: seq<Text>, leafData: bool, cntOld: seq<nat>, nOld: nat, cntNew: seq<int>, was: seq<Page>, done: seq<nat>)
    requires Goal(|text|, leafData, cntNew) && |done| == |cntNew| <= |cntOld| == |was|
    requires forall p :: 0 <= p < |done| ==> done[p] == 0
    ensures Safe(text, leafData, cntOld, nOld, cntNew, was, was, done)
  {
  }

  /** The cells of page p, as the loop computes them. */
  lemma Span(nCell: nat, leafData: bool, cntNew: seq<int>, p: nat)
    requires Goal(nCell, leafData, cntNew) && p < |cntNew|
    ensures 0 <= First(nCell, leafData, cntNew, p) <= cntNew[p] <= nCell
    ensures First(nCell, leafData, cntNew, p) == if p == 0 then 0 else cntNew[p - 1] + (if leafData then 0 else 1)
  {
    if p > 0 { assert cntNew[p - 1] < cntNew[p]; }
  }

  lemma DoneMeansTarget(
      text: seq<Text>, leafData: bool, cntOld: seq<nat>, nOld: nat, cntNew: seq<int>,
      was: seq<Page>, pages: seq<Page>, done: seq<nat>, p: nat)
    requires Goal(|text|, leafData, cntNew) && |done| == |cntNew| <= |cntOld| == |pages| == |was|
    requires Safe(text, leafData, cntOld, nOld, cntNew, was, pages, done)
    requires p < |pages| && (p < |done| ==> done[p] == 1)
    ensures if p < |done|
      then
        && 0 <= First(|text|, leafData, cntNew, p) <= cntNew[p] <= |text|
        && pages[p] == Target(text, leafData, cntNew, p)
      else pages[p] == was[p]
  {
  }

  /** The two passes: down from the last page to the first, then up again over the pages left out. */
  method Rewrite(
      pages: array<Page>, place: seq<Place>, ghost text: seq<Text>, leafData: bool,
      cntOld: seq<nat>, nOld: nat, cntNew: seq<int>)
    returns (order: seq<nat>)
    requires Goal(|text|, leafData, cntNew)
    requires 1 <= |cntNew| <= |cntOld| == pages.Length && |place| == |text|
    requires Loaded(text, leafData, cntOld, nOld, pages[..], place)
    modifies pages
    ensures forall p :: 0 <= p < |cntNew| ==>
      0 <= First(|text|, leafData, cntNew, p) <= cntNew[p] <= |text| && pages[p] == Target(text, leafData, cntNew, p)
    ensures forall p :: |cntNew| <= p < pages.Length ==> pages[p] == old(pages[p])
    ensures forall p: nat :: p in order <==> p < |cntNew|
    ensures forall j, j' :: 0 <= j < j' < |order| ==> order[j] != order[j']
  {
    hide Safe, Loaded, Goal, CanRead, First;
    var nNew := |cntNew|;
    var abDone: seq<nat> := seq(nNew, _ => 0);
    order := [];
    ghost var was := pages[..];
    StartsSafe(text, leafData, cntOld, nOld, cntNew, was, abDone);
    LoadedInOrder(text, leafData, cntOld, nOld, was, place);
    var i := 1 - nNew;
    while i < nNew
      invariant 1 - nNew <= i <= nNew && |abDone| == nNew
      invariant forall p :: 0 <= p < nNew ==> abDone[p] <= 1
      invariant Safe(text, leafData, cntOld, nOld, cntNew, was, pages[..], abDone)
      invariant i <= 0 ==> forall p :: 0 <= p <= -i ==> abDone[p] == 0
      invariant forall p :: (if i <= 0 then -i else i - 1) < p < nNew ==> abDone[p] == 1 || Deferred(cntOld, cntNew, p)
      invariant i >= 0 ==> forall p :: 0 <= p < i ==> abDone[p] == 1
      invariant forall p: nat :: p in order <==> p < nNew && abDone[p] == 1
      invariant forall j, j' :: 0 <= j < j' < |order| ==> order[j] != order[j']
    {
      var iPg := if i < 0 then -i else i;
      if abDone[iPg] == 0 && (i >= 0 || cntOld[iPg - 1] >= cntNew[iPg - 1]) {
        assert iPg == 0 || cntOld[iPg - 1] >= cntNew[iPg - 1] || abDone[iPg - 1] == 1;
        Span(|text|, leafData, cntNew, iPg);
        var iNew, nNewCell := 0, cntNew[0];
        if iPg > 0 {
          iNew := cntNew[iPg - 1] + (if leafData then 0 else 1);
          nNewCell := cntNew[iPg] - iNew;
        }
        forall c | iNew <= c < iNew + nNewCell ensures CanRead(pages[..], place, text, c) {
          CellsReadable(text, leafData, cntOld, nOld, cntNew, was, pages[..], abDone, place, iPg, c);
        }
        RewriteKeepsSafe(text, leafData, cntOld, nOld, cntNew, was, pages[..], abDone, iPg);
        EditPage(pages, place, text, iPg, iNew, nNewCell);
        abDone := abDone[iPg := abDone[iPg] + 1];
        order := order + [iPg];
      }
      i := i + 1;
    }
    forall p | 0 <= p < pages.Length
      ensures if p < nNew
        then
          && 0 <= First(|text|, leafData, cntNew, p) <= cntNew[p] <= |text|
          && pages[p] == Target(text, leafData, cntNew, p)
        else pages[p] == old(pages[p])
    {
      DoneMeansTarget(text, leafData, cntOld, nOld, cntNew, was, pages[..], abDone, p);
    }
  }

  lemma LoadedInOrder(
      text: seq<Text>, leafData: bool, cntOld: seq<nat>, nOld: nat, pages: seq<Page>, place: seq<Place>)
    requires Loaded(text, leafData, cntOld, nOld, pages, place)
    ensures forall q, q' :: 0 <= q < q' < |cntOld| ==> cntOld[q] <= cntOld[q']
  {
  }

  /** A finished distribution is a goal this rewrite can reach. */
  lemma BalancedIsGoal(sz: seq<nat>, leafData: bool, usableSpace: int, cnt: seq<int>, size: seq<int>)
    requires Balanced(sz, leafData, usableSpace, cnt, size)
    ensures Goal(|sz|, leafData, cnt)
  {
    assert |sz| == 0 ==> cnt[0] == 0 || |cnt| == 1;
  }
}
