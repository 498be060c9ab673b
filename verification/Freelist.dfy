/**
  Allocating and freeing pages of a database.  The routines run on whatever the pages hold; what they
  promise about the freelist they promise for pages that hold one.
 */
module Freelist {

  import opened Basics
  import opened FreelistChain
  import PtrMap

  datatype Rc = OK | CORRUPT

  datatype Mode = ANY | EXACT | LE

  /** The distance of two page numbers, as sqlite3AbsInt32 computes it from the difference in 32 bits. */
  function Dist(a: nat, b: nat): nat {
    var d := (a - b) % U32;
    if d < 0x8000_0000 then d else if d == 0x8000_0000 then 0x7fff_ffff else U32 - d
  }

  lemma DistZero(a: nat, b: nat)
    requires a < U32 && b < U32
    ensures Dist(a, b) == 0 <==> a == b
  {
  }

  /** The distance of two page numbers. */
  function Away(a: nat, b: nat): nat {
    if a < b then b - a else a - b
  }

  lemma DistIsAway(a: nat, b: nat)
    requires a < HALF && b < HALF
    ensures Dist(a, b) == Away(a, b)
  {
  }

  /** The i-th leaf is the first of those that are closest to page nearby; if none is named, the first of all. */
  predicate Nearest(leaves: seq<nat>, nearby: nat, i: nat)
    requires i < |leaves|
  {
    if nearby == 0 then i == 0
    else forall j :: 0 <= j < |leaves| ==>
           && Away(leaves[i], nearby) <= Away(leaves[j], nearby)
           && (j < i ==> Away(leaves[i], nearby) < Away(leaves[j], nearby))
  }

  /** What is taken of a trunk without a search: a nearest leaf, or the trunk itself if it has no leaves. */
  ghost predicate Closest(x: Trunk, nearby: nat, p: nat) {
    if x.leaves == [] then p == x.no
    else exists i :: 0 <= i < |x.leaves| && p == x.leaves[i] && (nearby < HALF ==> Nearest(x.leaves, nearby, i))
  }

  /** What a search takes of a trunk: the trunk if it suits, otherwise the first leaf that does. */
  ghost predicate FirstSuited(x: Trunk, nearby: nat, mode: Mode, p: nat) {
    && Suits(p, nearby, mode)
    && (p == x.no || (!Suits(x.no, nearby, mode) &&
         exists i :: 0 <= i < |x.leaves| && p == x.leaves[i] && NoneIn(x.leaves[..i], nearby, mode)))
  }

  ghost predicate Picked(x: Trunk, nearby: nat, mode: Mode, search: bool, p: nat) {
    if search then FirstSuited(x, nearby, mode, p) else Closest(x, nearby, p)
  }

  /** What is taken of the list: the first page that a search meets and that suits, or a page of the first trunk. */
  ghost predicate Chosen(list: seq<Trunk>, nearby: nat, mode: Mode, search: bool, p: nat) {
    exists t :: 0 <= t < |list| && Picked(list[t], nearby, mode, search, p) &&
      if search then NoneOfAll(list[..t], nearby, mode) else t == 0
  }

  lemma ChosenMeans(list: seq<Trunk>, nearby: nat, mode: Mode, search: bool, p: nat)
    requires Chosen(list, nearby, mode, search, p)
    ensures if search then Suits(p, nearby, mode) else list != [] && Closest(list[0], nearby, p)
  {
    hide NoneOfAll, NoneIn, Nearest;
  }

  /** The second leaf is taken if it is the closer one. */
  lemma SecondIsCloser(p: nat)
    requires Closest(Trunk(3, [100, 6]), 5, p)
    ensures p == 6
  {
    assert [100, 6][0] == 100 && [100, 6][1] == 6;
  }

  lemma ChosenAt(list: seq<Trunk>, t: nat, nearby: nat, mode: Mode, search: bool, p: nat)
    requires t < |list| && Picked(list[t], nearby, mode, search, p)
    requires if search then NoneOfAll(list[..t], nearby, mode) else t == 0
    ensures Chosen(list, nearby, mode, search, p)
  {
  }

  function Words(b: PtrMap.Layout): (w: nat)
    ensures b.Valid() ==> w >= 120
  {
    b.usable / 4
  }

  predicate PageOk(p: Page, b: PtrMap.Layout) {
    |p| == Words(b) && forall i :: 0 <= i < |p| ==> p[i] < U32
  }

  /** All pages up to the last but that of the pending byte are there, and each has its words. */
  ghost predicate Ok(pages: map<nat, Page>, nPage: nat, b: PtrMap.Layout) {
    && b.Valid() && nPage < U32 && 1 in pages && 0 !in pages
    && (forall p :: p in pages ==> p <= nPage && PageOk(pages[p], b))
    && (forall p :: 1 <= p <= nPage && p != b.pending ==> p in pages)
  }

  lemma OkAt(pages: map<nat, Page>, nPage: nat, b: PtrMap.Layout, p: nat)
    requires Ok(pages, nPage, b)
    ensures b.Valid() && Words(b) >= 120 && nPage < U32 && 1 in pages && 0 !in pages && |pages[1]| >= 120
    ensures p in pages ==> p <= nPage && PageOk(pages[p], b) && |pages[p]| == Words(b)
  {
  }

  lemma SmallMod(n: nat)
    requires n < U32
    ensures n % U32 == n
  {
  }

  lemma ZerosOk(b: PtrMap.Layout)
    ensures PageOk(Repeat<nat>(Words(b), 0), b)
  {
  }

  lemma CountedOk(p: Page, b: PtrMap.Layout, n: nat)
    requires PageOk(p, b) && |p| > COUNT && n < U32
    ensures PageOk(Counted(p, n), b)
  {
  }

  lemma SizedOk(p: Page, b: PtrMap.Layout, n: nat)
    requires |p| > COUNT
    ensures PageOk(p, b) && n < U32 ==> PageOk(Sized(p, n), b)
  {
  }

  lemma GrowOk(pages: map<nat, Page>, nPage: nat, b: PtrMap.Layout, q: Page)
    requires Ok(pages, nPage, b) && PageOk(q, b) && nPage + 2 < U32
    ensures var n := if nPage + 1 == b.pending then nPage + 2 else nPage + 1;
      Ok(pages[n := q], n, b) && n !in pages
  {
  }

  lemma UntouchedTwo(was: map<nat, Page>, m: multiset<nat>, p: nat, q: Page, r: nat, z: Page)
    requires p in was && p != 1 && p in m && r in was && if r == 1 then HeaderKept(was[1], z) else r in m
    ensures Untouched(was, was[p := q], m) && Untouched(was, was[p := q][r := z], m)
  {
  }

  lemma PageOkSet(p: Page, b: PtrMap.Layout, i: nat, v: nat)
    requires PageOk(p, b) && i < |p| && v < U32
    ensures PageOk(p[i := v], b)
  {
  }

  lemma OkPut(pages: map<nat, Page>, nPage: nat, b: PtrMap.Layout, p: nat, q: Page)
    requires Ok(pages, nPage, b) && p in pages && PageOk(q, b)
    ensures Ok(pages[p := q], nPage, b) && pages[p := q].Keys == pages.Keys
  {
  }

  /** The header is the same but for the first trunk and the count of free pages. */
  predicate HeaderKept(p: Page, q: Page) {
    |q| == |p| && forall i :: 0 <= i < |p| && i != FIRST && i != COUNT ==> q[i] == p[i]
  }

  /** Pages outside the freelist keep their contents, and so do the other words of the header. */
  ghost predicate Untouched(was: map<nat, Page>, now: map<nat, Page>, m: multiset<nat>) {
    && was.Keys == now.Keys && (forall p :: p in was && p != 1 && p !in m ==> now[p] == was[p])
    && (1 in was ==> HeaderKept(was[1], now[1]))
  }

  lemma UntouchedOn(was: map<nat, Page>, mid: map<nat, Page>, now: map<nat, Page>, a: multiset<nat>, b: multiset<nat>,
                    m: multiset<nat>)
    requires Untouched(was, mid, a) && Untouched(mid, now, b) && a <= m && b <= m
    ensures Untouched(was, now, m)
  {
  }

  /** Only the header has changed. */
  lemma UntouchedHeader(was: map<nat, Page>, q: Page, m: multiset<nat>)
    requires 1 in was && HeaderKept(was[1], q)
    ensures Untouched(was, was[1 := q], m)
  {
  }

  function Counted(p: Page, n: nat): (q: Page)
    requires |p| > COUNT
    ensures |q| == |p| && q[COUNT] == n && q[FIRST] == p[FIRST]
  {
    p[COUNT := n]
  }

  /** Page p may be taken by a search: it is the page asked for, or in mode LE one before it. */
  predicate Suits(p: nat, nearby: nat, mode: Mode) {
    p == nearby || (p < nearby && mode == LE)
  }

  /** From one chain to the next: page p is gone, and only pages of the chain and the header have changed. */
  ghost predicate Taken(was: map<nat, Page>, list: seq<Trunk>, p: nat, pages: map<nat, Page>, now: seq<Trunk>) {
    && Chain(pages, now) && p in All(list) && All(now) == All(list) - multiset{p}
    && Untouched(was, pages, All(list)) && 1 in was && |was[1]| > COUNT && pages[1][COUNT] == was[1][COUNT]
  }

  /** As Taken, and the header counts the pages. */
  ghost predicate Allocated(was: map<nat, Page>, list: seq<Trunk>, p: nat, pages: map<nat, Page>, now: seq<Trunk>) {
    && Freelist(pages, now) && p in All(list) && All(now) == All(list) - multiset{p}
    && Untouched(was, pages, All(list))
  }

  /** From one chain to the next: page p has come in. */
  ghost predicate Added(was: map<nat, Page>, list: seq<Trunk>, p: nat, pages: map<nat, Page>, now: seq<Trunk>) {
    && Chain(pages, now) && All(now) == All(list) + multiset{p} && Untouched(was, pages, All(now))
    && 1 in was && |was[1]| > COUNT && pages[1][COUNT] == was[1][COUNT]
  }

  /** As Added, and the header counts the pages. */
  ghost predicate Freed(was: map<nat, Page>, list: seq<Trunk>, p: nat, pages: map<nat, Page>, now: seq<Trunk>) {
    Freelist(pages, now) && All(now) == All(list) + multiset{p} && Untouched(was, pages, All(now))
  }

  lemma TakenEmpty(was: map<nat, Page>, list: seq<Trunk>, t: nat)
    requires Chain(was, list) && t < |list| && list[t].leaves == []
    ensures Taken(was, list, list[t].no, SetLink(was, list, t, No(list, t + 1)), list[..t] + list[t + 1..])
  {
    TrunkTaken(was, list, t);
    LinkHeader(was, list, t, No(list, t + 1));
    LinkUntouched(was, list, t, No(list, t + 1));
    hide All, IsTrunk, NoRepeats, Linked, Untouched, SetLink;
  }

  lemma TakenPromoted(was: map<nat, Page>, list: seq<Trunk>, t: nat, q: Page)
    requires Chain(was, list) && t < |list| && list[t].leaves != [] && list[t].leaves[0] in was
    requires IsTrunk(q, Promoted(list[t]), No(list, t + 1))
    ensures var v := list[t].leaves[0];
      && Taken(was, list, list[t].no, SetLink(was, list, t, v)[v := q], list[t := Promoted(list[t])])
      && Chain(was[v := q], list) && SetLink(was[v := q], list, t, v) == SetLink(was, list, t, v)[v := q]
  {
    var v := list[t].leaves[0];
    TrunkReplaced(was, list, t, q);
    LinkHeader(was, list, t, v);
    LinkUntouched(was, list, t, v);
    LeafInAll(list, t, v);
    PromotedLater(was, list, t, v, q);
    hide All, IsTrunk, NoRepeats, Linked, SetLink, Untouched, Chain;
    UntouchedThen(was, SetLink(was, list, t, v), All(list), v, q);
  }

  lemma UntouchedThen(was: map<nat, Page>, mid: map<nat, Page>, m: multiset<nat>, p: nat, q: Page)
    requires Untouched(was, mid, m) && p in mid && p in m && p != 1
    ensures Untouched(was, mid[p := q], m)
  {
  }

  lemma TakenLeaf(was: map<nat, Page>, list: seq<Trunk>, t: nat, c: nat, q: Page)
    requires Chain(was, list) && t < |list| && c < |list[t].leaves| && list[t].no in was
    requires IsTrunk(q, WithoutLeaf(list[t], c), No(list, t + 1))
    ensures Taken(was, list, list[t].leaves[c], was[list[t].no := q], list[t := WithoutLeaf(list[t], c)])
  {
    LeafTaken(was, list, t, c, q);
    TrunkAt(was, list, t);
    UntouchedTwo(was, All(list), list[t].no, q, list[t].no, q);
    hide All, IsTrunk, NoRepeats, Linked, Untouched;
  }

  lemma TakenIsAllocated(was: map<nat, Page>, list: seq<Trunk>, p: nat, pages: map<nat, Page>, now: seq<Trunk>)
    requires Freelist(was, list) && |All(list)| > 0
    requires Taken(was[1 := Counted(was[1], |All(list)| - 1)], list, p, pages, now)
    ensures Allocated(was, list, p, pages, now)
  {
    hide Chain, All, NoRepeats, HeaderKept, Untouched, Counted;
    ChainDistinct(was, list);
    CountedHeader(was[1], |All(list)| - 1);
    StillNoRepeats(All(list), p);
    UntouchedHeader(was, Counted(was[1], |All(list)| - 1), All(list));
    UntouchedOn(was, was[1 := Counted(was[1], |All(list)| - 1)], pages, All(list), All(list), All(list));
  }

  lemma CountedHeader(p: Page, n: nat)
    requires |p| > COUNT
    ensures HeaderKept(p, Counted(p, n)) && Counted(p, n)[COUNT] == n
  {
  }

  lemma ChainDistinct(pages: map<nat, Page>, list: seq<Trunk>)
    requires Chain(pages, list)
    ensures NoRepeats(All(list)) && 1 !in All(list) && 1 in pages && |pages[1]| > COUNT
  {
  }

  /** The header counts one page more, and otherwise at most page p has changed. */
  ghost predicate Prepared(was: map<nat, Page>, list: seq<Trunk>, p: nat, mid: map<nat, Page>) {
    && Chain(mid, list) && Untouched(was, mid, multiset{p})
    && 1 in was && |was[1]| > COUNT && mid[1][COUNT] == was[1][COUNT] + 1
  }

  lemma AddedIsFreed(was: map<nat, Page>, list: seq<Trunk>, p: nat, mid: map<nat, Page>, pages: map<nat, Page>,
                     now: seq<Trunk>)
    requires Freelist(was, list) && Prepared(was, list, p, mid) && Added(mid, list, p, pages, now)
    ensures Freed(was, list, p, pages, now)
  {
    hide All, Chain, Untouched;
    assert |All(list) + multiset{p}| == |All(list)| + 1 && p in All(now);
    UntouchedOn(was, mid, pages, multiset{p}, All(now), All(now));
  }

  predicate NoneOfAll(list: seq<Trunk>, nearby: nat, mode: Mode) {
    forall s :: 0 <= s < |list| ==> NoneOf(list[s], nearby, mode)
  }

  predicate NoneOf(x: Trunk, nearby: nat, mode: Mode) {
    forall p :: p in One(x) ==> !Suits(p, nearby, mode)
  }

  predicate NoneIn(s: seq<nat>, nearby: nat, mode: Mode) {
    forall i :: 0 <= i < |s| ==> !Suits(s[i], nearby, mode)
  }

  /** The free pages are pages of the database. */
  ghost predicate InFile(pages: map<nat, Page>, nPage: nat, m: multiset<nat>) {
    forall p :: p in m ==> p in pages && p <= nPage
  }

  /** The t-th trunk of the chain is iTrunk, and prev is the one before, or 0. */
  ghost predicate AtTrunk(pages: map<nat, Page>, nPage: nat, list: seq<Trunk>, t: nat, prev: nat, iTrunk: nat) {
    && Chain(pages, list) && InFile(pages, nPage, All(list)) && t < |list|
    && iTrunk == list[t].no && prev == if t == 0 then 0 else list[t - 1].no
  }

  /** The search stands before the t-th trunk, and prev is the trunk it has just left, or 0. */
  ghost predicate Before(pages: map<nat, Page>, nPage: nat, list: seq<Trunk>, t: nat, prev: nat) {
    && Chain(pages, list) && InFile(pages, nPage, All(list)) && t <= |list|
    && prev == if t == 0 then 0 else list[t - 1].no
  }

  /** Whether a page is free is asked in mode EXACT only; the pointer map then tells what the list says. */
  ghost predicate MapTells(nPage: nat, list: seq<Trunk>, nearby: nat, mode: Mode, freePage: bool) {
    mode == EXACT && nearby <= nPage ==> (freePage <==> nearby in All(list))
  }

  /**
    The list with one more page.  For the sake of older versions a trunk never gets more than w - 8 leaves, although
    there is room for w - 2.
   */
  function Joined(list: seq<Trunk>, p: nat, w: nat): seq<Trunk> {
    if list != [] && |list[0].leaves| + 8 < w then [Trunk(list[0].no, list[0].leaves + [p])] + list[1..]
    else [Trunk(p, [])] + list
  }

  predicate Compatible(list: seq<Trunk>, w: nat) {
    forall t :: 0 <= t < |list| ==> |list[t].leaves| + 8 <= w
  }

  /** Older versions can go on reading the list; a new trunk is begun only if the first has no room. */
  lemma JoinedIsCompatible(list: seq<Trunk>, p: nat, w: nat)
    requires Compatible(list, w) && w >= 120
    ensures Compatible(Joined(list, p, w), w)
    ensures |Joined(list, p, w)| == |list| <==> list != [] && |list[0].leaves| < w - 8
  {
  }

  /** The words of the page are as they were, except that a trunk has a link, and no leaves, in the first two. */
  predicate Marked(was: Page, now: Page) {
    && |now| == |was| && (now == was || (|now| > 1 && now[1] == 0))
    && forall i :: 2 <= i < |now| ==> now[i] == was[i]
  }

  class Db {
    var pages: map<nat, Page>
    var nPage: nat
    const layout: PtrMap.Layout
    const autoVacuum: bool

    ghost predicate PagesOk()
      reads this
    {
      Ok(pages, nPage, layout)
    }

    /** The pages hold the freelist, all of it within the file. */
    ghost predicate Holding(list: seq<Trunk>)
      reads this
    {
      Freelist(pages, list) && InFile(pages, nPage, All(list))
    }

    /** Write a page. */
    method Put(p: nat, q: Page)
      requires PagesOk() && p in pages && PageOk(q, layout)
      modifies this`pages
      ensures PagesOk() && pages == old(pages)[p := q] && pages.Keys == old(pages.Keys)
    {
      OkPut(pages, nPage, layout, p, q);
      pages := pages[p := q];
    }

    /** Write the number of a trunk into the trunk before it, or into the header. */
    method WriteLink(prev: nat, link: nat, ghost list: seq<Trunk>, ghost t: nat)
      requires PagesOk() && link < U32 && (prev != 0 ==> prev in pages)
      modifies this`pages
      ensures PagesOk() && pages.Keys == old(pages.Keys)
      ensures old(Chain(pages, list)) && t <= |list| && prev == (if t == 0 then 0 else list[t - 1].no) ==>
        pages == SetLink(old(pages), list, t, link)
    {
      hide All;
      OkAt(pages, nPage, layout, prev);
      ghost var at := Chain(pages, list) && 0 < t <= |list|;
      if at { TrunkAt(pages, list, t - 1); }
      if prev == 0 {
        Put(1, FirstSet(pages[1], link));
      } else {
        var p: Page := pages[prev];
        Put(prev, p[0 := link]);
      }
    }

    /** The first leaf of trunk page iTrunk becomes a trunk page with the other leaves. */
    method Promote(iTrunk: nat, link: nat, k: nat, ghost list: seq<Trunk>, ghost t: nat)
      requires PagesOk() && iTrunk in pages && 0 < k == pages[iTrunk][1] <= Words(layout) - 2
      requires link == pages[iTrunk][2] && link in pages
      modifies this`pages
      ensures PagesOk() && pages.Keys == old(pages.Keys)
      ensures old(Chain(pages, list)) && t < |list| && iTrunk == list[t].no ==>
        && link in list[t].leaves && pages == old(pages)[link := pages[link]]
        && IsTrunk(pages[link], Promoted(list[t]), No(list, t + 1))
    {
      hide All, Chain;
      ghost var at := Chain(pages, list) && t < |list| && iTrunk == list[t].no;
      var q: Page := [pages[iTrunk][0], k - 1] + pages[iTrunk][3..2 + k] + pages[link][1 + k..];
      if at {
        TrunkAt(pages, list, t);
        PromotedPage(pages[iTrunk], list[t], No(list, t + 1), q);
      }
      Put(link, q);
    }

    /** Take the trunk page iTrunk, which has k leaves, out of the list. */
    method TakeTrunk(prev: nat, iTrunk: nat, k: nat, ghost list: seq<Trunk>, ghost t: nat)
      returns (rc: Rc, ghost now: seq<Trunk>)
      requires PagesOk() && iTrunk in pages && k == pages[iTrunk][1] <= Words(layout) - 2
      requires prev != 0 ==> prev in pages
      modifies this`pages
      ensures PagesOk()
      ensures old(AtTrunk(pages, nPage, list, t, prev, iTrunk)) ==>
        rc == OK && Taken(old(pages), list, iTrunk, pages, now)
    {
      OkAt(pages, nPage, layout, iTrunk);
      ghost var was, at := pages, AtTrunk(pages, nPage, list, t, prev, iTrunk);
      now := list;
      if at {
        TrunkAt(pages, list, t);
        TrunkPage(pages[iTrunk], list[t], No(list, t + 1));
      }
      hide Chain, All, Ok, IsTrunk, SetLink, Taken;
      var link := pages[iTrunk][0];
      if k > 0 {
        link := pages[iTrunk][2];
        if at { LeafInAll(list, t, link); }
        if link > nPage || link !in pages {
          if at { assert false; }
          return CORRUPT, now;
        }
        Promote(iTrunk, link, k, list, t);
        if at {
          now := list[t := Promoted(list[t])];
          TakenPromoted(was, list, t, pages[link]);
        }
      } else if at {
        now := list[..t] + list[t + 1..];
        TakenEmpty(was, list, t);
      }
      WriteLink(prev, link, list, t);
      return OK, now;
    }

    /** Take leaf closest out of trunk page iTrunk, which has k leaves. */
    method TakeLeaf(ghost prev: nat, iTrunk: nat, k: nat, closest: nat, ghost list: seq<Trunk>, ghost t: nat)
      returns (ghost now: seq<Trunk>)
      requires PagesOk() && iTrunk in pages && k == pages[iTrunk][1] <= Words(layout) - 2 && closest < k
      modifies this`pages
      ensures PagesOk()
      ensures old(AtTrunk(pages, nPage, list, t, prev, iTrunk)) ==>
        Taken(old(pages), list, old(pages[iTrunk][2 + closest]), pages, now)
    {
      OkAt(pages, nPage, layout, iTrunk);
      var q := Shorter(pages[iTrunk], closest);
      ShorterOk(pages[iTrunk], layout, closest);
      now := list;
      if AtTrunk(pages, nPage, list, t, prev, iTrunk) {
        TrunkAt(pages, list, t);
        now := list[t := WithoutLeaf(list[t], closest)];
        LeafPage(pages[iTrunk], list[t], No(list, t + 1), closest);
        TakenLeaf(pages, list, t, closest, q);
      }
      hide Chain, All, Ok, IsTrunk, Taken, Shorter;
      Put(iTrunk, q);
    }

    lemma ClosestIs(p: Page, k: nat, nearby: nat, c: nat)
      requires 0 < nearby < U32 && c < k && k + 2 <= |p| && PageOk(p, layout)
      requires forall j :: 2 <= j < 2 + k ==> Dist(p[j], nearby) >= Dist(p[2 + c], nearby)
      requires forall j :: 2 <= j < 2 + c ==> Dist(p[j], nearby) > Dist(p[2 + c], nearby)
      ensures p[2 + c] == nearby || forall i :: 2 <= i < 2 + k ==> p[i] != nearby
      ensures p[2 + c] == nearby ==> forall j :: 2 <= j < 2 + c ==> p[j] != nearby
      ensures nearby < HALF && (forall i :: 2 <= i < 2 + k ==> p[i] < HALF) ==> Nearest(p[2..2 + k], nearby, c)
    {
      hide Dist, Away;
      forall j | 2 <= j < 2 + k
        ensures Dist(p[j], nearby) == 0 <==> p[j] == nearby
        ensures nearby < HALF && p[j] < HALF ==> Dist(p[j], nearby) == Away(p[j], nearby)
      {
        DistZero(p[j], nearby);
        if nearby < HALF && p[j] < HALF { DistIsAway(p[j], nearby); }
      }
      var leaves := p[2..2 + k];
      assert forall j :: 0 <= j < k ==> leaves[j] == p[2 + j];
    }

    /**
      Which of the k leaves of a trunk page to look at: the first that is at most nearby in mode LE, otherwise the
      first of those closest to nearby.
     */
    method ClosestLeaf(p: Page, k: nat, nearby: nat, mode: Mode) returns (closest: nat)
      requires 0 < k && k + 2 <= |p| && nearby < U32 && PageOk(p, layout)
      ensures closest < k
      ensures mode == LE && nearby > 0 ==> p[2 + closest] <= nearby || forall i :: 2 <= i < 2 + k ==> p[i] > nearby
      ensures mode != LE && nearby > 0 ==> p[2 + closest] == nearby || forall i :: 2 <= i < 2 + k ==> p[i] != nearby
      ensures nearby > 0 && Suits(p[2 + closest], nearby, mode) ==> NoneIn(p[2..2 + closest], nearby, mode)
      ensures mode != LE && nearby < HALF && (forall i :: 2 <= i < 2 + k ==> p[i] < HALF) ==>
        Nearest(p[2..2 + k], nearby, closest)
    {
      closest := 0;
      if nearby > 0 {
        if mode == LE {
          var i := 0;
          while i < k
            invariant i <= k && closest == 0 && forall j :: 2 <= j < 2 + i ==> p[j] > nearby
          {
            if p[2 + i] <= nearby {
              closest := i;
              break;
            }
            i := i + 1;
          }
        } else {
          var dist := Dist(p[2], nearby);
          var i := 1;
          while i < k
            invariant 1 <= i <= k && closest < i && dist == Dist(p[2 + closest], nearby)
            invariant forall j :: 2 <= j < 2 + i ==> Dist(p[j], nearby) >= dist
            invariant forall j :: 2 <= j < 2 + closest ==> Dist(p[j], nearby) > dist
          {
            var d2 := Dist(p[2 + i], nearby);
            if d2 < dist {
              closest := i;
              dist := d2;
            }
            i := i + 1;
          }
          ClosestIs(p, k, nearby, closest);
        }
      }
    }

    /** The leaves of one trunk: the one to look at is taken if it suits. */
    method VisitLeaf(
        prev: nat, iTrunk: nat, k: nat, nearby: nat, mode: Mode, searchList: bool, ghost list: seq<Trunk>, ghost t: nat)
      returns (rc: Rc, pgno: nat, done: bool, ghost now: seq<Trunk>)
      requires PagesOk() && nearby < U32 && (searchList ==> nearby > 0 && mode != ANY) && (mode == LE ==> searchList)
      requires iTrunk in pages && 0 < k == pages[iTrunk][1] <= Words(layout) - 2 && nPage < HALF
      modifies this`pages
      ensures PagesOk() && (!done ==> pages == old(pages) && searchList && rc == OK)
      ensures rc == OK && done ==> pgno <= nPage
      ensures old(AtTrunk(pages, nPage, list, t, prev, iTrunk)) && done ==>
        rc == OK && Taken(old(pages), list, pgno, pages, now) && LeafPicked(list[t], nearby, mode, searchList, pgno)
      ensures !done ==> |pages[iTrunk]| >= 2 + k && NoneIn(pages[iTrunk][2..2 + k], nearby, mode)
    {
      OkAt(pages, nPage, layout, iTrunk);
      hide Ok, Chain, All, IsTrunk, Taken, One, Words;
      now := list;
      var closest := ClosestLeaf(pages[iTrunk], k, nearby, mode);
      var iPage := pages[iTrunk][2 + closest];
      LeafInFile(pages, nPage, list, t, prev, iTrunk, closest);
      LeafIsPicked(pages, nPage, list, t, prev, iTrunk, closest, nearby, mode, searchList);
      if iPage > nPage {
        return CORRUPT, 0, true, now;
      }
      if !searchList || iPage == nearby || (iPage < nearby && mode == LE) {
        now := TakeLeaf(prev, iTrunk, k, closest, list, t);
        return OK, iPage, true, now;
      }
      return OK, 0, false, now;
    }

    /**
      One trunk of the search.  If the page is found, it is taken and done is set; if nothing is searched
      for, it always is.
     */
    method Visit(prev: nat, iTrunk: nat, nearby: nat, mode: Mode, searchList: bool, ghost list: seq<Trunk>,
                 ghost t: nat)
      returns (rc: Rc, pgno: nat, done: bool, ghost now: seq<Trunk>)
      requires PagesOk() && nearby < U32 && (searchList ==> nearby > 0 && mode != ANY) && (mode == LE ==> searchList)
      requires iTrunk in pages && (prev != 0 ==> prev in pages) && nPage < HALF
      modifies this`pages
      ensures PagesOk() && (!done ==> pages == old(pages) && searchList && rc == OK)
      ensures rc == OK && done ==> pgno <= nPage
      ensures old(AtTrunk(pages, nPage, list, t, prev, iTrunk)) && done ==>
        rc == OK && Taken(old(pages), list, pgno, pages, now) && Picked(list[t], nearby, mode, searchList, pgno)
      ensures old(AtTrunk(pages, nPage, list, t, prev, iTrunk)) && !done ==> NoneOf(list[t], nearby, mode)
    {
      OkAt(pages, nPage, layout, iTrunk);
      TrunkFits(pages, nPage, list, t, prev, iTrunk);
      hide AtTrunk, Taken, Ok, NoneOf, NoneIn, Words, Picked, LeafPicked;
      now := list;
      var k := pages[iTrunk][1];
      if k == 0 && !searchList {
        TrunkIsPicked(pages, nPage, list, t, prev, iTrunk, nearby, mode, searchList);
        rc, now := TakeTrunk(prev, iTrunk, k, list, t);
        return rc, iTrunk, true, now;
      } else if k > Words(layout) - 2 {
        return CORRUPT, 0, true, now;
      } else if searchList && (nearby == iTrunk || (iTrunk < nearby && mode == LE)) {
        TrunkIsPicked(pages, nPage, list, t, prev, iTrunk, nearby, mode, searchList);
        rc, now := TakeTrunk(prev, iTrunk, k, list, t);
        return rc, iTrunk, true, now;
      } else if k > 0 {
        ghost var was := pages;
        rc, pgno, done, now := VisitLeaf(prev, iTrunk, k, nearby, mode, searchList, list, t);
        if done {
          LeafIsTaken(was, nPage, list, t, prev, iTrunk, nearby, mode, searchList, pgno);
          return;
        }
      }
      TrunkUnsuited(pages, nPage, list, t, prev, iTrunk, nearby, mode);
      return OK, 0, false, now;
    }

    /** One turn of the search, on a list of at most n trunks: the next trunk is looked up and visited. */
    method Turn(prev: nat, nSearch: nat, n: nat, nearby: nat, mode: Mode, search: bool, ghost list: seq<Trunk>)
      returns (rc: Rc, pgno: nat, done: bool, iTrunk: nat, ghost now: seq<Trunk>)
      requires PagesOk() && nearby < U32 && (search ==> nearby > 0 && mode != ANY) && (mode == LE ==> search)
      requires (prev != 0 ==> prev in pages) && nSearch <= n + 1 && (nSearch > 0 ==> search) && nPage < HALF
      modifies this`pages
      ensures PagesOk() && (!done ==> pages == old(pages) && iTrunk in pages && nSearch <= n && search)
      ensures rc == OK && done ==> pgno <= nPage
      ensures old(Sought(pages, nPage, list, nSearch, prev, nearby, mode)) && |list| <= n ==>
        if !done then Sought(pages, nPage, list, nSearch + 1, iTrunk, nearby, mode)
        else if rc == OK then Taken(old(pages), list, pgno, pages, now) && Chosen(list, nearby, mode, search, pgno)
        else NoneOfAll(list, nearby, mode) && (search || list == [])
    {
      hide Ok, Taken, Suits, NoneOf, NoneOfAll, AtTrunk, Before, Sought, Picked, Chosen;
      ghost var was := pages;
      SoughtBefore(pages, nPage, list, nSearch, prev, nearby, mode);
      now := list;
      var ok;
      ok, iTrunk := NextPage(prev, nSearch, n, list);
      if !ok {
        return CORRUPT, 0, true, iTrunk, now;
      }
      rc, pgno, done, now := Visit(prev, iTrunk, nearby, mode, search, list, nSearch);
      if done {
        SoughtChosen(was, nPage, list, nSearch, prev, iTrunk, nearby, mode, search, pgno);
      } else {
        SoughtOn(pages, nPage, list, nSearch, prev, iTrunk, nearby, mode);
      }
    }

    /** The search, trunk by trunk, on a list of at most n trunks. */
    method Search(nearby: nat, mode: Mode, search: bool, n: nat, ghost list: seq<Trunk>)
      returns (rc: Rc, pgno: nat, ghost now: seq<Trunk>)
      requires PagesOk() && nearby < U32 && (search ==> nearby > 0 && mode != ANY) && (mode == LE ==> search)
      requires nPage < HALF
      modifies this`pages
      ensures PagesOk() && (rc == OK ==> pgno <= nPage)
      ensures old(Before(pages, nPage, list, 0, 0)) && |list| <= n && rc == OK ==>
        Taken(old(pages), list, pgno, pages, now) && Chosen(list, nearby, mode, search, pgno)
      ensures old(Before(pages, nPage, list, 0, 0)) && |list| <= n && rc != OK ==>
        NoneOfAll(list, nearby, mode) && (search || list == [])
    {
      ghost var at, was := Before(pages, nPage, list, 0, 0) && |list| <= n, pages;
      hide Ok, Taken, Suits, NoneOfAll, Before, Sought, Chosen;
      SoughtStart(pages, nPage, list, nearby, mode);
      now := list;
      var prev, nSearch := 0, 0;
      while true
        invariant PagesOk() && nSearch <= n + 1 && pages == was && (prev != 0 ==> prev in pages)
        invariant nSearch > 0 ==> search
        invariant at ==> Sought(pages, nPage, list, nSearch, prev, nearby, mode)
        decreases n + 1 - nSearch
      {
        var done;
        rc, pgno, done, prev, now := Turn(prev, nSearch, n, nearby, mode, search, list);
        if done { return; }
        nSearch := nSearch + 1;
      }
    }

    /** The count of free pages goes down, and a page is taken out of the list. */
    method AllocateFromList(nearby: nat, mode: Mode, search: bool, ghost list: seq<Trunk>)
      returns (rc: Rc, pgno: nat, ghost now: seq<Trunk>)
      requires PagesOk() && nearby < U32 && (search ==> nearby > 0 && mode != ANY) && (mode == LE ==> search)
      requires pages[1][COUNT] > 0 && nPage < HALF
      modifies this`pages
      ensures PagesOk() && (rc == OK ==> pgno <= nPage)
      ensures old(Holding(list)) && rc == OK ==>
        Allocated(old(pages), list, pgno, pages, now) && Chosen(list, nearby, mode, search, pgno)
      ensures old(Holding(list)) && rc != OK ==>
        search && forall p :: p in All(list) ==> !Suits(p, nearby, mode)
    {
      OkAt(pages, nPage, layout, 1);
      var n := pages[1][COUNT];
      ghost var was := pages;
      CountedOk(pages[1], layout, n - 1);
      SearchStarts(pages, nPage, list);
      hide Chain, All, Ok, Taken, Allocated, Freelist, Suits, NoneOf, NoneOfAll, InFile, PageOk, Before, Counted;
      hide Chosen;
      Put(1, Counted(pages[1], n - 1));
      rc, pgno, now := Search(nearby, mode, search, n, list);
      SearchTook(was, list, pgno, pages, now);
      SearchFailed(was, list, nearby, mode);
    }

    /** The number of the next trunk, if it can be a page. */
    method NextPage(prev: nat, nSearch: nat, n: nat, ghost list: seq<Trunk>) returns (ok: bool, iTrunk: nat)
      requires PagesOk() && (prev != 0 ==> prev in pages) && nSearch <= n + 1
      ensures ok ==> iTrunk in pages && nSearch <= n
      ensures Before(pages, nPage, list, nSearch, prev) && |list| <= n ==>
        if ok then AtTrunk(pages, nPage, list, nSearch, prev, iTrunk) else nSearch == |list|
    {
      ghost var at := Before(pages, nPage, list, nSearch, prev) && |list| <= n;
      OkAt(pages, nPage, layout, prev);
      if at {
        NextTrunk(pages, list, nSearch);
        if nSearch > 0 { TrunkPage(pages[prev], list[nSearch - 1], No(list, nSearch)); }
        InFileAt(list, nSearch);
      }
      hide Chain, All, IsTrunk;
      iTrunk := if prev != 0 then pages[prev][0] else pages[1][FIRST];
      ok := !(iTrunk > nPage || nSearch > n || iTrunk !in pages);
    }

    lemma InFileAt(list: seq<Trunk>, t: nat)
      requires InFile(pages, nPage, All(list)) && PagesOk()
      ensures t < |list| ==> list[t].no in pages && list[t].no <= nPage
    {
      if t < |list| { AllSplit(list, t); }
    }

    /** The database grows by one page, leaving out that of the pending byte. */
    method Grow()
      requires PagesOk() && nPage < 0x7fff_ffff
      modifies this`pages, this`nPage
      ensures PagesOk() && nPage == (if old(nPage) + 1 == layout.pending then old(nPage) + 2 else old(nPage) + 1)
      ensures nPage !in old(pages) && pages == old(pages)[nPage := Repeat<nat>(Words(layout), 0)]
    {
      ZerosOk(layout);
      GrowOk(pages, nPage, layout, Repeat<nat>(Words(layout), 0));
      hide Ok;
      nPage := nPage + 1;
      if nPage == layout.pending { nPage := nPage + 1; }
      pages := pages[nPage := Repeat<nat>(Words(layout), 0)];
    }

    /** The database grows until its last page can be handed out. */
    method Extend()
      requires PagesOk() && nPage < 0x7fff_fff0
      modifies this`pages, this`nPage
      ensures PagesOk() && nPage > old(nPage) && nPage in pages && nPage !in old(pages)
      ensures Growable(nPage) && forall p :: old(nPage) < p < nPage ==> !Growable(p)
      ensures forall p :: p in old(pages) ==> p in pages && pages[p] == old(pages)[p]
    {
      hide Ok, Words;
      OkAt(pages, nPage, layout, 1);
      Grow();
      if autoVacuum && PtrMap.IsMap(layout, nPage) {
        NoMapBehind(layout, nPage);
        Grow();
      }
    }

    /** A new page behind the last, which is not that of the pending byte or, with auto-vacuum, a pointer map. */
    method Append() returns (pgno: nat)
      requires PagesOk() && nPage < 0x7fff_fff0
      modifies this`pages, this`nPage
      ensures PagesOk() && pgno == nPage > old(nPage) && pgno in pages && pgno !in old(pages)
      ensures Growable(pgno) && forall p :: old(nPage) < p < pgno ==> !Growable(p)
      ensures Grown(old(pages), pages, nPage)
    {
      OkAt(pages, nPage, layout, 1);
      ghost var was := pages;
      hide Ok, Words, PageOk, Growable, Sized;
      Extend();
      OkAt(pages, nPage, layout, 1);
      SizedOk(pages[1], layout, nPage);
      Put(1, Sized(pages[1], nPage));
      pgno := nPage;
    }

    /** Pages are new, and only the size in the header has changed. */
    static ghost predicate Grown(was: map<nat, Page>, now: map<nat, Page>, n: nat) {
      && (forall p :: p in was ==> p in now && (p != 1 ==> now[p] == was[p]))
      && 1 in was && |was[1]| > COUNT && now[1] == Sized(was[1], n)
    }

    /** A page that Append may hand out. */
    predicate Growable(p: nat) {
      p != layout.pending && !(autoVacuum && PtrMap.IsMap(layout, p))
    }

    /**
      allocateBtreePage.  freePage says whether the pointer map lists page nearby as free.
     */
    method Allocate(nearby: nat, mode: Mode, freePage: bool, ghost list: seq<Trunk>)
      returns (rc: Rc, pgno: nat, ghost now: seq<Trunk>)
      requires PagesOk() && nPage < 0x7fff_fff0 && nearby < U32 && (mode != ANY ==> nearby > 0)
      modifies this`pages, this`nPage
      ensures PagesOk() && (rc == OK ==> pgno <= nPage)
      ensures old(Holding(list) && MapTells(nPage, list, nearby, mode, freePage)) ==>
        if list == [] then
          && rc == OK && Freelist(pages, list) && pgno !in old(pages) && pgno in pages && Growable(pgno)
          && pgno == nPage > old(nPage) && Grown(old(pages), pages, nPage)
        else if mode == LE && forall p :: p in All(list) ==> p > nearby then rc == CORRUPT
        else
          && rc == OK && Allocated(old(pages), list, pgno, pages, now) && nPage == old(nPage)
          && (mode == EXACT && nearby in All(list) ==> pgno == nearby)
          && (mode == LE ==> pgno <= nearby && Chosen(list, nearby, LE, true, pgno))
          && (mode == ANY || (mode == EXACT && nearby !in All(list)) ==> Closest(list[0], nearby, pgno))
    {
      hide Chain, All, Allocated, Chosen, Closest;
      now := list;
      ghost var at := Holding(list);
      if at { FewFree(pages, list, nPage); }
      var n := pages[1][COUNT];
      if n >= nPage { return CORRUPT, 0, now; }
      if n > 0 {
        var searchList := false;
        if mode == EXACT {
          if nearby <= nPage && freePage { searchList := true; }
        } else if mode == LE {
          searchList := true;
        }
        ghost var was := pages;
        rc, pgno, now := AllocateFromList(nearby, mode, searchList, list);
        AllocatedIn(was, list, pgno, pages, now);
        if at && rc == OK { ChosenMeans(list, nearby, mode, searchList, pgno); }
      } else {
        ghost var was := pages;
        pgno := Append();
        rc := OK;
        if at { KeptChain(was, pages, list); }
      }
    }

    /** The page becomes a leaf of the first trunk. */
    method AddLeaf(iPage: nat, iTrunk: nat, ghost list: seq<Trunk>) returns (ghost now: seq<Trunk>)
      requires PagesOk() && 1 < iPage && iPage in pages && iTrunk in pages && pages[iTrunk][1] < Words(layout) - 8
      modifies this`pages
      ensures PagesOk()
      ensures old(Chain(pages, list)) && iPage !in All(list) && list != [] && iTrunk == list[0].no ==>
        && Added(old(pages), list, iPage, pages, now) && iPage in pages && Marked(old(pages)[iPage], pages[iPage])
        && now == Joined(list, iPage, Words(layout))
    {
      OkAt(pages, nPage, layout, iTrunk);
      OkAt(pages, nPage, layout, iPage);
      hide Chain, All, Ok, IsTrunk, PageOk, Untouched, Words, Longer;
      ghost var was, at := pages, Chain(pages, list) && iPage !in All(list) && list != [] && iTrunk == list[0].no;
      now := list;
      var q := Longer(pages[iTrunk], iPage);
      LongerOk(pages[iTrunk], layout, iPage);
      if at {
        TrunkAt(pages, list, 0);
        TrunkPage(pages[iTrunk], list[0], No(list, 1));
        now := list[0 := Trunk(list[0].no, list[0].leaves + [iPage])];
        assert now == Joined(list, iPage, Words(layout));
        LongerPage(pages[iTrunk], list[0], No(list, 1), iPage);
        LeafAdded(pages, list, iPage, q);
        UntouchedTwo(pages, All(now), iTrunk, q, iTrunk, q);
      }
      Put(iTrunk, q);
    }

    /** The page becomes the first trunk. */
    method AddTrunk(iPage: nat, iTrunk: nat, ghost list: seq<Trunk>) returns (ghost now: seq<Trunk>)
      requires PagesOk() && 1 < iPage && iPage in pages && iTrunk < U32
      modifies this`pages
      ensures PagesOk()
      ensures old(Chain(pages, list)) && iPage !in All(list) && iTrunk == No(list, 0) ==>
        && Added(old(pages), list, iPage, pages, now) && iPage in pages && Marked(old(pages)[iPage], pages[iPage])
        && now == [Trunk(iPage, [])] + list
    {
      OkAt(pages, nPage, layout, iPage);
      OkAt(pages, nPage, layout, 1);
      hide Chain, All, Ok, IsTrunk, PageOk, Added, Words;
      ghost var was, at := pages, Chain(pages, list) && iPage !in All(list) && iTrunk == No(list, 0);
      now := list;
      var q: Page := pages[iPage];
      PageOkSet(q, layout, 0, iTrunk);
      q := q[0 := iTrunk];
      PageOkSet(q, layout, 1, 0);
      q := q[1 := 0];
      AddedAsTrunk(pages, list, iPage, q);
      if at { now := [Trunk(iPage, [])] + list; }
      Put(iPage, q);
      PageOkSet(pages[1], layout, FIRST, iPage);
      Put(1, FirstSet(pages[1], iPage));
    }

    /** The page is in the file and has no more leaves than fit. */
    ghost predicate TrunkOk(p: nat)
      reads this
    {
      p in pages && |pages[p]| > 1 && pages[p][1] <= Words(layout) - 2
    }

    /** The part of freePage2 that links the page in. */
    method AddFree(iPage: nat, nFree: nat, ghost list: seq<Trunk>) returns (rc: Rc, ghost now: seq<Trunk>)
      requires PagesOk() && 1 < iPage && iPage in pages
      modifies this`pages
      ensures PagesOk()
      ensures old(Chain(pages, list)) && iPage !in All(list) && (nFree == 0 <==> list == []) ==>
        && rc == OK && Added(old(pages), list, iPage, pages, now) && now == Joined(list, iPage, Words(layout))
        && iPage in pages && Marked(old(pages)[iPage], pages[iPage])
      ensures rc == CORRUPT <==> nFree != 0 && !old(TrunkOk(pages[1][FIRST]))
      ensures rc == CORRUPT ==> pages == old(pages)
    {
      OkAt(pages, nPage, layout, 1);
      ghost var was, at := pages, Chain(pages, list) && iPage !in All(list) && (nFree == 0 <==> list == []);
      now := list;
      var iTrunk := 0;
      if at { NextTrunk(pages, list, 0); }
      hide Chain, All, Ok, IsTrunk, Added;
      if nFree != 0 {
        iTrunk := pages[1][FIRST];
        if at { TrunkAt(pages, list, 0); TrunkPage(pages[iTrunk], list[0], No(list, 1)); }
        if iTrunk !in pages {
          if at { assert false; }
          return CORRUPT, now;
        }
        OkAt(pages, nPage, layout, iTrunk);
        var nLeaf := pages[iTrunk][1];
        if nLeaf > Words(layout) - 2 {
          if at { assert false; }
          return CORRUPT, now;
        }
        if nLeaf < Words(layout) - 8 {
          now := AddLeaf(iPage, iTrunk, list);
          return OK, now;
        }
      }
      now := AddTrunk(iPage, iTrunk, list);
      return OK, now;
    }

    /** freePage2; secure says that deleted pages are overwritten with zeros. */
    method FreePage(iPage: nat, secure: bool, ghost list: seq<Trunk>) returns (rc: Rc, ghost now: seq<Trunk>)
      requires PagesOk() && (iPage >= 2 ==> iPage in pages)
      modifies this`pages
      ensures iPage < 2 ==> rc == CORRUPT && pages == old(pages)
      ensures PagesOk()
      ensures old(Holding(list)) && iPage >= 2 && iPage !in All(list) ==>
        && rc == OK && Freed(old(pages), list, iPage, pages, now) && iPage in pages
        && now == Joined(list, iPage, Words(layout))
        && Marked(if secure then Repeat(Words(layout), 0) else old(pages)[iPage], pages[iPage])
    {
      now := list;
      if iPage < 2 { return CORRUPT, now; }
      ghost var was, at := pages, Holding(list) && iPage !in All(list);
      if at { FewFree(pages, list, nPage); }
      OkAt(pages, nPage, layout, 1);
      var nFree := pages[1][COUNT];
      assert at ==> Chain(pages, list) && nFree + 1 < U32 && (nFree == 0 <==> list == []);
      hide Chain, All, Ok, Added, Freed, Freelist, Prepared, InFile, Words, PageOk, Counted;
      CountUp(iPage, secure, list);
      if at { PreparedChain(was, list, iPage, pages); }
      ghost var mid := pages;
      rc, now := AddFree(iPage, nFree, list);
      if at { AddedIsFreed(was, list, iPage, mid, pages, now); }
    }

    /** The first part of freePage2: the count of free pages goes up, and the page may be overwritten. */
    method CountUp(iPage: nat, secure: bool, ghost list: seq<Trunk>)
      requires PagesOk() && iPage >= 2 && iPage in pages
      modifies this`pages
      ensures PagesOk() && iPage in pages
      ensures pages[iPage] == if secure then Repeat(Words(layout), 0) else old(pages)[iPage]
      ensures old(Chain(pages, list)) && iPage !in All(list) && old(pages)[1][COUNT] + 1 < U32 ==>
        Prepared(old(pages), list, iPage, pages)
    {
      hide Chain, All, Ok, Words, PageOk, Counted, Prepared;
      OkAt(pages, nPage, layout, 1);
      var n := (pages[1][COUNT] + 1) % U32;
      CountedUp(pages, list, iPage, Repeat<nat>(Words(layout), 0));
      CountedOk(pages[1], layout, n);
      ZerosOk(layout);
      Put(1, Counted(pages[1], n));
      if secure {
        Put(iPage, Repeat<nat>(Words(layout), 0));
      }
    }
  }

  lemma TrunkAt(pages: map<nat, Page>, list: seq<Trunk>, t: nat)
    requires Chain(pages, list) && t < |list|
    ensures list[t].no in pages && IsTrunk(pages[list[t].no], list[t], No(list, t + 1))
    ensures list[t].no in All(list) && list[t].no != 1 && list[t].no != 0
  {
    Trunks(list, t, t);
  }

  lemma LeafInAll(list: seq<Trunk>, t: nat, x: nat)
    requires t < |list| && x in list[t].leaves
    ensures x in All(list)
  {
    assert x in One(list[t]);
    InSome(list, x);
  }

  lemma PromotedPage(p: Page, x: Trunk, next: nat, q: Page)
    requires IsTrunk(p, x, next) && x.leaves != []
    requires |q| == |p| && q[..1 + |x.leaves|] == [next, |x.leaves| - 1] + p[3..2 + |x.leaves|]
    ensures p[2] == x.leaves[0] && IsTrunk(q, Promoted(x), next)
  {
  }

  /** A trunk page without leaf c: the last leaf takes its place. */
  function Shorter(p: Page, c: nat): Page
    requires |p| > 1 && c < p[1] && 2 + p[1] <= |p|
  {
    var k := p[1];
    (if c < k - 1 then p[2 + c := p[1 + k]] else p)[1 := k - 1]
  }

  lemma ShorterOk(p: Page, b: PtrMap.Layout, c: nat)
    requires PageOk(p, b) && |p| > 1 && c < p[1] && 2 + p[1] <= |p|
    ensures PageOk(Shorter(p, c), b)
  {
  }

  lemma LeafPage(p: Page, x: Trunk, next: nat, c: nat)
    requires IsTrunk(p, x, next) && c < |x.leaves|
    ensures p[2 + c] == x.leaves[c] && IsTrunk(Shorter(p, c), WithoutLeaf(x, c), next)
  {
    var k := |x.leaves|;
    assert forall i :: 0 <= i < k ==> x.leaves[i] == p[2 + i];
    assert Shorter(p, c)[2..2 + (k - 1)] == WithoutLeaf(x, c).leaves;
  }

  lemma CountChain(pages: map<nat, Page>, list: seq<Trunk>, n: nat)
    requires Chain(pages, list)
    ensures Chain(pages[1 := Counted(pages[1], n)], list)
  {
    forall t | 0 <= t < |list| ensures list[t].no != 1 {
      Trunks(list, t, t);
    }
  }

  lemma NextTrunk(pages: map<nat, Page>, list: seq<Trunk>, t: nat)
    requires Chain(pages, list) && t <= |list|
    ensures t == 0 ==> pages[1][FIRST] == No(list, 0)
    ensures t > 0 ==>
      list[t - 1].no in pages && list[t - 1].no != 0 && IsTrunk(pages[list[t - 1].no], list[t - 1], No(list, t))
    ensures t < |list| ==> No(list, t) in pages && No(list, t) in All(list)
  {
    if t > 0 { Trunks(list, t - 1, t - 1); }
    if t < |list| { Trunks(list, t, t); }
  }

  /** The leaves of a trunk are pages of the database. */
  lemma LeafInFile(pages: map<nat, Page>, nPage: nat, list: seq<Trunk>, t: nat, prev: nat, iTrunk: nat, c: nat)
    ensures AtTrunk(pages, nPage, list, t, prev, iTrunk) && c < |list[t].leaves| ==>
      && iTrunk in pages && 2 + c < |pages[iTrunk]|
      && pages[iTrunk][1] == |list[t].leaves| && pages[iTrunk][2 + c] <= nPage
  {
    hide All, IsTrunk;
    if AtTrunk(pages, nPage, list, t, prev, iTrunk) && c < |list[t].leaves| {
      TrunkAt(pages, list, t);
      TrunkPage(pages[iTrunk], list[t], No(list, t + 1));
      LeafAt(pages[iTrunk], list[t], No(list, t + 1), c);
      LeafInAll(list, t, pages[iTrunk][2 + c]);
    }
  }

  lemma LeafAt(p: Page, x: Trunk, next: nat, c: nat)
    requires IsTrunk(p, x, next) && c < |x.leaves|
    ensures p[2 + c] == x.leaves[c] && p[2 + c] in x.leaves
  {
    assert p[2..2 + |x.leaves|][c] == p[2 + c];
  }

  /** The search failed behind the last trunk, and none of the pages suits. */
  lemma NoneSuits(list: seq<Trunk>, nearby: nat, mode: Mode, n: nat)
    requires |All(list)| == n > 0 && NoneOfAll(list, nearby, mode)
    ensures list != [] && forall p :: p in All(list) ==> !Suits(p, nearby, mode)
  {
    forall p | p in All(list) ensures !Suits(p, nearby, mode) {
      InSome(list, p);
    }
  }

  /** A trunk was looked at and left: none of its pages suits. */
  lemma Unsuited(p: Page, x: Trunk, next: nat, nearby: nat, mode: Mode)
    requires IsTrunk(p, x, next) && !Suits(x.no, nearby, mode)
    requires x.leaves != [] ==> NoneIn(p[2..2 + |x.leaves|], nearby, mode)
    ensures NoneOf(x, nearby, mode)
  {
    forall y | y in One(x) ensures !Suits(y, nearby, mode) {
      if y != x.no {
        var i :| 0 <= i < |x.leaves| && x.leaves[i] == y;
      }
    }
  }

  lemma TrunkFits(pages: map<nat, Page>, nPage: nat, list: seq<Trunk>, t: nat, prev: nat, iTrunk: nat)
    ensures AtTrunk(pages, nPage, list, t, prev, iTrunk) ==>
      t < |list| && iTrunk in pages && |pages[iTrunk]| >= 2 && pages[iTrunk][1] + 2 <= |pages[iTrunk]|
  {
    hide All, IsTrunk;
    if AtTrunk(pages, nPage, list, t, prev, iTrunk) {
      TrunkAt(pages, list, t);
      TrunkPage(pages[iTrunk], list[t], No(list, t + 1));
    }
  }

  lemma TrunkUnsuited(
      pages: map<nat, Page>, nPage: nat, list: seq<Trunk>, t: nat, prev: nat, iTrunk: nat, nearby: nat, mode: Mode)
    requires iTrunk in pages && |pages[iTrunk]| >= 2 && pages[iTrunk][1] + 2 <= |pages[iTrunk]|
    requires !Suits(iTrunk, nearby, mode)
    requires pages[iTrunk][1] > 0 ==> NoneIn(pages[iTrunk][2..2 + pages[iTrunk][1]], nearby, mode)
    ensures AtTrunk(pages, nPage, list, t, prev, iTrunk) ==> t < |list| && NoneOf(list[t], nearby, mode)
  {
    hide All, IsTrunk, Suits, NoneIn, NoneOf;
    if AtTrunk(pages, nPage, list, t, prev, iTrunk) {
      TrunkAt(pages, list, t);
      TrunkPage(pages[iTrunk], list[t], No(list, t + 1));
      Unsuited(pages[iTrunk], list[t], No(list, t + 1), nearby, mode);
    }
  }

  function Sized(p: Page, n: nat): (q: Page)
    requires |p| > COUNT
    ensures |q| == |p| && q[SIZE] == n && q[FIRST] == p[FIRST] && q[COUNT] == p[COUNT]
    ensures forall i :: 0 <= i < |p| && i != SIZE ==> q[i] == p[i]
  {
    p[SIZE := n]
  }

  /** The page behind a pointer-map page is not one; nor is the next, if the pending byte lies between. */
  lemma NoMapBehind(b: PtrMap.Layout, n: nat)
    requires b.Valid() && n > 0 && PtrMap.IsMap(b, n)
    ensures n >= 2 && !PtrMap.IsMap(b, if n + 1 == b.pending then n + 2 else n + 1)
  {
    assert n >= 2;
    var d, m := b.Entries() + 1, if n + 1 == b.pending then n + 2 else n + 1;
    PtrMap.MapPlace(b, n);
    PtrMap.MapPlace(b, m);
    hide PtrMap.IsMap, PtrMap.Layout.Entries;
    if n - 1 == b.pending && (n - 3) % d == 0 {
      var g, r := Divide(n - 3, d);
      Quotient(m - 2, d, g, 2);
    } else {
      var g, r := Divide(n - 2, d);
      Quotient(m - 2, d, g, m - n);
      Quotient(m - 3, d, g, m - n - 1);
    }
  }

  lemma KeptChain(was: map<nat, Page>, now: map<nat, Page>, list: seq<Trunk>)
    requires Freelist(was, list) && 1 in now && |now[1]| > COUNT
    requires forall p :: p in was ==> p in now && (p != 1 ==> now[p] == was[p])
    requires now[1][FIRST] == was[1][FIRST] && now[1][COUNT] == was[1][COUNT]
    ensures Freelist(now, list)
  {
    forall t | 0 <= t < |list| ensures list[t].no != 1 && list[t].no in was {
      TrunkAt(was, list, t);
    }
  }

  /** A freelist without repeated pages is shorter than the database. */
  lemma FewFree(pages: map<nat, Page>, list: seq<Trunk>, nPage: nat)
    requires Freelist(pages, list) && nPage > 0 && forall p :: p in All(list) ==> p <= nPage
    ensures |All(list)| < nPage && (|All(list)| == 0 <==> list == [])
  {
    FewTrunks(list);
    Below(All(list), nPage);
  }

  lemma {:induction false} Below(m: multiset<nat>, n: nat)
    requires NoRepeats(m) && n > 0 && forall p :: p in m ==> 1 < p <= n
    ensures |m| < n
    decreases n
  {
    if n == 1 {
      assert m == multiset{};
    } else if n in m {
      StillNoRepeats(m, n);
      Below(m - multiset{n}, n - 1);
    } else {
      Below(m, n - 1);
    }
  }

  lemma TrunkPage(p: Page, x: Trunk, next: nat)
    requires IsTrunk(p, x, next)
    ensures p[0] == next && p[1] == |x.leaves| && |p| >= 2 + |x.leaves|
    ensures x.leaves != [] ==> p[2] == x.leaves[0] && p[2] in x.leaves
  {
    assert x.leaves != [] ==> p[2..2 + |x.leaves|][0] == p[2];
  }

  /** It does not matter whether the promoted page or the link to it is written first. */
  lemma PromotedLater(pages: map<nat, Page>, list: seq<Trunk>, t: nat, v: nat, q: Page)
    requires Chain(pages, list) && t < |list| && list[t].leaves != [] && v == list[t].leaves[0] && v in pages
    ensures Chain(pages[v := q], list) && SetLink(pages[v := q], list, t, v) == SetLink(pages, list, t, v)[v := q]
  {
    hide All, IsTrunk;
    assert v in One(list[t]);
    InSome(list, v);
    forall s | 0 <= s < |list| ensures list[s].no != v && list[s].no != 1 {
      Apart(list, t, s, v);
      Trunks(list, s, s);
    }
  }

  lemma LinkUntouched(pages: map<nat, Page>, list: seq<Trunk>, t: nat, v: nat)
    requires Chain(pages, list) && t <= |list|
    ensures Untouched(pages, SetLink(pages, list, t, v), All(list))
  {
    hide All;
    if t > 0 { Trunks(list, t - 1, t - 1); }
  }

  lemma OtherPage(pages: map<nat, Page>, list: seq<Trunk>, x: nat, q: Page)
    requires Chain(pages, list) && x !in All(list) && x != 1
    ensures Chain(pages[x := q], list)
  {
    forall t | 0 <= t < |list| ensures list[t].no != x {
      Trunks(list, t, t);
    }
  }

  /** A trunk page with one more leaf. */
  function Longer(p: Page, v: nat): Page
    requires |p| > 1 && 2 + p[1] < |p|
  {
    p[1 := p[1] + 1][2 + p[1] := v]
  }

  lemma LongerOk(p: Page, b: PtrMap.Layout, v: nat)
    requires PageOk(p, b) && |p| > 1 && 2 + p[1] < |p| && v < U32 && p[1] + 1 < U32
    ensures PageOk(Longer(p, v), b)
  {
  }

  lemma LongerPage(p: Page, x: Trunk, next: nat, v: nat)
    requires IsTrunk(p, x, next) && 2 + |x.leaves| < |p|
    ensures IsTrunk(Longer(p, v), Trunk(x.no, x.leaves + [v]), next)
  {
    assert Longer(p, v)[2..2 + (|x.leaves| + 1)] == p[2..2 + |x.leaves|] + [v];
  }

  lemma EmptyTrunkPage(q: Page, no: nat, next: nat)
    requires |q| >= 2 && q[0] == next && q[1] == 0
    ensures IsTrunk(q, Trunk(no, []), next)
  {
  }

  lemma AddedAsTrunk(pages: map<nat, Page>, list: seq<Trunk>, x: nat, q: Page)
    requires 1 in pages && |pages[1]| > COUNT && x in pages && x > 1 && |q| >= 2 && q[1] == 0
    ensures Chain(pages, list) && x !in All(list) && q[0] == No(list, 0) ==>
      Added(pages, list, x, pages[x := q][1 := FirstSet(pages[1], x)], [Trunk(x, [])] + list)
  {
    hide All, Chain, Untouched, IsTrunk;
    if Chain(pages, list) && x !in All(list) && q[0] == No(list, 0) {
      EmptyTrunkPage(q, x, No(list, 0));
      TrunkAdded(pages, list, x, q);
      UntouchedTwo(pages, All([Trunk(x, [])] + list), x, q, 1, FirstSet(pages[1], x));
    }
  }

  lemma PreparedChain(was: map<nat, Page>, list: seq<Trunk>, p: nat, mid: map<nat, Page>)
    requires Prepared(was, list, p, mid)
    ensures Chain(mid, list)
  {
  }

  lemma AllocatedIn(was: map<nat, Page>, list: seq<Trunk>, p: nat, pages: map<nat, Page>, now: seq<Trunk>)
    ensures Allocated(was, list, p, pages, now) ==> p in All(list)
  {
  }

  lemma SearchStarts(pages: map<nat, Page>, nPage: nat, list: seq<Trunk>)
    requires 1 in pages && |pages[1]| > COUNT && pages[1][COUNT] > 0
    ensures Freelist(pages, list) && InFile(pages, nPage, All(list)) ==>
      Before(pages[1 := Counted(pages[1], pages[1][COUNT] - 1)], nPage, list, 0, 0) && |list| <= pages[1][COUNT]
  {
    hide Chain, All, Counted;
    if Freelist(pages, list) && InFile(pages, nPage, All(list)) {
      CountChain(pages, list, pages[1][COUNT] - 1);
      FewTrunks(list);
    }
  }

  lemma SearchTook(was: map<nat, Page>, list: seq<Trunk>, p: nat, pages: map<nat, Page>, now: seq<Trunk>)
    requires 1 in was && |was[1]| > COUNT && was[1][COUNT] > 0
    ensures Freelist(was, list) && Taken(was[1 := Counted(was[1], was[1][COUNT] - 1)], list, p, pages, now) ==>
      Allocated(was, list, p, pages, now)
  {
    hide Taken, Allocated, Chain, All, Counted;
    if Freelist(was, list) && Taken(was[1 := Counted(was[1], was[1][COUNT] - 1)], list, p, pages, now) {
      TakenIsAllocated(was, list, p, pages, now);
    }
  }

  lemma SearchFailed(was: map<nat, Page>, list: seq<Trunk>, nearby: nat, mode: Mode)
    requires 1 in was && |was[1]| > COUNT && was[1][COUNT] > 0
    ensures Freelist(was, list) && NoneOfAll(list, nearby, mode) ==>
      list != [] && forall p :: p in All(list) ==> !Suits(p, nearby, mode)
  {
    hide Chain, All, NoneOfAll;
    if Freelist(was, list) && NoneOfAll(list, nearby, mode) {
      NoneSuits(list, nearby, mode, |All(list)|);
    }
  }

  /** The search stands before the t-th trunk, and none of the pages before suits. */
  ghost predicate Sought(pages: map<nat, Page>, nPage: nat, list: seq<Trunk>, t: nat, prev: nat, nearby: nat,
                         mode: Mode) {
    Before(pages, nPage, list, t, prev) && NoneOfAll(list[..t], nearby, mode)
  }

  lemma SoughtChosen(
      pages: map<nat, Page>, nPage: nat, list: seq<Trunk>, t: nat, prev: nat, iTrunk: nat, nearby: nat, mode: Mode,
      search: bool, p: nat)
    requires t > 0 ==> search
    ensures Sought(pages, nPage, list, t, prev, nearby, mode) && AtTrunk(pages, nPage, list, t, prev, iTrunk) ==>
      Picked(list[t], nearby, mode, search, p) ==> Chosen(list, nearby, mode, search, p)
  {
    hide Chain, All, InFile, Picked, NoneOfAll, Chosen;
    if Sought(pages, nPage, list, t, prev, nearby, mode) && t < |list| && Picked(list[t], nearby, mode, search, p) {
      ChosenAt(list, t, nearby, mode, search, p);
    }
  }

  /** The leaf that was looked at is the one to pick. */
  ghost predicate LeafPicked(x: Trunk, nearby: nat, mode: Mode, search: bool, p: nat) {
    if search
    then
      && Suits(p, nearby, mode)
      && exists i :: 0 <= i < |x.leaves| && p == x.leaves[i] && NoneIn(x.leaves[..i], nearby, mode)
    else x.leaves != [] && Closest(x, nearby, p)
  }

  lemma LeafIsPicked(
      pages: map<nat, Page>, nPage: nat, list: seq<Trunk>, t: nat, prev: nat, iTrunk: nat, c: nat, nearby: nat,
      mode: Mode, search: bool)
    requires iTrunk in pages && |pages[iTrunk]| >= 2 && c < pages[iTrunk][1] <= |pages[iTrunk]| - 2 && nPage < HALF
    requires search && Suits(pages[iTrunk][2 + c], nearby, mode) ==> NoneIn(pages[iTrunk][2..2 + c], nearby, mode)
    requires !search && nearby < HALF && (forall i :: 2 <= i < 2 + pages[iTrunk][1] ==> pages[iTrunk][i] < HALF) ==>
      Nearest(pages[iTrunk][2..2 + pages[iTrunk][1]], nearby, c)
    ensures AtTrunk(pages, nPage, list, t, prev, iTrunk) && (search ==> Suits(pages[iTrunk][2 + c], nearby, mode)) ==>
      LeafPicked(list[t], nearby, mode, search, pages[iTrunk][2 + c])
  {
    hide All, Nearest, NoneIn, Suits, IsTrunk, LeafPicked;
    if AtTrunk(pages, nPage, list, t, prev, iTrunk) && (search ==> Suits(pages[iTrunk][2 + c], nearby, mode)) {
      TrunkAt(pages, list, t);
      TrunkPage(pages[iTrunk], list[t], No(list, t + 1));
      LeavesAre(pages[iTrunk], list[t], No(list, t + 1), c);
      SmallLeaves(pages, nPage, list, t);
      PickedIn(list[t], c, nearby, mode, search);
    }
  }

  lemma LeavesAre(p: Page, x: Trunk, next: nat, c: nat)
    requires IsTrunk(p, x, next) && c < |x.leaves|
    ensures x.leaves == p[2..2 + |x.leaves|] && x.leaves[..c] == p[2..2 + c] && x.leaves[c] == p[2 + c]
    ensures (forall i :: 0 <= i < |x.leaves| ==> x.leaves[i] < HALF) ==>
      forall i :: 2 <= i < 2 + |x.leaves| ==> p[i] < HALF
  {
    if forall i :: 0 <= i < |x.leaves| ==> x.leaves[i] < HALF {
      forall i | 2 <= i < 2 + |x.leaves| ensures p[i] < HALF {
        assert x.leaves[i - 2] == p[i];
      }
    }
  }

  lemma SmallLeaves(pages: map<nat, Page>, nPage: nat, list: seq<Trunk>, t: nat)
    requires InFile(pages, nPage, All(list)) && t < |list| && nPage < HALF
    ensures forall i :: 0 <= i < |list[t].leaves| ==> list[t].leaves[i] < HALF
  {
    hide All;
    forall i | 0 <= i < |list[t].leaves| ensures list[t].leaves[i] < HALF {
      LeafInAll(list, t, list[t].leaves[i]);
    }
  }

  lemma PickedIn(x: Trunk, c: nat, nearby: nat, mode: Mode, search: bool)
    requires c < |x.leaves|
    requires if search then Suits(x.leaves[c], nearby, mode) && NoneIn(x.leaves[..c], nearby, mode)
             else nearby < HALF ==> Nearest(x.leaves, nearby, c)
    ensures LeafPicked(x, nearby, mode, search, x.leaves[c])
  {
    hide Nearest, NoneIn, Suits;
  }

  lemma TrunkIsPicked(
      pages: map<nat, Page>, nPage: nat, list: seq<Trunk>, t: nat, prev: nat, iTrunk: nat, nearby: nat, mode: Mode,
      search: bool)
    requires iTrunk in pages && |pages[iTrunk]| >= 2
    requires if search then Suits(iTrunk, nearby, mode) else pages[iTrunk][1] == 0
    ensures AtTrunk(pages, nPage, list, t, prev, iTrunk) ==> Picked(list[t], nearby, mode, search, iTrunk)
  {
    hide All, IsTrunk, Suits;
    if AtTrunk(pages, nPage, list, t, prev, iTrunk) {
      TrunkAt(pages, list, t);
      TrunkPage(pages[iTrunk], list[t], No(list, t + 1));
    }
  }

  lemma LeafIsTaken(
      pages: map<nat, Page>, nPage: nat, list: seq<Trunk>, t: nat, prev: nat, iTrunk: nat, nearby: nat, mode: Mode,
      search: bool, p: nat)
    requires search ==> !Suits(iTrunk, nearby, mode)
    ensures AtTrunk(pages, nPage, list, t, prev, iTrunk) && LeafPicked(list[t], nearby, mode, search, p) ==>
      Picked(list[t], nearby, mode, search, p)
  {
    hide Chain, All, Suits, NoneIn, Nearest;
  }

  lemma SoughtStart(pages: map<nat, Page>, nPage: nat, list: seq<Trunk>, nearby: nat, mode: Mode)
    ensures Before(pages, nPage, list, 0, 0) ==> Sought(pages, nPage, list, 0, 0, nearby, mode)
  {
  }

  lemma SoughtBefore(pages: map<nat, Page>, nPage: nat, list: seq<Trunk>, t: nat, prev: nat, nearby: nat, mode: Mode)
    ensures Sought(pages, nPage, list, t, prev, nearby, mode) ==> Before(pages, nPage, list, t, prev)
    ensures Sought(pages, nPage, list, t, prev, nearby, mode) && t == |list| ==> NoneOfAll(list, nearby, mode)
  {
    assert t == |list| ==> list[..t] == list;
  }

  lemma SoughtOn(pages: map<nat, Page>, nPage: nat, list: seq<Trunk>, t: nat, prev: nat, iTrunk: nat, nearby: nat,
                 mode: Mode)
    ensures AtTrunk(pages, nPage, list, t, prev, iTrunk) && NoneOf(list[t], nearby, mode) ==>
      Sought(pages, nPage, list, t, prev, nearby, mode) ==> Sought(pages, nPage, list, t + 1, iTrunk, nearby, mode)
  {
    hide Chain, InFile, NoneOf;
    if t < |list| {
      assert forall s :: 0 <= s < t ==> list[..t + 1][s] == list[..t][s];
    }
  }

  lemma CountedUp(pages: map<nat, Page>, list: seq<Trunk>, p: nat, z: Page)
    requires 1 in pages && |pages[1]| > COUNT && p in pages
    ensures Chain(pages, list) && p !in All(list) && p != 1 && pages[1][COUNT] + 1 < U32 ==>
      var mid := pages[1 := Counted(pages[1], (pages[1][COUNT] + 1) % U32)];
      Prepared(pages, list, p, mid) && Prepared(pages, list, p, mid[p := z])
  {
    hide All, Chain, Counted, Prepared;
    if Chain(pages, list) && p !in All(list) && p != 1 && pages[1][COUNT] + 1 < U32 {
      SmallMod(pages[1][COUNT] + 1);
      HeaderPrepared(pages, list, p);
      PagePrepared(pages, pages[1 := Counted(pages[1], pages[1][COUNT] + 1)], list, p, z);
    }
  }

  lemma HeaderPrepared(pages: map<nat, Page>, list: seq<Trunk>, p: nat)
    requires Chain(pages, list)
    ensures Prepared(pages, list, p, pages[1 := Counted(pages[1], pages[1][COUNT] + 1)])
  {
    hide All, NoRepeats, Linked, HeaderKept, Untouched, Counted;
    CountChain(pages, list, pages[1][COUNT] + 1);
    CountedHeader(pages[1], pages[1][COUNT] + 1);
    UntouchedHeader(pages, Counted(pages[1], pages[1][COUNT] + 1), multiset{p});
  }

  lemma PagePrepared(was: map<nat, Page>, mid: map<nat, Page>, list: seq<Trunk>, p: nat, z: Page)
    requires Prepared(was, list, p, mid) && p !in All(list) && p != 1 && p in mid
    ensures Prepared(was, list, p, mid[p := z])
  {
    hide All, Chain, Untouched;
    OtherPage(mid, list, p, z);
    UntouchedThen(was, mid, multiset{p}, p, z);
  }
}
