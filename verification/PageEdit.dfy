/**
  editPage: a page is made to hold a run of the cell array, with as little moving of bytes as possible.
 */
module PageEdit {

  import opened Basics
  import opened PageSpace
  import opened PageFreeSpace
  import opened PageFindSlot
  import opened PageSlot
  import opened PageDefragment
  import opened PageAllocator
  import opened PageCells

  /**
    The state of the work on a page: its free blocks, the cells in the content area that the header knows of, and
    the cells that lie in front of it.
   */
  datatype Work = Work(fb: seq<Span>, used: seq<Span>, gap: seq<Span>) {
    function All(): seq<Span> { used + gap }
  }

  /** The cells in front of the content area fill the bytes from pData on; the pointers will end at begin. */
  ghost predicate Edited(d: seq<byte>, first: nat, begin: nat, usable: nat, pData: nat, w: Work) {
    && Tidy(d, 0, first, usable, w.fb, w.used)
    && 8 <= begin <= pData <= Top(d, 0) && Used(w.gap, pData, Top(d, 0)) && Total(w.gap) == Top(d, 0) - pData
  }

  lemma EditedTidy(d: seq<byte>, first: nat, begin: nat, usable: nat, pData: nat, w: Work)
    requires Edited(d, first, begin, usable, pData, w)
    ensures Tidy(d, 0, first, usable, w.fb, w.used)
  {
  }

  lemma EditedBounds(d: seq<byte>, first: nat, begin: nat, usable: nat, pData: nat, w: Work)
    requires Edited(d, first, begin, usable, pData, w)
    ensures 8 <= first <= Top(d, 0) <= usable <= |d| && usable <= 65536 && 8 <= begin <= pData <= Top(d, 0)
    ensures (d[1] == 0 && d[2] == 0) <==> w.fb == []
  {
    assert PtrAddr(0, w.fb, 0) == 1;
  }

  /** Bytes between the header and the content area do not matter to what is in the content area. */
  lemma GapKeeps(d: seq<byte>, d': seq<byte>, first: nat, usable: nat, fb: seq<Span>, used: seq<Span>)
    requires Tidy(d, 0, first, usable, fb, used) && |d'| == |d|
    requires forall x :: 0 <= x < |d| && (1 <= x < 3 || 5 <= x < 8 || Top(d, 0) <= x) ==> d'[x] == d[x]
    ensures Tidy(d', 0, first, usable, fb, used) && Top(d', 0) == Top(d, 0)
  {
    hide Total, Used, ClearOf, Get2;
    SameHeader(d, d');
    forall k | 0 <= k <= |fb| ensures PtrAddr(0, fb, k) + 1 < |d| && Get2(d', PtrAddr(0, fb, k)) == OffsetOf(fb, k) {
      assert Get2(d, PtrAddr(0, fb, k)) == OffsetOf(fb, k);
      SameWord(d, d', PtrAddr(0, fb, k));
    }
    forall k | 0 <= k < |fb| ensures fb[k].off + 3 < |d| && Get2(d', fb[k].off + 2) == fb[k].size {
      SameWord(d, d', fb[k].off + 2);
    }
  }

  lemma SameHeader(d: seq<byte>, d': seq<byte>)
    requires 8 <= |d| == |d'| && forall x :: 5 <= x < 7 ==> d'[x] == d[x]
    ensures Top(d', 0) == Top(d, 0)
  {
  }

  lemma SameWord(d: seq<byte>, d': seq<byte>, i: nat)
    requires i + 1 < |d| == |d'| && d'[i] == d[i] && d'[i + 1] == d[i + 1]
    ensures Get2(d', i) == Get2(d, i)
  {
  }

  /** What is written in front of the cells changes nothing. */
  lemma EditedInFront(d: seq<byte>, d': seq<byte>, first: nat, begin: nat, usable: nat, pData: nat, w: Work)
    requires Edited(d, first, begin, usable, pData, w) && |d'| == |d|
    requires forall x :: 0 <= x < |d| && (1 <= x < 8 || pData <= x) ==> d'[x] == d[x]
    ensures Edited(d', first, begin, usable, pData, w)
  {
    hide Tidy, Used, Total, Top;
    EditedBounds(d, first, begin, usable, pData, w);
    GapKeeps(d, d', first, usable, w.fb, w.used);
  }

  /** What is written into one cell changes nothing else. */
  lemma EditedInCell(d: seq<byte>, d': seq<byte>, first: nat, begin: nat, usable: nat, pData: nat, w: Work, s: Span)
    requires Edited(d, first, begin, usable, pData, w) && s in w.All() && |d'| == |d|
    requires forall x :: 0 <= x < |d| && !Has(s, x) ==> d'[x] == d[x]
    ensures Edited(d', first, begin, usable, pData, w)
  {
    hide Tidy, Total, Top;
    EditedBounds(d, first, begin, usable, pData, w);
    if j :| 0 <= j < |w.used| && w.used[j] == s {
      TidyBounds(d, 0, first, usable, w.fb, w.used);
      ClearedTidy(d, d', 0, first, usable, w.fb, w.used, j);
      SameHeader(d, d');
    } else {
      assert s in w.gap;
      var j :| 0 <= j < |w.gap| && w.gap[j] == s;
      GapKeeps(d, d', first, usable, w.fb, w.used);
    }
  }

  /** Copy bytes to the page. */
  method CopyIn(p: MemPage, to: nat, text: seq<byte>)
    requires to + |text| <= p.aData.Length
    modifies p.aData
    ensures forall x :: 0 <= x < p.aData.Length ==>
      p.aData[x] == if to <= x < to + |text| then text[x - to] else old(p.aData[x])
  {
    for k := 0 to |text|
      invariant forall x :: 0 <= x < p.aData.Length ==>
        p.aData[x] == if to <= x < to + k then text[x - to] else old(p.aData[x])
    {
      p.aData[to + k] := text[k];
    }
  }

  /** A place for a cell: in a free block if that has room, otherwise in front of the content area. */
  method FindRoom(p: MemPage, begin: nat, pData: nat, sz: nat, ghost w: Work)
    returns (ok: bool, slot: nat, pData': nat, ghost w': Work)
    requires p.hdrOffset == 0 && 4 <= sz
    requires Edited(p.aData[..], p.CellFirst(), begin, p.usableSize, pData, w)
    modifies p.aData
    ensures Edited(p.aData[..], p.CellFirst(), begin, p.usableSize, pData', w')
    ensures Keeps(old(p.aData[..]), p.aData[..], begin, 0, 0, w.All())
    ensures Among(w.used, w'.used) && pData' <= pData
    ensures if ok then multiset(w'.All()) == multiset(w.All()) + multiset{Span(slot, sz)}
            else w' == w && pData' == pData && p.aData[..] == old(p.aData[..])
    ensures p.aData.Length > 7
    ensures var free := SlotIn(w.fb, sz, old(p.aData[7]) as nat);
      && (ok <==> free.Some? || sz <= pData - begin)
      && (ok ==> slot == if free.Some? then free.value else pData - sz)
  {
    hide Tidy, Total, Used, Keeps, SlotIn;
    ghost var d := p.aData[..];
    EditedBounds(d, p.CellFirst(), begin, p.usableSize, pData, w);
    KeepsAll(d, begin, w.All());
    NoSlot(sz, p.aData[7] as nat);
    var found: Option<nat> := None;
    w', pData' := w, pData;
    if !(p.aData[1] == 0 && p.aData[2] == 0) {
      var rc;
      ghost var fb';
      rc, found, fb' := p.FindSlot(sz, w.fb, w.used);
      if found.Some? {
        w' := Work(fb', w.used + [Span(found.value, sz)], w.gap);
        SlotFound(d, p.aData[..], p.CellFirst(), begin, p.usableSize, pData, w, w', Span(found.value, sz));
      }
    }
    if found.Some? {
      return true, found.value, pData', w';
    }
    if pData - begin < sz {
      return false, 0, pData', w';
    }
    pData' := pData - sz;
    w' := w.(gap := [Span(pData', sz)] + w.gap);
    GapGrows(d, p.CellFirst(), begin, p.usableSize, pData, w, sz);
    return true, pData', pData', w';
  }

  lemma KeepsAll(d: seq<byte>, begin: nat, spans: seq<Span>)
    ensures Keeps(d, d, begin, 0, 0, spans)
  {
  }

  lemma SlotFound(
      d: seq<byte>, d': seq<byte>, first: nat, begin: nat, usable: nat, pData: nat, w: Work, w': Work, s: Span)
    requires Edited(d, first, begin, usable, pData, w) && |d'| == |d|
    requires w'.used == w.used + [s] && w'.gap == w.gap && Tidy(d', 0, first, usable, w'.fb, w'.used)
    requires Top(d', 0) == Top(d, 0) && forall x :: 0 <= x < |d| && OutOfList(0, w.fb, x) ==> d'[x] == d[x]
    ensures Edited(d', first, begin, usable, pData, w')
    ensures Keeps(d, d', begin, 0, 0, w.All())
    ensures multiset(w'.All()) == multiset(w.All()) + multiset{s}
  {
    hide Total, Linked, Get2;
    assert w'.All() == w.used + [s] + w.gap;
    forall x: nat | x < |d| && Steady(x, begin, 0, 0, w.All()) ensures d'[x] == d[x] {
      SteadyOut(d, first, begin, usable, pData, w, x);
    }
  }

  /** Bytes of cells, and those in front of them, are in no free block. */
  lemma SteadyOut(d: seq<byte>, first: nat, begin: nat, usable: nat, pData: nat, w: Work, x: nat)
    requires Edited(d, first, begin, usable, pData, w) && Steady(x, begin, 0, 0, w.All())
    ensures OutOfList(0, w.fb, x)
  {
    hide Total, Linked, Get2;
    forall k | 0 <= k < |w.fb| ensures !Has(w.fb[k], x) {
      if i :| 0 <= i < |w.All()| && Has(w.All()[i], x) {
        if i < |w.used| {
          assert Apart(w.fb[k], w.used[i]);
        } else {
          assert w.All()[i] == w.gap[i - |w.used|];
        }
      }
    }
  }

  lemma GapGrows(d: seq<byte>, first: nat, begin: nat, usable: nat, pData: nat, w: Work, sz: nat)
    requires Edited(d, first, begin, usable, pData, w) && 4 <= sz <= pData - begin
    ensures var w' := w.(gap := [Span(pData - sz, sz)] + w.gap);
      && Edited(d, first, begin, usable, pData - sz, w')
      && multiset(w'.All()) == multiset(w.All()) + multiset{Span(pData - sz, sz)}
  {
    hide Tidy, Total;
    var s := Span(pData - sz, sz);
    var g := [s] + w.gap;
    TotalSingle(s);
    TotalAppend([s], w.gap);
    assert forall i :: 0 < i < |g| ==> g[i] == w.gap[i - 1];
    assert w.used + g == w.used + [s] + w.gap;
  }

  /** The cell is written into its place. */
  lemma CellWritten(
      d: seq<byte>, d1: seq<byte>, d2: seq<byte>, first: nat, begin: nat, usable: nat, pData: nat, pData': nat,
      w: Work, w': Work, s: Span, text: seq<byte>)
    requires Edited(d, first, begin, usable, pData, w) && Edited(d1, first, begin, usable, pData', w')
    requires Keeps(d, d1, begin, 0, 0, w.All()) && multiset(w'.All()) == multiset(w.All()) + multiset{s}
    requires s.size == |text| && |d2| == |d1| == |d| && s.End() <= |d|
    requires forall x :: 0 <= x < |d| ==> d2[x] == if Has(s, x) then text[x - s.off] else d1[x]
    ensures Edited(d2, first, begin, usable, pData', w') && Keeps(d, d2, begin, 0, 0, w.All()) && HoldsAt(d2, s, text)
    ensures begin <= s.off
  {
    hide Total, Tidy;
    assert s in multiset(w'.All());
    EditedInCell(d1, d2, first, begin, usable, pData', w', s);
    SpansInOrder(d1, first, begin, usable, pData', w');
    assert d2[s.off..s.End()] == text;
    forall x: nat | x < |d| && Steady(x, begin, 0, 0, w.All()) ensures d2[x] == d[x] {
      if i :| 0 <= i < |w.All()| && Has(w.All()[i], x) {
        NewApart(w'.All(), w.All(), s, w.All()[i]);
      }
      assert d1[x] == d[x];
    }
  }

  /** All cells together are apart, and lie behind the pointers. */
  lemma SpansInOrder(d: seq<byte>, first: nat, begin: nat, usable: nat, pData: nat, w: Work)
    requires Edited(d, first, begin, usable, pData, w)
    ensures Used(w.All(), pData, usable) && forall s :: s in w.All() ==> begin <= s.off && s.End() <= usable
  {
    hide Total, Linked, Get2;
    var all := w.All();
    forall i, j | 0 <= i < j < |all| ensures Apart(all[i], all[j]) {
      if i < |w.used| <= j { assert all[j] == w.gap[j - |w.used|]; }
      if |w.used| <= i { assert Apart(w.gap[i - |w.used|], w.gap[j - |w.used|]); }
    }
  }

  lemma NewApart(all: seq<Span>, was: seq<Span>, s: Span, x: Span)
    requires AllApart(all) && multiset(all) == multiset(was) + multiset{s} && s.size > 0 && x in was
    ensures Apart(s, x)
  {
    OnlyOnce(all, s);
    assert x in multiset(was) && s !in multiset(was);
    assert x in multiset(all) && s in multiset(all);
    var i :| 0 <= i < |all| && all[i] == s;
    var j :| 0 <= j < |all| && all[j] == x;
    ApartEitherWay(all, i, j);
  }

  /** One turn of pageInsertArray, but for the pointer. */
  method PlaceCell(p: MemPage, begin: nat, pData: nat, text: seq<byte>, ghost w: Work)
    returns (ok: bool, slot: nat, pData': nat, ghost w': Work)
    requires p.hdrOffset == 0 && 4 <= |text|
    requires Edited(p.aData[..], p.CellFirst(), begin, p.usableSize, pData, w)
    modifies p.aData
    ensures Edited(p.aData[..], p.CellFirst(), begin, p.usableSize, pData', w')
    ensures Keeps(old(p.aData[..]), p.aData[..], begin, 0, 0, w.All())
    ensures Among(w.used, w'.used)
    ensures if ok then multiset(w'.All()) == multiset(w.All()) + multiset{Span(slot, |text|)}
            else w' == w && pData' == pData && p.aData[..] == old(p.aData[..])
    ensures ok ==> HoldsAt(p.aData[..], Span(slot, |text|), text) && begin <= slot < 0x1_0000
  {
    hide Edited, Keeps, Work.All;
    ghost var d := p.aData[..];
    ok, slot, pData', w' := FindRoom(p, begin, pData, |text|, w);
    if !ok { return; }
    ghost var d1 := p.aData[..];
    ghost var s := Span(slot, |text|);
    RoomOnPage(d1, p.CellFirst(), begin, p.usableSize, pData', w', w, s);
    CopyIn(p, slot, text);
    CellWritten(d, d1, p.aData[..], p.CellFirst(), begin, p.usableSize, pData, pData', w, w', s, text);
  }

  lemma RoomOnPage(d: seq<byte>, first: nat, begin: nat, usable: nat, pData: nat, w': Work, w: Work, s: Span)
    requires Edited(d, first, begin, usable, pData, w') && multiset(w'.All()) == multiset(w.All()) + multiset{s}
    ensures begin <= s.off < 0x1_0000 && s.End() <= |d|
  {
    EditedBounds(d, first, begin, usable, pData, w');
    SpansInOrder(d, first, begin, usable, pData, w');
    assert s in multiset(w'.All());
  }

  /**
    pageInsertArray: cells with the given texts get places and, from pCellptr on, pointers.  If there is no room left,
    the first of them have been placed.
   */
  method InsertArray(p: MemPage, begin: nat, pData: nat, pCellptr: nat, texts: seq<seq<byte>>, ghost w: Work)
    returns (ok: bool, pData': nat, ghost w': Work, ghost slots: seq<Span>)
    requires p.hdrOffset == 0 && 8 <= pCellptr && pCellptr + 2 * |texts| <= begin
    requires forall t :: t in texts ==> 4 <= |t|
    requires Edited(p.aData[..], p.CellFirst(), begin, p.usableSize, pData, w)
    modifies p.aData
    ensures Edited(p.aData[..], p.CellFirst(), begin, p.usableSize, pData', w')
    ensures Keeps(old(p.aData[..]), p.aData[..], begin, pCellptr, pCellptr + 2 * |texts|, w.All())
    ensures Among(w.used, w'.used)
    ensures multiset(w'.All()) == multiset(w.All()) + multiset(slots)
    ensures ok ==> Holds(p.aData[..], slots, texts) && Pointed(p.aData[..], pCellptr, slots)
    ensures !ok ==> texts != []
  {
    hide Edited, Keeps, Holds, Pointed, Work.All;
    ghost var d := p.aData[..];
    ok, pData', w', slots := true, pData, w, [];
    EditedBounds(d, p.CellFirst(), begin, p.usableSize, pData, w);
    NothingPlaced(d, begin, pCellptr, |texts|, w);
    var i := 0;
    while i < |texts|
      invariant i <= |texts| && Edited(p.aData[..], p.CellFirst(), begin, p.usableSize, pData', w')
      invariant Keeps(d, p.aData[..], begin, pCellptr, pCellptr + 2 * |texts|, w.All())
      invariant Among(w.used, w'.used) && multiset(w'.All()) == multiset(w.All()) + multiset(slots)
      invariant Holds(p.aData[..], slots, texts[..i]) && Pointed(p.aData[..], pCellptr, slots) && |slots| == i
    {
      ghost var d1, w1 := p.aData[..], w';
      var slot;
      ok, slot, pData', w' := PlaceCell(p, begin, pData', texts[i], w');
      if !ok {
        return;
      }
      ghost var d2 := p.aData[..];
      p.Write2(pCellptr + 2 * i, slot);
      OneMorePlaced(d, d1, d2, p.aData[..], p.CellFirst(), begin, p.usableSize, pData', pCellptr, texts, w, w1, w',
                    slots, Span(slot, |texts[i]|));
      slots := slots + [Span(slot, |texts[i]|)];
      i := i + 1;
    }
    assert texts[..i] == texts;
  }

  lemma NothingPlaced(d: seq<byte>, begin: nat, at: nat, n: nat, w: Work)
    requires at <= |d|
    ensures Keeps(d, d, begin, at, at + 2 * n, w.All()) && Holds(d, [], []) && Pointed(d, at, [])
    ensures multiset(w.All()) == multiset(w.All()) + multiset([])
  {
  }

  lemma OneMorePlaced(
      d: seq<byte>, d1: seq<byte>, d2: seq<byte>, d3: seq<byte>, first: nat, begin: nat, usable: nat, pData: nat,
      at: nat,
      texts: seq<seq<byte>>, w: Work, w1: Work, w2: Work, slots: seq<Span>, s: Span)
    requires |slots| < |texts| && 8 <= at && at + 2 * |texts| <= begin
    requires Keeps(d, d1, begin, at, at + 2 * |texts|, w.All())
    requires multiset(w1.All()) == multiset(w.All()) + multiset(slots)
    requires Holds(d1, slots, texts[..|slots|]) && Pointed(d1, at, slots)
    requires Keeps(d1, d2, begin, 0, 0, w1.All()) && Edited(d2, first, begin, usable, pData, w2)
    requires multiset(w2.All()) == multiset(w1.All()) + multiset{s}
    requires HoldsAt(d2, s, texts[|slots|]) && s.off < 0x1_0000
    requires at + 2 * |slots| + 1 < |d2| && d3 == Put2(d2, at + 2 * |slots|, s.off)
    ensures Edited(d3, first, begin, usable, pData, w2)
    ensures Keeps(d, d3, begin, at, at + 2 * |texts|, w.All())
    ensures multiset(w2.All()) == multiset(w.All()) + multiset(slots + [s])
    ensures Holds(d3, slots + [s], texts[..|slots| + 1]) && Pointed(d3, at, slots + [s])
  {
    hide Edited, Keeps, Holds, Pointed, Work.All, Steady, Get2, Put2, Among;
    var n, q := |slots|, at + 2 * |slots|;
    SpansInOrder(d2, first, begin, usable, pData, w2);
    PointerKeeps(d2, d3, begin, q, s.off, w2.All());
    PointerInFront(d2, d3, first, begin, usable, pData, w2, q, s.off);
    Members(w.All(), slots, w1.All());
    Members(w1.All(), [s], w2.All());
    AmongSelf(w.All());
    BothAmong(slots, [s], w1.All(), w2.All());
    BothAmong(w.All(), [s], w1.All(), w2.All());
    KeepsOn(d, d1, d2, begin, at, at + 2 * |texts|, w.All(), at, at + 2 * |texts|, w.All(), 0, 0, w1.All());
    KeepsOn(d, d2, d3, begin, at, at + 2 * |texts|, w.All(), at, at + 2 * |texts|, w.All(), q, q + 2, w2.All());
    HoldsKept(d1, d2, begin, 0, 0, w1.All(), slots, texts[..n]);
    HoldsBoth(d2, slots, texts[..n], s, texts[n]);
    assert texts[..n + 1] == texts[..n] + [texts[n]];
    HoldsKept(d2, d3, begin, q, q + 2, w2.All(), slots + [s], texts[..n + 1]);
    PointedKept(d1, d2, begin, 0, 0, w1.All(), at, slots);
    PointedKept(d2, d3, begin, q, q + 2, w2.All(), at, slots);
    OnePointer(d2, d3, q, s);
    PointedParts(d3, at, slots, [s]);
  }

  lemma PointerKeeps(d: seq<byte>, d': seq<byte>, begin: nat, q: nat, v: nat, spans: seq<Span>)
    requires q + 1 < |d| && d' == Put2(d, q, v) && q + 2 <= begin && forall s :: s in spans ==> begin <= s.off
    ensures Keeps(d, d', begin, q, q + 2, spans)
  {
  }

  lemma PointerInFront(
      d: seq<byte>, d': seq<byte>, first: nat, begin: nat, usable: nat, pData: nat, w: Work, q: nat, v: nat)
    requires Edited(d, first, begin, usable, pData, w) && 8 <= q && q + 2 <= begin && q + 1 < |d| && d' == Put2(d, q, v)
    ensures Edited(d', first, begin, usable, pData, w)
  {
    EditedBounds(d, first, begin, usable, pData, w);
    hide Edited;
    EditedInFront(d, d', first, begin, usable, pData, w);
  }

  lemma Members(a: seq<Span>, b: seq<Span>, c: seq<Span>)
    requires multiset(c) == multiset(a) + multiset(b)
    ensures Among(a, c) && Among(b, c)
  {
    forall s | s in a || s in b ensures s in c {
      assert s in multiset(a) || s in multiset(b);
      assert s in multiset(c);
    }
  }

  lemma BothAmong(a: seq<Span>, b: seq<Span>, c: seq<Span>, d: seq<Span>)
    requires Among(a, c) && Among(c, d) && Among(b, d)
    ensures Among(a + b, d) && Among(a, d)
  {
  }

  lemma HoldsBoth(d: seq<byte>, spans: seq<Span>, ts: seq<seq<byte>>, s: Span, t: seq<byte>)
    requires Holds(d, spans, ts) && HoldsAt(d, s, t)
    ensures Holds(d, spans + [s], ts + [t])
  {
  }

  lemma OnePointer(d: seq<byte>, d': seq<byte>, q: nat, s: Span)
    requires q + 1 < |d| && d' == Put2(d, q, s.off) && s.off < 0x1_0000
    ensures Pointed(d', q, [s])
  {
    GetPut(d, q, s.off, q);
  }

  // ---- taking cells out

  /** Two spans next to each other are one. */
  lemma Merged(
      d: seq<byte>, hdr: nat, first: nat, usable: nat, fb: seq<Span>, pre: seq<Span>, a: Span, b: Span, post: seq<Span>)
    requires Tidy(d, hdr, first, usable, fb, pre + [a] + ([b] + post)) && b.End() == a.off
    ensures var m := Span(b.off, b.size + a.size);
      && Tidy(d, hdr, first, usable, fb, pre + [m] + post)
      && Total(pre + [m] + post) == Total(pre + [a] + ([b] + post))
  {
    hide Linked, Total, Sorted;
    var m, was := Span(b.off, b.size + a.size), pre + [a] + ([b] + post);
    var now, n := pre + [m] + post, |pre|;
    assert was[n] == a && was[n + 1] == b;
    MergedTotal(pre, a, b, post);
    assert forall k :: 0 <= k < |now| && k != n ==> now[k] == was[if k < n then k else k + 1];
    forall i, j | 0 <= i < j < |now| ensures Apart(now[i], now[j]) {
      if i == n {
        assert Apart(was[n], was[j + 1]) && Apart(was[n + 1], was[j + 1]);
      } else if j == n {
        assert Apart(was[i], was[n]) && Apart(was[i], was[n + 1]);
      } else {
        assert Apart(was[if i < n then i else i + 1], was[if j < n then j else j + 1]);
      }
    }
    forall i, j | 0 <= i < |fb| && 0 <= j < |now| ensures Apart(fb[i], now[j]) {
      if j == n {
        FreeApart(Top(d, hdr), usable, fb, i);
        assert Apart(fb[i], was[n]) && Apart(fb[i], was[n + 1]);
      } else {
        assert Apart(fb[i], was[if j < n then j else j + 1]);
      }
    }
  }

  lemma FreeApart(top: nat, usable: nat, fb: seq<Span>, i: nat)
    requires Sorted(fb, top, usable) && i < |fb|
    ensures fb[i].size >= 4
  {
  }

  lemma MergedTotal(pre: seq<Span>, a: Span, b: Span, post: seq<Span>)
    ensures Total(pre + [Span(b.off, b.size + a.size)] + post) == Total(pre + [a] + ([b] + post))
  {
    hide Total;
    var m := Span(b.off, b.size + a.size);
    TotalAppend(pre + [m], post);
    TotalAppend(pre, [m]);
    TotalAppend(pre + [a], [b] + post);
    TotalAppend(pre, [a]);
    TotalAppend([b], post);
    TotalSingle(m);
    TotalSingle(a);
    TotalSingle(b);
  }

  /** A run of bytes goes to the free list. */
  method FreeRun(p: MemPage, pFree: nat, szFree: nat, ghost fb: seq<Span>, ghost pre: seq<Span>, ghost rest: seq<Span>)
    returns (ghost fb': seq<Span>)
    requires p.hdrOffset == 0 && p.Valid(fb, pre + [Span(pFree, szFree)] + rest)
    modifies p`nFree, p.aData
    ensures p.Valid(fb', pre + rest)
    ensures Keeps(old(p.aData[..]), p.aData[..], p.CellFirst(), 0, 0, pre + rest)
  {
    hide Tidy, Kept, Keeps, Steady;
    ghost var d, used, j := p.aData[..], pre + [Span(pFree, szFree)] + rest, |pre|;
    assert Without(used, j, j + 1) == pre + rest;
    RestKept(d, p.CellFirst(), p.usableSize, fb, used, j);
    var rc;
    rc, fb' := p.FreeSpace(pFree, szFree, fb, used, j);
    KeepsIs(d, p.aData[..], p.CellFirst(), pre + rest);
  }

  lemma KeepsIs(d: seq<byte>, d': seq<byte>, first: nat, spans: seq<Span>)
    requires |d'| == |d| && forall x: nat :: x < |d| && Steady(x, first, 0, 0, spans) ==> d'[x] == d[x]
    ensures Keeps(d, d', first, 0, 0, spans)
  {
    hide Steady;
  }

  /** Freeing one span touches none of the bytes that have to stay. */
  lemma RestKept(d: seq<byte>, first: nat, usable: nat, fb: seq<Span>, used: seq<Span>, j: nat)
    requires Tidy(d, 0, first, usable, fb, used) && j < |used|
    ensures forall x: nat :: Steady(x, first, 0, 0, Without(used, j, j + 1)) ==> Kept(0, fb, used[j], x)
  {
    hide Linked, Total, Get2;
    forall x: nat | Steady(x, first, 0, 0, Without(used, j, j + 1)) ensures Kept(0, fb, used[j], x) {
      var rest := Without(used, j, j + 1);
      if i :| 0 <= i < |rest| && Has(rest[i], x) {
        var k := if i < j then i else i + 1;
        assert rest[i] == used[k];
        ApartEitherWay(used, k, j);
        forall f | 0 <= f < |fb| ensures !Has(fb[f], x) { assert Apart(fb[f], used[k]); }
      }
    }
  }

  /** The cells in the array from iFirst on that lie on the page go to the free list; neighbours go together. */
  method FreeArray(
      p: MemPage, iFirst: nat, nCell: nat, cells: seq<Cell>, ghost fb: seq<Span>, ghost pre: seq<Span>,
      ghost post: seq<Span>)
    returns (nRet: nat, ghost fb': seq<Span>)
    requires p.hdrOffset == 0 && iFirst + nCell <= |cells|
    requires p.Valid(fb, pre + Heres(cells[iFirst..iFirst + nCell]) + post)
    modifies p`nFree, p.aData
    ensures p.Valid(fb', pre + post) && nRet == |Heres(cells[iFirst..iFirst + nCell])|
    ensures Keeps(old(p.aData[..]), p.aData[..], p.CellFirst(), 0, 0, pre + post)
  {
    hide Tidy, Keeps, Steady, Heres, Total;
    var iEnd := iFirst + nCell;
    var pFree: nat, szFree: nat := 0, 0;
    nRet, fb' := 0, fb;
    ghost var d := p.aData[..];
    KeepsAll(d, p.CellFirst(), pre + post);
    NoHeres();
    assert cells[iFirst..iFirst] == [];
    assert pre + [] + (Heres(cells[iFirst..iEnd]) + post) == pre + Heres(cells[iFirst..iEnd]) + post;
    var i := iFirst;
    while i < iEnd
      invariant iFirst <= i <= iEnd && nRet == |Heres(cells[iFirst..i])|
      invariant p.Valid(fb', pre + Run(pFree, szFree) + (Heres(cells[i..iEnd]) + post))
      invariant Keeps(d, p.aData[..], p.CellFirst(), 0, 0, pre + post)
    {
      ghost var rest := Heres(cells[i + 1..iEnd]) + post;
      NextHere(cells, iFirst, i, iEnd);
      if cells[i].Here? {
        var pCell, sz := cells[i].span.off, cells[i].span.size;
        assert Heres(cells[i..iEnd]) + post == [Span(pCell, sz)] + rest;
        OnPageCell(p, fb', pre + Run(pFree, szFree), Span(pCell, sz), rest);
        if pFree != pCell + sz {
          if pFree != 0 {
            ghost var d1 := p.aData[..];
            fb' := FreeRun(p, pFree, szFree, fb', pre, [Span(pCell, sz)] + rest);
            KeepsOn(d, d1, p.aData[..], p.CellFirst(), 0, 0, pre + post, 0, 0, pre + post, 0, 0,
                    pre + ([Span(pCell, sz)] + rest));
          }
          assert pre + Run(pCell, sz) + rest == pre + ([Span(pCell, sz)] + rest) ==
            pre + [] + ([Span(pCell, sz)] + rest);
          pFree, szFree := pCell, sz;
          if pFree + sz > p.usableSize {
            assert false;
            return;
          }
        } else {
          Merged(p.aData[..], 0, p.CellFirst(), p.usableSize, fb', pre, Span(pFree, szFree), Span(pCell, sz), rest);
          pFree, szFree := pCell, szFree + sz;
        }
        nRet := nRet + 1;
      } else {
        assert Heres(cells[i..iEnd]) == Heres(cells[i + 1..iEnd]);
      }
      i := i + 1;
    }
    assert cells[iEnd..iEnd] == [];
    assert Heres([]) + post == post;
    if pFree != 0 {
      ghost var d1 := p.aData[..];
      fb' := FreeRun(p, pFree, szFree, fb', pre, post);
      KeepsOn(d, d1, p.aData[..], p.CellFirst(), 0, 0, pre + post, 0, 0, pre + post, 0, 0, pre + post);
    } else {
      assert pre + [] + post == pre + post;
    }
  }

  /** The bytes collected for the free list; none as long as pFree is 0. */
  function Run(pFree: nat, szFree: nat): seq<Span> {
    if pFree != 0 then [Span(pFree, szFree)] else []
  }

  lemma NoHeres()
    ensures Heres([]) == []
  {
  }

  lemma NextHere(cells: seq<Cell>, iFirst: nat, i: nat, iEnd: nat)
    requires iFirst <= i < iEnd <= |cells|
    ensures Heres(cells[i..iEnd]) == (if cells[i].Here? then [cells[i].span] else []) + Heres(cells[i + 1..iEnd])
    ensures |Heres(cells[iFirst..i + 1])| == |Heres(cells[iFirst..i])| + if cells[i].Here? then 1 else 0
  {
    assert cells[i..iEnd] == [cells[i]] + cells[i + 1..iEnd];
    HeresFirst(cells[i], cells[i + 1..iEnd]);
    assert cells[iFirst..i + 1] == cells[iFirst..i] + [cells[i]];
    HeresCat(cells[iFirst..i], [cells[i]]);
    HeresFirst(cells[i], []);
  }

  lemma OnPageCell(p: MemPage, fb: seq<Span>, pre: seq<Span>, s: Span, rest: seq<Span>)
    requires p.hdrOffset == 0 && p.Valid(fb, pre + ([s] + rest))
    ensures 0 < s.off && s.End() <= p.usableSize
  {
    hide Linked, Total;
    assert (pre + ([s] + rest))[|pre|] == s;
  }

  // ---- from scratch

  /** The sizes of cells, as spans. */
  function Shape(cells: seq<Cell>): (xs: seq<Span>)
    ensures |xs| == |cells| && forall i :: 0 <= i < |cells| ==> xs[i] == Span(0, SizeOfCell(cells[i]))
  {
    seq(|cells|, i requires 0 <= i < |cells| => Span(0, SizeOfCell(cells[i])))
  }

  /** No cell has less than 4 bytes. */
  predicate Sized(cells: seq<Cell>) {
    forall i :: 0 <= i < |cells| ==> SizeOfCell(cells[i]) >= 4
  }

  /** The cells have room on a page, pointers included. */
  ghost predicate Roomy(cells: seq<Cell>, cellOffset: nat, usable: nat) {
    cellOffset + 2 * |cells| + Total(Shape(cells)) <= usable && Sized(cells)
  }

  /** The cells that lie on the page lie in its content area. */
  ghost predicate Reachable(d: seq<byte>, usable: nat, cells: seq<Cell>)
    requires 8 <= |d|
  {
    forall i :: 0 <= i < |cells| && cells[i].Here? ==> Top(d, 0) <= cells[i].span.off && cells[i].span.End() <= usable
  }

  /** The first i cells are packed at the end of the page. */
  ghost predicate Packed(d: seq<byte>, d0: seq<byte>, cellOffset: nat, usable: nat, cells: seq<Cell>, xs: seq<Span>) {
    && |xs| <= |cells| && Roomy(cells, cellOffset, usable) && usable <= |d| == |d0|
    && (forall j :: 0 <= j < |xs| ==> xs[j] == PackedAt(Shape(cells), usable, j))
    && Holds(d, xs, Texts(d0, cells[..|xs|])) && Pointed(d, cellOffset, xs)
    && Keeps(d0, d, cellOffset, 0, 0, [])
  }

  /** One more cell and its pointer. */
  lemma PackOne(
      d: seq<byte>, d1: seq<byte>, d2: seq<byte>, d0: seq<byte>, cellOffset: nat, usable: nat, cells: seq<Cell>,
      xs: seq<Span>, text: seq<byte>)
    requires Packed(d, d0, cellOffset, usable, cells, xs) && |xs| < |cells| && 8 <= cellOffset && usable <= 0x1_0000
    requires text == TextOf(d0, cells[|xs|]) && |text| == SizeOfCell(cells[|xs|])
    requires var x, q := PackedAt(Shape(cells), usable, |xs|), cellOffset + 2 * |xs|;
      && q + 1 < |d| && d1 == Put2(d, q, x.off) && |d2| == |d1|
      && forall y :: 0 <= y < |d| ==> d2[y] == if x.off <= y < x.off + |text| then text[y - x.off] else d1[y]
    ensures Packed(d2, d0, cellOffset, usable, cells, xs + [PackedAt(Shape(cells), usable, |xs|)])
  {
    hide Total, Taking, Get2, Put2, PackedAt, Steady, Holds, Pointed, Shape, Keeps, Sized, Texts, TextOf;
    var n, q, x := |xs|, cellOffset + 2 * |xs|, PackedAt(Shape(cells), usable, |xs|);
    var begin := cellOffset + 2 * |cells|;
    BehindPacked(d, d0, cellOffset, usable, cells, xs);
    PackKeeps(d, d1, d2, begin, q, x, xs);
    HoldsKept(d, d2, begin, q, q + 2, xs, xs, Texts(d0, cells[..n]));
    assert d2[x.off..x.End()] == text;
    HoldsBoth(d2, xs, Texts(d0, cells[..n]), x, text);
    OneMoreText(d0, cells, n);
    PointedKept(d, d2, begin, q, q + 2, xs, cellOffset, xs);
    PointerThere(d, d1, d2, q, x);
    PointedParts(d2, cellOffset, xs, [x]);
    PackKeepsFront(d0, d, d2, cellOffset, begin, q, xs);
  }

  lemma OneMoreText(d0: seq<byte>, cells: seq<Cell>, n: nat)
    requires n < |cells|
    ensures Texts(d0, cells[..n + 1]) == Texts(d0, cells[..n]) + [TextOf(d0, cells[n])]
  {
  }

  /** The place of the next cell lies behind all pointers and in front of the cells packed already. */
  lemma BehindPacked(d: seq<byte>, d0: seq<byte>, cellOffset: nat, usable: nat, cells: seq<Cell>, xs: seq<Span>)
    requires Packed(d, d0, cellOffset, usable, cells, xs) && |xs| < |cells|
    ensures var x, begin := PackedAt(Shape(cells), usable, |xs|), cellOffset + 2 * |cells|;
      && begin <= x.off && x.End() <= usable && x.size == SizeOfCell(cells[|xs|]) >= 4
      && forall s :: s in xs ==> begin <= s.off && x.End() <= s.off
  {
    hide Total, Taking, PackedAt, Holds, Pointed, Shape, Keeps, Texts;
    var n := |xs|;
    PackedPlace(Shape(cells), usable, n);
    SizePacked(Shape(cells), usable, n);
    forall s | s in xs ensures cellOffset + 2 * |cells| <= s.off && PackedAt(Shape(cells), usable, n).End() <= s.off {
      var j :| 0 <= j < n && xs[j] == s;
      PackedPlace(Shape(cells), usable, j);
      PackedApart(Shape(cells), usable, j, n);
    }
  }

  lemma PackKeeps(d: seq<byte>, d1: seq<byte>, d2: seq<byte>, begin: nat, q: nat, x: Span, xs: seq<Span>)
    requires q + 1 < |d| == |d2| && q + 2 <= begin <= x.off && d1 == Put2(d, q, x.off)
    requires forall s :: s in xs ==> begin <= s.off && x.End() <= s.off
    requires forall y :: 0 <= y < |d| && !Has(x, y) ==> d2[y] == d1[y]
    ensures Keeps(d, d2, begin, q, q + 2, xs)
  {
  }

  lemma PointerThere(d: seq<byte>, d1: seq<byte>, d2: seq<byte>, q: nat, x: Span)
    requires q + 1 < |d| == |d2| && q + 2 <= x.off < 0x1_0000 && d1 == Put2(d, q, x.off)
    requires forall y :: 0 <= y < |d| && !Has(x, y) ==> d2[y] == d1[y]
    ensures Pointed(d2, q, [x])
  {
    GetPut(d, q, x.off, q);
  }

  lemma PackKeepsFront(
      d0: seq<byte>, d: seq<byte>, d2: seq<byte>, cellOffset: nat, begin: nat, q: nat, xs: seq<Span>)
    requires Keeps(d0, d, cellOffset, 0, 0, []) && Keeps(d, d2, begin, q, q + 2, xs) && cellOffset <= q && q <= begin
    ensures Keeps(d0, d2, cellOffset, 0, 0, [])
  {
    forall x: nat | x < |d0| && Steady(x, cellOffset, 0, 0, []) ensures d2[x] == d0[x] {
      assert Steady(x, begin, q, q + 2, xs);
      assert d[x] == d0[x];
    }
  }

  /** The packed cells, when the header is written. */
  lemma PackedTidy(
      d: seq<byte>, d': seq<byte>, d0: seq<byte>, cellOffset: nat, usable: nat, cells: seq<Cell>, xs: seq<Span>)
    requires Packed(d, d0, cellOffset, usable, cells, xs) && |xs| == |cells| && 8 <= cellOffset && usable <= 0x1_0000
    requires |d'| == |d| && (forall x :: 8 <= x < |d| ==> d'[x] == d[x]) && d'[0] == d[0]
    requires Get2(d', 1) == 0 && Top(d', 0) == usable - Total(Shape(cells)) && d'[7] == 0
    ensures Tidy(d', 0, cellOffset + 2 * |cells|, usable, [], xs)
    ensures Pointed(d', cellOffset, xs) && Holds(d', xs, Texts(d0, cells)) && Keeps(d0, d', cellOffset, 0, 0, [])
  {
    hide Total, Taking, Get2, PackedAt, Shape;
    var shape := Shape(cells);
    forall i, j | 0 <= i < j < |xs| ensures Apart(xs[i], xs[j]) { PackedApart(shape, usable, i, j); }
    forall i | 0 <= i < |xs|
      ensures usable - Total(shape) <= xs[i].off && xs[i].End() <= usable && xs[i].size == shape[i].size >= 4
    {
      PackedPlace(shape, usable, i);
      SizePacked(shape, usable, i);
    }
    TotalSameSizes(xs, shape);
    NothingFree(usable - Total(shape), usable, 0, xs);
    assert PtrAddr(0, [], 0) == 1;
    assert cells[..|xs|] == cells;
    forall i | 0 <= i < |xs| ensures Get2(d', cellOffset + 2 * i) == xs[i].off {
      SameWord(d, d', cellOffset + 2 * i);
    }
    forall i | 0 <= i < |xs| ensures HoldsAt(d', xs[i], Texts(d0, cells)[i]) {
      assert HoldsAt(d, xs[i], Texts(d0, cells)[i]);
      assert d'[xs[i].off..xs[i].End()] == d[xs[i].off..xs[i].End()];
    }
  }

  /** As many cells as have room. */
  lemma {:induction false} RoomyPart(cells: seq<Cell>, cellOffset: nat, usable: nat) returns (m: nat)
    requires cellOffset <= usable && Sized(cells)
    ensures m <= |cells| && Roomy(cells[..m], cellOffset, usable)
    ensures m < |cells| ==> !Roomy(cells[..m + 1], cellOffset, usable)
    ensures Roomy(cells, cellOffset, usable) <==> m == |cells|
  {
    var n := |cells|;
    if Roomy(cells, cellOffset, usable) {
      assert cells[..n] == cells;
      return n;
    }
    assert n > 0;
    m := RoomyPart(cells[..n - 1], cellOffset, usable);
    assert cells[..n - 1][..m] == cells[..m] && cells[..n] == cells;
    assert m < n - 1 ==> cells[..n - 1][..m + 1] == cells[..m + 1];
  }

  /** The cell behind those that have room would reach the pointers. */
  lemma NoRoomLeft(cells: seq<Cell>, cellOffset: nat, usable: nat, m: nat)
    requires Sized(cells) && m < |cells| && !Roomy(cells[..m + 1], cellOffset, usable)
    ensures usable - Taking(Shape(cells[..m]), m) - SizeOfCell(cells[m]) < cellOffset + 2 * m + 2
  {
    hide Total, Shape;
    AllTaken(cells[..m]);
    var x := Shape([cells[m]])[0];
    assert Shape(cells[..m + 1]) == Shape(cells[..m]) + [x];
    TotalAppend(Shape(cells[..m]), [x]);
    TotalSingle(x);
  }

  /** The pointer and the text of the next cell are written, if it stays behind the pointers. */
  method PackCell(
      p: MemPage, pCellptr: nat, pData: int, text: seq<byte>, ghost d0: seq<byte>, ghost room: seq<Cell>,
      ghost spans: seq<Span>)
    returns (fits: bool, pCellptr': nat, ghost spans': seq<Span>)
    requires 8 <= p.cellOffset && p.usableSize <= 0x1_0000 && p.usableSize <= p.aData.Length
    requires Packed(p.aData[..], d0, p.cellOffset, p.usableSize, room, spans)
    requires pCellptr == p.cellOffset + 2 * |spans| && p.cellOffset + 2 <= p.usableSize && pData < 0x1_0000
    requires |spans| < |room| ==>
      && text == TextOf(d0, room[|spans|]) && |text| == SizeOfCell(room[|spans|])
      && p.cellOffset + 2 * |room| <= pData && pData + |text| <= p.usableSize
      && PackedAt(Shape(room), p.usableSize, |spans|) == Span(pData, |text|)
    requires |spans| == |room| ==> pData < pCellptr + 2
    modifies p.aData
    ensures fits <==> |spans| < |room|
    ensures fits ==> pCellptr' == pCellptr + 2 && |spans'| == |spans| + 1
    ensures fits ==> Packed(p.aData[..], d0, p.cellOffset, p.usableSize, room, spans')
    ensures Keeps(d0, p.aData[..], p.cellOffset, 0, 0, [])
  {
    hide Packed, Shape, PackedAt, Put2, TextOf, Keeps;
    ghost var d := p.aData[..];
    PackedLength(d, d0, p.cellOffset, p.usableSize, room, spans);
    p.Write2(pCellptr, pData % 0x1_0000);
    ghost var d1 := p.aData[..];
    pCellptr' := pCellptr + 2;
    spans' := spans;
    if pData < pCellptr' {
      PointerOnly(d0, d, d1, p.cellOffset, pCellptr, pData % 0x1_0000);
      return false, pCellptr', spans';
    }
    CopyIn(p, pData, text);
    PackOne(d, d1, p.aData[..], d0, p.cellOffset, p.usableSize, room, spans, text);
    spans' := spans + [Span(pData, |text|)];
    PackedLength(p.aData[..], d0, p.cellOffset, p.usableSize, room, spans');
    fits := true;
  }

  lemma PackedLength(d: seq<byte>, d0: seq<byte>, cellOffset: nat, usable: nat, cells: seq<Cell>, xs: seq<Span>)
    requires Packed(d, d0, cellOffset, usable, cells, xs)
    ensures |xs| <= |cells| && usable <= |d| && Keeps(d0, d, cellOffset, 0, 0, [])
    ensures cellOffset + 2 * |xs| <= usable && (xs != [] ==> cellOffset + 2 * |xs| + 4 <= usable)
  {
    hide Total, Holds, Pointed, PackedAt, Keeps, Shape;
    TotalAtLeast(Shape(cells));
  }

  lemma PointerOnly(d0: seq<byte>, d: seq<byte>, d1: seq<byte>, at: nat, q: nat, v: nat)
    requires Keeps(d0, d, at, 0, 0, []) && at <= q && q + 1 < |d| && d1 == Put2(d, q, v)
    ensures Keeps(d0, d1, at, 0, 0, [])
  {
    forall x: nat | x < |d0| && Steady(x, at, 0, 0, []) ensures d1[x] == d0[x] {
      assert d[x] == d0[x];
    }
  }

  /** A cell of the page is read from the copy of its content area, any other where it is. */
  method ReadCell(ghost d: seq<byte>, pTmp: seq<byte>, begin: nat, ghost usable: nat, cell: Cell)
    returns (text: seq<byte>)
    requires begin <= usable <= |d| && pTmp == d[begin..usable]
    requires cell.Here? ==> begin <= cell.span.off && cell.span.End() <= usable
    ensures text == TextOf(d, cell) && |text| == SizeOfCell(cell)
  {
    CopiedText(d, begin, usable, cell);
    match cell
    case Here(s) => text := pTmp[s.off - begin..s.End() - begin];
    case There(t) => text := t;
  }

  /** rebuildPage: the cells are packed in their order, unless they have no room. */
  method Rebuild(p: MemPage, cells: seq<Cell>) returns (rc: Rc, ghost spans: seq<Span>)
    requires p.hdrOffset == 0 && 8 <= p.cellOffset && p.cellOffset + 2 <= p.usableSize
    requires p.usableSize <= p.aData.Length && p.usableSize <= 0x1_0000 && Top(p.aData[..], 0) <= p.usableSize
    requires Sized(cells) && Reachable(p.aData[..], p.usableSize, cells)
    modifies p`nCell, p.aData
    ensures rc == if Roomy(cells, p.cellOffset, p.usableSize) then Ok else Corrupt
    ensures rc.Ok? ==>
      && p.nCell == |cells| == |spans|
      && Tidy(p.aData[..], 0, p.CellFirst(), p.usableSize, [], spans) && Pointed(p.aData[..], p.cellOffset, spans)
      && Holds(p.aData[..], spans, Texts(old(p.aData[..]), cells))
    ensures Keeps(old(p.aData[..]), p.aData[..], p.cellOffset, 0, 0, [])
  {
    hide Tidy, Total, Taking, Get2, Put2, PackedAt, Keeps, Holds, Pointed, Packed, Shape, Roomy, TextOf, Texts;
    ghost var d0 := p.aData[..];
    var begin := p.Read2(5);
    TopIs(d0);
    assert forall i :: 0 <= i < |cells| && cells[i].Here? ==> begin <= cells[i].span.off;
    var pTmp := p.aData[begin..p.usableSize];
    assert pTmp == d0[begin..p.usableSize];
    ghost var m := RoomyPart(cells, p.cellOffset, p.usableSize);
    ghost var room := cells[..m];
    spans := [];
    PackNone(d0, p.cellOffset, p.usableSize, room);
    var pData: int, pCellptr, i := p.usableSize, p.cellOffset, 0;
    while i < |cells|
      invariant i <= m && |spans| == i && pCellptr == p.cellOffset + 2 * i
      invariant 0 <= pData == p.usableSize - Taking(Shape(room), i)
      invariant Packed(p.aData[..], d0, p.cellOffset, p.usableSize, room, spans)
    {
      PackNext(cells, room, p.cellOffset, p.usableSize, m, i);
      var text := ReadCell(d0, pTmp, begin, p.usableSize, cells[i]);
      pData := pData - |text|;
      var fits;
      fits, pCellptr, spans := PackCell(p, pCellptr, pData, text, d0, room, spans);
      if !fits {
        return Corrupt, spans;
      }
      i := i + 1;
    }
    ghost var d := p.aData[..];
    assert room == cells;
    AllTaken(cells);
    PackedTop(cells, p.cellOffset, p.usableSize);
    NewHeader(p, |cells|, pData);
    PackedTidy(d, p.aData[..], d0, p.cellOffset, p.usableSize, cells, spans);
    rc := Ok;
  }

  lemma PackNext(cells: seq<Cell>, room: seq<Cell>, cellOffset: nat, usable: nat, m: nat, i: nat)
    requires i <= m <= |cells| && i < |cells| && room == cells[..m] && Roomy(room, cellOffset, usable) && Sized(cells)
    requires m < |cells| ==> !Roomy(cells[..m + 1], cellOffset, usable)
    ensures SizeOfCell(cells[i]) >= 4
    ensures i < m ==> var x := PackedAt(Shape(room), usable, i);
      && room[i] == cells[i] && x.End() <= usable && x.off >= cellOffset + 2 * m
      && x.size == SizeOfCell(cells[i])
      && x.off == usable - Taking(Shape(room), i) - SizeOfCell(cells[i]) == usable - Taking(Shape(room), i + 1)
    ensures i == m ==> usable - Taking(Shape(room), i) - SizeOfCell(cells[i]) < cellOffset + 2 * i + 2
  {
    hide Total, Taking, PackedAt, Shape, Roomy;
    if i < m {
      PackRoom(room, cellOffset, usable, i);
    } else {
      NoRoomLeft(cells, cellOffset, usable, m);
    }
  }

  lemma PackedTop(cells: seq<Cell>, cellOffset: nat, usable: nat)
    requires Roomy(cells, cellOffset, usable)
    ensures usable - Total(Shape(cells)) >= cellOffset
  {
  }

  /** A page without free blocks. */
  method NewHeader(p: MemPage, nCell: nat, pData: nat)
    requires 8 <= p.aData.Length && 0 < pData <= 0x1_0000
    modifies p`nCell, p.aData
    ensures p.nCell == nCell && p.aData[0] == old(p.aData[0])
    ensures forall x :: 8 <= x < p.aData.Length ==> p.aData[x] == old(p.aData[x])
    ensures Get2(p.aData[..], 1) == 0 && Top(p.aData[..], 0) == pData && p.aData[7] == 0
  {
    ghost var d := p.aData[..];
    p.nCell := nCell;
    p.Write2(1, 0);
    p.Write2(3, p.nCell);
    p.Write2(5, pData);
    p.aData[7] := 0;
    HeaderRebuilt(d, p.aData[..], nCell, pData);
  }

  lemma TopIs(d: seq<byte>)
    requires 8 <= |d|
    ensures Get2(d, 5) <= Top(d, 0)
  {
  }

  lemma CopiedText(d: seq<byte>, begin: nat, usable: nat, c: Cell)
    requires usable <= |d| && (c.Here? ==> begin <= c.span.off && c.span.End() <= usable)
    ensures |TextOf(d, c)| == SizeOfCell(c)
    ensures c.Here? ==> d[begin..usable][c.span.off - begin..c.span.End() - begin] == TextOf(d, c)
  {
    if c.Here? { SliceOfSlice(d, begin, usable, c.span.off, c.span.End()); }
  }

  lemma SliceOfSlice<T>(d: seq<T>, b: nat, e: nat, x: nat, y: nat)
    requires b <= x <= y <= e <= |d|
    ensures d[b..e][x - b..y - b] == d[x..y]
  {
    assert d[b..e] == d[b..x] + d[x..y] + d[y..e];
  }

  lemma PackNone(d0: seq<byte>, cellOffset: nat, usable: nat, cells: seq<Cell>)
    requires Roomy(cells, cellOffset, usable) && usable <= |d0|
    ensures Packed(d0, d0, cellOffset, usable, cells, []) && Taking(Shape(cells), 0) == 0
  {
    assert Shape(cells)[..0] == [];
  }

  lemma PackRoom(cells: seq<Cell>, cellOffset: nat, usable: nat, i: nat)
    requires Roomy(cells, cellOffset, usable) && i < |cells|
    ensures var x := PackedAt(Shape(cells), usable, i);
      && x.off == usable - Taking(Shape(cells), i) - SizeOfCell(cells[i]) == usable - Taking(Shape(cells), i + 1)
      && x.size == SizeOfCell(cells[i]) && x.End() <= usable && x.off >= cellOffset + 2 * |cells|
  {
    hide Total;
    TakingStep(Shape(cells), i);
    PackedPlace(Shape(cells), usable, i);
  }

  lemma AllTaken(cells: seq<Cell>)
    ensures Taking(Shape(cells), |cells|) == Total(Shape(cells))
  {
    assert Shape(cells)[..|cells|] == Shape(cells);
  }

  lemma HeaderRebuilt(d: seq<byte>, d': seq<byte>, n: nat, pData: nat)
    requires 8 <= |d| == |d'| && 0 < pData <= 0x1_0000
    requires d' == Put2(Put2(Put2(d, 1, 0), 3, n), 5, pData)[7 := 0]
    ensures (forall x :: 8 <= x < |d| ==> d'[x] == d[x]) && d'[0] == d[0]
    ensures Get2(d', 1) == 0 && Top(d', 0) == pData && d'[7] == 0
  {
  }

  // ---- editing

  /** Cells of the run that lie on the page can be read where they are. */
  ghost predicate Safe(d: seq<byte>, d0: seq<byte>, w: Work, run: seq<Cell>) {
    forall i :: 0 <= i < |run| && run[i].Here? ==>
      run[i].span in w.used && HoldsAt(d, run[i].span, TextOf(d0, run[i]))
  }

  /** The page holds the cells cs at the places cur. */
  ghost predicate Content(
      d: seq<byte>, d0: seq<byte>, first: nat, begin: nat, usable: nat, pData: nat, w: Work, cur: seq<Span>,
      cs: seq<Cell>,
      run: seq<Cell>)
  {
    && Edited(d, first, begin, usable, pData, w) && Perm(w.All(), cur)
    && Holds(d, cur, Texts(d0, cs)) && Safe(d, d0, w, run)
  }

  /** The pointers of the places cur, with room for n more in front of the a-th. */
  ghost predicate Split(d: seq<byte>, at: nat, cur: seq<Span>, a: nat, n: nat) {
    a <= |cur| && Pointed(d, at, cur[..a]) && Pointed(d, at + 2 * (a + n), cur[a..])
  }

  lemma SafeKept(
      d: seq<byte>, d': seq<byte>, d0: seq<byte>, begin: nat, lo: nat, hi: nat, w: Work, w': Work, run: seq<Cell>)
    requires Safe(d, d0, w, run) && Keeps(d, d', begin, lo, hi, w.All()) && Among(w.used, w'.used)
    ensures Safe(d', d0, w', run)
  {
    hide Keeps;
    forall i | 0 <= i < |run| && run[i].Here? ensures HoldsAt(d', run[i].span, TextOf(d0, run[i])) {
      assert run[i].span in w.All();
      OneKept(d, d', begin, lo, hi, w.All(), run[i].span, TextOf(d0, run[i]));
    }
  }

  /** memmove on the cell pointers: room for n more in front of the a-th. */
  method OpenPointers(
      p: MemPage, begin: nat, pData: nat, a: nat, n: nat, nCell: nat, ghost d0: seq<byte>, ghost w: Work,
      ghost cur: seq<Span>, ghost cs: seq<Cell>, ghost run: seq<Cell>)
    requires p.hdrOffset == 0 && 8 <= p.cellOffset && a <= nCell == |cur| && p.cellOffset + 2 * (nCell + n) <= begin
    requires Content(p.aData[..], d0, p.CellFirst(), begin, p.usableSize, pData, w, cur, cs, run)
    requires Pointed(p.aData[..], p.cellOffset, cur)
    modifies p.aData
    ensures Content(p.aData[..], d0, p.CellFirst(), begin, p.usableSize, pData, w, cur, cs, run)
    ensures Split(p.aData[..], p.cellOffset, cur, a, n)
    ensures Keeps(old(p.aData[..]), p.aData[..], p.cellOffset, 0, 0, [])
  {
    hide Edited, Holds, Safe, Pointed, Keeps, Moved;
    ghost var d := p.aData[..];
    EditedBounds(d, p.CellFirst(), begin, p.usableSize, pData, w);
    p.MoveBytes(p.cellOffset + 2 * (a + n), p.cellOffset + 2 * a, 2 * (nCell - a));
    PointersOpened(d, p.aData[..], d0, p.CellFirst(), begin, p.usableSize, pData, w, cur, cs, run, p.cellOffset, a, n);
  }

  lemma PointersOpened(
      d: seq<byte>, d': seq<byte>, d0: seq<byte>, first: nat, begin: nat, usable: nat, pData: nat, w: Work,
      cur: seq<Span>, cs: seq<Cell>, run: seq<Cell>, at: nat, a: nat, n: nat)
    requires Content(d, d0, first, begin, usable, pData, w, cur, cs, run) && Pointed(d, at, cur)
    requires 8 <= at && a <= |cur| && at + 2 * (|cur| + n) <= begin <= |d|
    requires Moved(d, d', at + 2 * (a + n), at + 2 * a, 2 * (|cur| - a))
    ensures Content(d', d0, first, begin, usable, pData, w, cur, cs, run) && Split(d', at, cur, a, n)
    ensures Keeps(d, d', at, 0, 0, [])
  {
    hide Holds, Safe, Pointed, Steady, Edited, Get2, Keeps, Moved, Among, Perm, Texts, Work.All;
    var hi := at + 2 * (|cur| + n);
    assert cur == cur[..a] + cur[a..];
    PointedParts(d, at, cur[..a], cur[a..]);
    EditedBounds(d, first, begin, usable, pData, w);
    SpansInOrder(d, first, begin, usable, pData, w);
    MovedKeeps(d, d', begin, at + 2 * (a + n), at + 2 * a, |cur| - a, w.All());
    PointersMoved(d, d', at + 2 * (a + n), at + 2 * a, |cur| - a, cur[a..]);
    PointedKept(d, d', begin, at + 2 * (a + n), hi, w.All(), at, cur[..a]);
    MovedInFront(d, d', first, begin, usable, pData, w, at + 2 * (a + n), at + 2 * a, |cur| - a);
    PermAmong(w.All(), cur);
    AmongSelf(w.used);
    HoldsKept(d, d', begin, at + 2 * (a + n), hi, w.All(), cur, Texts(d0, cs));
    SafeKept(d, d', d0, begin, at + 2 * (a + n), hi, w, w, run);
    FrontKept(d, d', at, begin, at + 2 * (a + n), hi, w.All());
  }

  lemma MovedKeeps(d: seq<byte>, d': seq<byte>, begin: nat, to: nat, from: nat, n: nat, spans: seq<Span>)
    requires to + 2 * n <= begin <= |d| && from + 2 * n <= |d| && Moved(d, d', to, from, 2 * n)
    requires forall s :: s in spans ==> begin <= s.off
    ensures Keeps(d, d', begin, to, to + 2 * n, spans)
  {
  }

  lemma MovedInFront(
      d: seq<byte>, d': seq<byte>, first: nat, begin: nat, usable: nat, pData: nat, w: Work, to: nat, from: nat, n: nat)
    requires Edited(d, first, begin, usable, pData, w) && 8 <= to && to + 2 * n <= begin <= |d| && from + 2 * n <= |d|
    requires Moved(d, d', to, from, 2 * n)
    ensures Edited(d', first, begin, usable, pData, w)
  {
    EditedBounds(d, first, begin, usable, pData, w);
    hide Edited;
    EditedInFront(d, d', first, begin, usable, pData, w);
  }

  lemma FrontKept(d: seq<byte>, d': seq<byte>, at: nat, begin: nat, lo: nat, hi: nat, spans: seq<Span>)
    requires Keeps(d, d', begin, lo, hi, spans) && at <= begin && (at <= lo || hi <= lo)
    ensures Keeps(d, d', at, 0, 0, [])
  {
    forall x: nat | x < |d| && Steady(x, at, 0, 0, []) ensures d'[x] == d[x] {
      assert Steady(x, begin, lo, hi, spans);
    }
  }

  /** Cells from elsewhere are inserted in front of the a-th, for which there is room in the pointers. */
  method InsertCells(
      p: MemPage, begin: nat, pData: nat, a: nat, more: seq<Cell>, ghost d0: seq<byte>, ghost w: Work,
      ghost cur: seq<Span>, ghost cs: seq<Cell>, ghost run: seq<Cell>)
    returns (ok: bool, pData': nat, ghost w': Work, ghost cur': seq<Span>)
    requires p.hdrOffset == 0 && 8 <= p.cellOffset && p.cellOffset + 2 * (|cur| + |more|) <= begin
    requires forall i :: 0 <= i < |more| ==> more[i].There? && |more[i].text| >= 4
    requires Content(p.aData[..], d0, p.CellFirst(), begin, p.usableSize, pData, w, cur, cs, run)
    requires Split(p.aData[..], p.cellOffset, cur, a, |more|)
    modifies p.aData
    ensures Keeps(old(p.aData[..]), p.aData[..], p.cellOffset, 0, 0, [])
    ensures Edited(p.aData[..], p.CellFirst(), begin, p.usableSize, pData', w') && Safe(p.aData[..], d0, w', run)
    ensures ok ==>
      && |cur| == |cs| && a <= |cs| && |cur'| == |cur| + |more|
      && Content(p.aData[..], d0, p.CellFirst(), begin, p.usableSize, pData', w', cur', cs[..a] + more + cs[a..], run)
      && Pointed(p.aData[..], p.cellOffset, cur')
  {
    hide Edited, Safe, Holds, Pointed, Keeps;
    ghost var d, slots := p.aData[..], [];
    var texts := seq(|more|, i requires 0 <= i < |more| => more[i].text);
    ok, pData', w', slots := InsertArray(p, begin, pData, p.cellOffset + 2 * a, texts, w);
    cur' := cur[..a] + slots + cur[a..];
    SafeKept(d, p.aData[..], d0, begin, p.cellOffset + 2 * a, p.cellOffset + 2 * a + 2 * |texts|, w, w', run);
    FrontKept(d, p.aData[..], p.cellOffset, begin, p.cellOffset + 2 * a, p.cellOffset + 2 * a + 2 * |texts|, w.All());
    if ok {
      assert Texts(d0, more) == texts;
      CellsInserted(d, p.aData[..], d0, p.CellFirst(), begin, p.usableSize, pData, pData', w, w', cur, slots, cs,
                    more, run, p.cellOffset, a);
    }
  }

  lemma CellsInserted(
      d: seq<byte>, d': seq<byte>, d0: seq<byte>, first: nat, begin: nat, usable: nat, pData: nat, pData': nat,
      w: Work, w': Work, cur: seq<Span>, slots: seq<Span>, cs: seq<Cell>, more: seq<Cell>, run: seq<Cell>, at: nat,
      a: nat)
    requires Content(d, d0, first, begin, usable, pData, w, cur, cs, run) && Split(d, at, cur, a, |more|)
    requires 8 <= at && at + 2 * (|cur| + |more|) <= begin
    requires Edited(d', first, begin, usable, pData', w') && Safe(d', d0, w', run)
    requires multiset(w'.All()) == multiset(w.All()) + multiset(slots)
    requires Keeps(d, d', begin, at + 2 * a, at + 2 * a + 2 * |more|, w.All())
    requires Holds(d', slots, Texts(d0, more)) && Pointed(d', at + 2 * a, slots)
    ensures var cur' := cur[..a] + slots + cur[a..];
      && |cur| == |cs| && |cur'| == |cur| + |more|
      && Content(d', d0, first, begin, usable, pData', w', cur', cs[..a] + more + cs[a..], run)
      && Pointed(d', at, cur')
  {
    hide Edited, Safe, Pointed, Keeps, Holds, Texts, Among, Perm, Work.All;
    HoldsLength(d, cur, Texts(d0, cs));
    HoldsLength(d', slots, Texts(d0, more));
    var q := at + 2 * a;
    PermAmong(w.All(), cur);
    HoldsKept(d, d', begin, q, q + 2 * |more|, w.All(), cur, Texts(d0, cs));
    PointersAround(d, d', begin, w.All(), at, cur, a, slots);
    SpansAround(w.All(), w'.All(), cur, a, slots);
    TextsAround(d', d0, cur, cs, a, slots, more);
  }

  lemma PointersAround(
      d: seq<byte>, d': seq<byte>, begin: nat, all: seq<Span>, at: nat, cur: seq<Span>, a: nat, slots: seq<Span>)
    requires Split(d, at, cur, a, |slots|) && 8 <= at && at + 2 * (|cur| + |slots|) <= begin
    requires Keeps(d, d', begin, at + 2 * a, at + 2 * a + 2 * |slots|, all) && Pointed(d', at + 2 * a, slots)
    ensures Pointed(d', at, cur[..a] + slots + cur[a..])
  {
    hide Pointed, Keeps;
    var q := at + 2 * a;
    PointedKept(d, d', begin, q, q + 2 * |slots|, all, at, cur[..a]);
    PointedKept(d, d', begin, q, q + 2 * |slots|, all, at + 2 * (a + |slots|), cur[a..]);
    PointedParts(d', at, cur[..a], slots);
    PointedParts(d', at, cur[..a] + slots, cur[a..]);
  }

  lemma SpansAround(all: seq<Span>, all': seq<Span>, cur: seq<Span>, a: nat, slots: seq<Span>)
    requires a <= |cur| && Perm(all, cur) && multiset(all') == multiset(all) + multiset(slots)
    ensures |cur[..a] + slots + cur[a..]| == |cur| + |slots|
    ensures Perm(all', cur[..a] + slots + cur[a..])
  {
    assert cur == cur[..a] + cur[a..];
  }

  lemma HoldsLength(d: seq<byte>, spans: seq<Span>, ts: seq<seq<byte>>)
    requires Holds(d, spans, ts)
    ensures |spans| == |ts|
  {
  }

  lemma TextsAround(
      d: seq<byte>, d0: seq<byte>, cur: seq<Span>, cs: seq<Cell>, a: nat, slots: seq<Span>, more: seq<Cell>)
    requires Holds(d, cur, Texts(d0, cs)) && Holds(d, slots, Texts(d0, more)) && a <= |cur|
    ensures |cur| == |cs| && Holds(d, cur[..a] + slots + cur[a..], Texts(d0, cs[..a] + more + cs[a..]))
  {
    hide HoldsAt, TextOf;
    var x, y := cur[..a] + slots + cur[a..], cs[..a] + more + cs[a..];
    forall i | 0 <= i < |x| ensures HoldsAt(d, x[i], Texts(d0, y)[i]) {
      if i < a {
        assert x[i] == cur[i] && y[i] == cs[i];
      } else if i < a + |slots| {
        assert x[i] == slots[i - a] && y[i] == more[i - a];
      } else {
        assert x[i] == cur[i - |slots|] && y[i] == cs[i - |slots|];
      }
    }
  }

  // ---- the whole page

  /** The part [Lo, Hi) of the new run [iNew, iNewEnd) is on the page, which has [iOld, iOldEnd), already. */
  function Lo(iOld: nat, iNew: nat, iNewEnd: nat): nat {
    if iNew >= iOld then iNew else if iNewEnd < iOld then iNewEnd else iOld
  }

  function Hi(iOld: nat, iOldEnd: nat, iNew: nat, iNewEnd: nat): nat {
    var lo, hi := Lo(iOld, iNew, iNewEnd), if iOldEnd < iNewEnd then iOldEnd else iNewEnd;
    if hi < lo then lo else hi
  }

  /** Only cells [iOld, iOldEnd) of the array may lie on the page. */
  ghost predicate OthersAway(cells: seq<Cell>, iOld: nat, iOldEnd: nat) {
    && iOld <= iOldEnd <= |cells|
    && forall i :: 0 <= i < |cells| && (i < iOld || iOldEnd <= i) ==> cells[i].There?
  }

  lemma AwayNone(cells: seq<Cell>, iOld: nat, iOldEnd: nat, a: nat, b: nat)
    requires OthersAway(cells, iOld, iOldEnd) && a <= b <= |cells| && (b <= iOld || iOldEnd <= a)
    ensures Heres(cells[a..b]) == []
  {
    HeresNone(cells[a..b]);
  }

  lemma HeresSplit(cells: seq<Cell>, a: nat, b: nat, c: nat)
    requires a <= b <= c <= |cells|
    ensures Heres(cells[a..c]) == Heres(cells[a..b]) + Heres(cells[b..c])
    ensures Only(cells[a..c]) == Only(cells[a..b]) + Only(cells[b..c])
  {
    assert cells[a..c] == cells[a..b] + cells[b..c];
    HeresCat(cells[a..b], cells[b..c]);
  }

  /** Cells as they are on the page, with their pointers. */
  ghost predicate Listed(p: MemPage, fb: seq<Span>, spans: seq<Span>)
    reads p, p.aData
  {
    p.hdrOffset == 0 && 8 <= p.cellOffset && p.Valid(fb, spans) && Pointed(p.aData[..], p.cellOffset, spans)
  }

  lemma {:induction false} TotalAtLeast(spans: seq<Span>)
    requires forall i :: 0 <= i < |spans| ==> spans[i].size >= 4
    ensures Total(spans) >= 4 * |spans|
  {
    if spans != [] {
      TotalAtLeast(spans[..|spans| - 1]);
    }
  }

  /** Cells at the start of the page go, and the pointers move up. */
  method TrimFront(p: MemPage, iOld: nat, iOldEnd: nat, iNew: nat, nCell: nat, cells: seq<Cell>, ghost fb: seq<Span>)
    returns (nCell': nat, ghost fb': seq<Span>)
    requires OthersAway(cells, iOld, iOldEnd) && iOld < iNew <= |cells|
    requires Listed(p, fb, Heres(cells[iOld..iOldEnd])) && p.nCell == nCell == |Heres(cells[iOld..iOldEnd])|
    modifies p`nFree, p.aData
    ensures var m := if iNew < iOldEnd then iNew else iOldEnd;
      && Listed(p, fb', Heres(cells[m..iOldEnd])) && nCell' == |Heres(cells[m..iOldEnd])|
      && Keeps(old(p.aData[..]), p.aData[..], p.CellFirst(), p.cellOffset, p.CellFirst(), Heres(cells[m..iOldEnd]))
  {
    hide Tidy, Heres, Keeps, Pointed, Moved;
    ghost var d, m := p.aData[..], if iNew < iOldEnd then iNew else iOldEnd;
    ghost var pre, post := Heres(cells[iOld..m]), Heres(cells[m..iOldEnd]);
    FrontParts(cells, iOld, iOldEnd, iNew, m, pre, post);
    ShiftInPage(p, fb, pre + post);
    var nShift;
    nShift, fb' := FreeArray(p, iOld, iNew - iOld, cells, fb, [], post);
    ghost var d1 := p.aData[..];
    p.MoveBytes(p.cellOffset, p.cellOffset + 2 * nShift, 2 * nCell);
    PointersUp(d, d1, p.aData[..], p.CellFirst(), p.usableSize, p.cellOffset, nCell, fb', pre, post);
    nCell' := nCell - nShift;
  }

  lemma AwayNoneIf(cells: seq<Cell>, iOld: nat, iOldEnd: nat, m: nat, iNew: nat)
    requires OthersAway(cells, iOld, iOldEnd) && m <= iNew <= |cells| && (m == iNew || m == iOldEnd)
    ensures Heres(cells[m..iNew]) == []
  {
    if m == iNew {
      assert cells[m..iNew] == [];
    } else {
      AwayNone(cells, iOld, iOldEnd, m, iNew);
    }
  }

  /** What goes from the start of the page, and what stays. */
  lemma FrontParts(
      cells: seq<Cell>, iOld: nat, iOldEnd: nat, iNew: nat, m: nat, pre: seq<Span>, post: seq<Span>)
    requires OthersAway(cells, iOld, iOldEnd) && iOld < iNew <= |cells| && m == if iNew < iOldEnd then iNew else iOldEnd
    requires pre == Heres(cells[iOld..m]) && post == Heres(cells[m..iOldEnd])
    ensures Heres(cells[iOld..iOldEnd]) == pre + post && |pre + post| == |pre| + |post|
    ensures Heres(cells[iOld..iNew]) == pre && [] + pre + post == pre + post && [] + post == post
  {
    HeresSplit(cells, iOld, m, iOldEnd);
    HeresSplit(cells, iOld, m, iNew);
    AwayNoneIf(cells, iOld, iOldEnd, m, iNew);
  }

  lemma ShiftInPage(p: MemPage, fb: seq<Span>, spans: seq<Span>)
    requires p.hdrOffset == 0 && p.Valid(fb, spans) && |spans| == p.nCell
    ensures p.CellFirst() + 4 * p.nCell <= p.usableSize <= p.aData.Length
  {
    hide Linked;
    TotalAtLeast(spans);
  }

  lemma PointersUp(
      d: seq<byte>, d1: seq<byte>, d2: seq<byte>, first: nat, usable: nat, at: nat, nCell: nat, fb: seq<Span>,
      pre: seq<Span>, post: seq<Span>)
    requires Pointed(d, at, pre + post) && 8 <= at && first == at + 2 * nCell && nCell == |pre| + |post|
    requires Keeps(d, d1, first, 0, 0, post) && Tidy(d1, 0, first, usable, fb, post)
    requires at + 2 * |pre| + 2 * nCell <= |d1| && Moved(d1, d2, at, at + 2 * |pre|, 2 * nCell)
    ensures Tidy(d2, 0, first, usable, fb, post) && Pointed(d2, at, post)
    ensures Keeps(d, d2, first, at, first, post)
  {
    hide Pointed, Keeps;
    PointedParts(d, at, pre, post);
    PointedKept(d, d1, first, 0, 0, post, at + 2 * |pre|, post);
    PointersMoved(d1, d2, at, at + 2 * |pre|, nCell, post);
    TidyBounds(d1, 0, first, usable, fb, post);
    hide Tidy;
    InContent(d1, first, usable, post);
    MovedKeeps(d1, d2, first, at, at + 2 * |pre|, nCell, post);
    AmongSelf(post);
    KeepsOn(d, d1, d2, first, at, first, post, 0, 0, post, at, first, post);
    hide Among;
    GapKeeps(d1, d2, first, usable, fb, post);
  }

  lemma InContent(d: seq<byte>, first: nat, usable: nat, spans: seq<Span>)
    requires 8 <= |d| && first <= Top(d, 0) && forall i :: 0 <= i < |spans| ==> Top(d, 0) <= spans[i].off
    ensures forall s :: s in spans ==> first <= s.off
  {
  }

  /** Cells at the end of the page go. */
  method TrimBack(
      p: MemPage, ghost iOld: nat, iOldEnd: nat, ghost m: nat, iNewEnd: nat, nCell: nat, cells: seq<Cell>,
      ghost fb: seq<Span>)
    returns (nCell': nat, ghost fb': seq<Span>)
    requires OthersAway(cells, iOld, iOldEnd) && iOld <= m <= iOldEnd && iNewEnd < iOldEnd
    requires Listed(p, fb, Heres(cells[m..iOldEnd])) && nCell == |Heres(cells[m..iOldEnd])|
    requires (m <= iNewEnd || m == iOld) && nCell <= p.nCell
    modifies p`nFree, p.aData
    ensures var n := if iNewEnd < m then m else iNewEnd;
      && Listed(p, fb', Heres(cells[m..n])) && nCell' == |Heres(cells[m..n])|
      && Keeps(old(p.aData[..]), p.aData[..], p.CellFirst(), 0, 0, Heres(cells[m..n]))
  {
    hide Tidy, Heres, Keeps, Pointed;
    ghost var d, n := p.aData[..], if iNewEnd < m then m else iNewEnd;
    ghost var pre, post := Heres(cells[m..n]), Heres(cells[n..iOldEnd]);
    BackParts(cells, iOld, iOldEnd, m, n, iNewEnd, pre, post);
    var nRet;
    nRet, fb' := FreeArray(p, iNewEnd, iOldEnd - iNewEnd, cells, fb, pre, []);
    PointersStay(d, p.aData[..], p.CellFirst(), p.cellOffset, p.usableSize, fb, fb', pre, post);
    nCell' := nCell - nRet;
  }

  lemma AwayNoneBefore(cells: seq<Cell>, iOld: nat, iOldEnd: nat, a: nat, b: nat)
    requires OthersAway(cells, iOld, iOldEnd) && a <= b <= |cells| && (a == b || b == iOld)
    ensures Heres(cells[a..b]) == []
  {
    if a == b {
      assert cells[a..b] == [];
    } else {
      AwayNone(cells, iOld, iOldEnd, a, b);
    }
  }

  /** What stays on the page, and what goes from its end. */
  lemma BackParts(
      cells: seq<Cell>, iOld: nat, iOldEnd: nat, m: nat, n: nat, iNewEnd: nat, pre: seq<Span>, post: seq<Span>)
    requires OthersAway(cells, iOld, iOldEnd) && m <= n <= iOldEnd && iNewEnd <= n && (iNewEnd == n || n == iOld)
    requires pre == Heres(cells[m..n]) && post == Heres(cells[n..iOldEnd])
    ensures Heres(cells[m..iOldEnd]) == pre + post && |pre + post| == |pre| + |post|
    ensures Heres(cells[iNewEnd..iOldEnd]) == post && pre + post + [] == pre + post && pre + [] == pre
  {
    HeresSplit(cells, m, n, iOldEnd);
    HeresSplit(cells, iNewEnd, n, iOldEnd);
    AwayNoneBefore(cells, iOld, iOldEnd, iNewEnd, n);
  }

  lemma PointersStay(
      d: seq<byte>, d': seq<byte>, first: nat, at: nat, usable: nat, fb: seq<Span>, fb': seq<Span>, pre: seq<Span>,
      post: seq<Span>)
    requires Pointed(d, at, pre + post) && Keeps(d, d', first, 0, 0, pre) && 8 <= at && at + 2 * |pre| <= first
    ensures Pointed(d', at, pre)
  {
    hide Pointed, Keeps;
    PointedParts(d, at, pre, post);
    PointedKept(d, d', first, 0, 0, pre, at, pre);
  }

  /** What stays on the page: the cells of the new run that are there already. */
  lemma Staying(cells: seq<Cell>, iOld: nat, iOldEnd: nat, iNew: nat, iNewEnd: nat, m: nat, n: nat)
    requires OthersAway(cells, iOld, iOldEnd) && iNew <= iNewEnd <= |cells|
    requires m == if iOld < iNew then (if iNew < iOldEnd then iNew else iOldEnd) else iOld
    requires n == if iNewEnd < iOldEnd then (if iNewEnd < m then m else iNewEnd) else iOldEnd
    ensures var lo, hi := Lo(iOld, iNew, iNewEnd), Hi(iOld, iOldEnd, iNew, iNewEnd);
      && iNew <= lo <= hi <= iNewEnd && m <= n && cells[m..n] == cells[lo..hi]
      && (forall i :: iNew <= i < lo || hi <= i < iNewEnd ==> cells[i].There?)
  {
  }

  /** Cells are taken from the start and the end of the page until only cells of the new run are left. */
  method Trim(
      p: MemPage, iOld: nat, iOldEnd: nat, iNew: nat, iNewEnd: nat, cells: seq<Cell>, ghost fb: seq<Span>)
    returns (nCell: nat, ghost fb': seq<Span>)
    requires OthersAway(cells, iOld, iOldEnd) && iNew <= iNewEnd <= |cells|
    requires Listed(p, fb, Heres(cells[iOld..iOldEnd])) && p.nCell == |Heres(cells[iOld..iOldEnd])|
    modifies p`nFree, p.aData
    ensures var lo, hi := Lo(iOld, iNew, iNewEnd), Hi(iOld, iOldEnd, iNew, iNewEnd);
      && iNew <= lo <= hi <= iNewEnd && (forall i :: iNew <= i < lo || hi <= i < iNewEnd ==> cells[i].There?)
      && Listed(p, fb', Heres(cells[lo..hi])) && nCell == |Heres(cells[lo..hi])|
      && Keeps(old(p.aData[..]), p.aData[..], p.CellFirst(), p.cellOffset, p.CellFirst(), Heres(cells[lo..hi]))
  {
    hide Tidy, Heres, Keeps, Pointed;
    ghost var d := p.aData[..];
    ghost var m := if iOld < iNew then (if iNew < iOldEnd then iNew else iOldEnd) else iOld;
    ghost var n := if iNewEnd < iOldEnd then (if iNewEnd < m then m else iNewEnd) else iOldEnd;
    ghost var first, at := p.CellFirst(), p.cellOffset;
    Staying(cells, iOld, iOldEnd, iNew, iNewEnd, m, n);
    HeresSplit(cells, iOld, m, iOldEnd);
    nCell, fb' := p.nCell, fb;
    KeepsHole(d, first, at, Heres(cells[m..iOldEnd]));
    if iOld < iNew {
      nCell, fb' := TrimFront(p, iOld, iOldEnd, iNew, nCell, cells, fb);
    }
    ghost var d1 := p.aData[..];
    AmongFirst(cells, m, n, iOldEnd);
    KeepsHole(d1, first, at, Heres(cells[m..n]));
    if iNewEnd < iOldEnd {
      nCell, fb' := TrimBack(p, iOld, iOldEnd, m, iNewEnd, nCell, cells, fb');
      KeepsOn(d, d1, p.aData[..], first, at, first, Heres(cells[m..n]), at, first, Heres(cells[m..iOldEnd]),
              0, 0, Heres(cells[m..n]));
    }
  }

  lemma KeepsHole(d: seq<byte>, begin: nat, lo: nat, spans: seq<Span>)
    ensures Keeps(d, d, begin, lo, begin, spans)
  {
  }

  lemma AmongFirst(cells: seq<Cell>, m: nat, n: nat, e: nat)
    requires m <= n <= e <= |cells|
    ensures Among(Heres(cells[m..n]), Heres(cells[m..e])) && Among(Heres(cells[m..n]), Heres(cells[m..n]))
    ensures |Heres(cells[m..n])| <= |Heres(cells[m..e])|
  {
    HeresSplit(cells, m, n, e);
  }

  // ---- filling the page up

  /** The cells on the page while the overflow cells in front of b have been put in. */
  function Present(cells: seq<Cell>, iNew: nat, b: nat, hi: nat): seq<Cell>
    requires iNew <= b <= hi <= |cells|
  {
    cells[iNew..b] + Only(cells[b..hi])
  }

  /** Cells that are on the page are there. */
  lemma PresentSame(cells: seq<Cell>, iNew: nat, b: nat, c: nat, hi: nat)
    requires iNew <= b <= c <= hi <= |cells| && forall k :: b <= k < c ==> cells[k].Here?
    ensures Present(cells, iNew, b, hi) == Present(cells, iNew, c, hi)
  {
    hide Only, Heres;
    HeresSplit(cells, b, c, hi);
    OnlyAll(cells[b..c]);
    assert cells[iNew..c] == cells[iNew..b] + cells[b..c];
    Regroup(cells[iNew..b], cells[b..c], Only(cells[c..hi]));
  }

  lemma PresentLength(cells: seq<Cell>, iNew: nat, b: nat, hi: nat)
    requires iNew <= b <= hi <= |cells|
    ensures |Present(cells, iNew, b, hi)| == b - iNew + |Only(cells[b..hi])|
  {
  }

  /** An overflow cell is put in. */
  lemma PresentOne(cells: seq<Cell>, iNew: nat, b: nat, hi: nat)
    requires iNew <= b < hi <= |cells| && cells[b].There?
    ensures var cs := Present(cells, iNew, b, hi);
      && b - iNew <= |cs| < hi - iNew
      && Present(cells, iNew, b + 1, hi) == cs[..b - iNew] + [cells[b]] + cs[b - iNew..]
  {
    HeresSplit(cells, b, b + 1, hi);
    HeresNone(cells[b..b + 1]);
    OnlyHeres(cells[b + 1..hi]);
    assert Only(cells[b..hi]) == Only(cells[b + 1..hi]);
    assert cells[iNew..b + 1] == cells[iNew..b] + [cells[b]];
  }

  /** The overflow cells: their places among the old cells, in order. */
  ghost predicate Overflowing(cells: seq<Cell>, iOld: nat, iOldEnd: nat, aiOvfl: seq<nat>) {
    && iOld <= iOldEnd <= |cells|
    && (forall i, j :: 0 <= i < j < |aiOvfl| ==> aiOvfl[i] < aiOvfl[j])
    && (forall i :: 0 <= i < |aiOvfl| ==> iOld + aiOvfl[i] < iOldEnd && cells[iOld + aiOvfl[i]].There?)
    && (forall k :: iOld <= k < iOldEnd && cells[k].There? ==> k - iOld in aiOvfl)
  }

  /** From b on, the cells to be put in are those of the list from its i-th place on. */
  ghost predicate Pending(cells: seq<Cell>, iOld: nat, b: nat, hi: nat, aiOvfl: seq<nat>, i: nat)
    requires hi <= |cells|
  {
    && i <= |aiOvfl|
    && forall k :: b <= k < hi && cells[k].There? ==> k - iOld in aiOvfl[i..]
  }

  lemma PendingAll(cells: seq<Cell>, iOld: nat, iOldEnd: nat, b: nat, hi: nat, aiOvfl: seq<nat>)
    requires Overflowing(cells, iOld, iOldEnd, aiOvfl) && b <= hi <= |cells| && (b == hi || (iOld <= b
      && hi <= iOldEnd))
    ensures Pending(cells, iOld, b, hi, aiOvfl, 0)
  {
    assert aiOvfl[0..] == aiOvfl;
  }

  /** The next overflow cell lies outside of the run, or nothing before it is to be put in. */
  lemma PendingNext(cells: seq<Cell>, iOld: nat, iOldEnd: nat, b: nat, hi: nat, aiOvfl: seq<nat>, i: nat)
    requires Overflowing(cells, iOld, iOldEnd, aiOvfl) && b <= hi <= |cells| && i < |aiOvfl|
    requires Pending(cells, iOld, b, hi, aiOvfl, i)
    ensures var x := iOld + aiOvfl[i];
      && x < |cells| && cells[x].There?
      && (b <= x < hi ==>
           (forall k :: b <= k < x ==> cells[k].Here?) && Pending(cells, iOld, x + 1, hi, aiOvfl, i + 1))
      && (!(b <= x < hi) ==> Pending(cells, iOld, b, hi, aiOvfl, i + 1))
  {
    var x := iOld + aiOvfl[i];
    Later(cells, iOld, iOldEnd, aiOvfl, i);
    hide Overflowing;
    forall k | b <= k < hi && cells[k].There? ensures k == x || (k > x && k - iOld in aiOvfl[i + 1..]) {
      assert k - iOld in [aiOvfl[i]] + aiOvfl[i + 1..];
    }
  }

  lemma Later(cells: seq<Cell>, iOld: nat, iOldEnd: nat, aiOvfl: seq<nat>, i: nat)
    requires Overflowing(cells, iOld, iOldEnd, aiOvfl) && i < |aiOvfl|
    ensures iOld + aiOvfl[i] < |cells| && cells[iOld + aiOvfl[i]].There?
    ensures aiOvfl[i..] == [aiOvfl[i]] + aiOvfl[i + 1..] && Above(aiOvfl[i + 1..], aiOvfl[i])
  {
    var rest := aiOvfl[i + 1..];
    forall v | v in rest ensures v > aiOvfl[i] {
      var j :| 0 <= j < |rest| && rest[j] == v;
      assert aiOvfl[i] < aiOvfl[i + 1 + j];
    }
  }

  predicate Above(s: seq<nat>, x: nat) {
    forall v :: v in s ==> v > x
  }

  lemma PendingNone(cells: seq<Cell>, iOld: nat, b: nat, hi: nat, aiOvfl: seq<nat>)
    requires hi <= |cells| && Pending(cells, iOld, b, hi, aiOvfl, |aiOvfl|)
    ensures forall k :: b <= k < hi ==> cells[k].Here?
  {
  }

  /** The state while the page is filled up: the first cells of the run, up to b, and what was there before. */
  ghost predicate Filling(
      p: MemPage, d0: seq<byte>, begin: nat, pData: nat, w: Work, cur: seq<Span>, cells: seq<Cell>, iNew: nat, b: nat,
      hi: nat, iNewEnd: nat)
    requires iNew <= b <= hi <= iNewEnd <= |cells|
    reads p, p.aData
  {
    && p.hdrOffset == 0 && 8 <= p.cellOffset && begin == p.cellOffset + 2 * (iNewEnd - iNew)
    && Content(p.aData[..], d0, p.CellFirst(), begin, p.usableSize, pData, w, cur, Present(cells, iNew, b, hi),
               cells[iNew..iNewEnd])
    && Pointed(p.aData[..], p.cellOffset, cur) && |cur| == |Present(cells, iNew, b, hi)|
    && Keeps(d0, p.aData[..], p.cellOffset, 0, 0, [])
  }

  /** The editing has failed: what the run needs can still be read. */
  ghost predicate Failed(p: MemPage, d0: seq<byte>, w: Work, run: seq<Cell>)
    reads p, p.aData
  {
    && Tidy(p.aData[..], 0, p.CellFirst(), p.usableSize, w.fb, w.used) && Safe(p.aData[..], d0, w, run)
    && Keeps(d0, p.aData[..], p.cellOffset, 0, 0, [])
  }

  /** Add cells to the start of the page. */
  method FillFront(
      p: MemPage, begin: nat, pData: nat, nAdd: nat, nCell: nat, cells: seq<Cell>, iNew: nat, ghost hi: nat,
      iNewEnd: nat,
      ghost d0: seq<byte>, ghost w: Work, ghost cur: seq<Span>)
    returns (ok: bool, pData': nat, ghost w': Work, ghost cur': seq<Span>)
    requires iNew + nAdd <= hi <= iNewEnd <= |cells| && nCell == |cur|
    requires forall i :: iNew <= i < iNew + nAdd ==> cells[i].There? && |cells[i].text| >= 4
    requires p.hdrOffset == 0 && 8 <= p.cellOffset && begin == p.cellOffset + 2 * (iNewEnd - iNew)
    requires Content(p.aData[..], d0, p.CellFirst(), begin, p.usableSize, pData, w, cur, Only(cells[iNew + nAdd..hi]),
                     cells[iNew..iNewEnd])
    requires Pointed(p.aData[..], p.cellOffset, cur) && |cur| == |Only(cells[iNew + nAdd..hi])|
    requires Keeps(d0, p.aData[..], p.cellOffset, 0, 0, [])
    modifies p.aData
    ensures if ok then Filling(p, d0, begin, pData', w', cur', cells, iNew, iNew + nAdd, hi, iNewEnd)
            else Failed(p, d0, w', cells[iNew..iNewEnd])
  {
    hide Content, Pointed, Keeps, Edited, Safe, Only, Split, Tidy;
    ghost var d, cs := p.aData[..], Only(cells[iNew + nAdd..hi]);
    OnlyHeres(cells[iNew + nAdd..hi]);
    OpenPointers(p, begin, pData, 0, nAdd, nCell, d0, w, cur, cs, cells[iNew..iNewEnd]);
    ghost var d1 := p.aData[..];
    AmongSelf([]);
    KeepsOn(d0, d, d1, p.cellOffset, 0, 0, [], 0, 0, [], 0, 0, []);
    ok, pData', w', cur' :=
      InsertCells(p, begin, pData, 0, cells[iNew..iNew + nAdd], d0, w, cur, cs, cells[iNew..iNewEnd]);
    EditedTidy(p.aData[..], p.CellFirst(), begin, p.usableSize, pData', w');
    KeepsOn(d0, d1, p.aData[..], p.cellOffset, 0, 0, [], 0, 0, [], 0, 0, []);
    assert cs[..0] + cells[iNew..iNew + nAdd] + cs[0..] == Present(cells, iNew, iNew + nAdd, hi);
  }

  /** Put in one overflow cell, in front of the iCell-th cell. */
  method FillOverflow(
      p: MemPage, begin: nat, pData: nat, iCell: nat, nCell: nat, cells: seq<Cell>, iNew: nat, ghost hi: nat,
      iNewEnd: nat, ghost d0: seq<byte>, ghost w: Work, ghost cur: seq<Span>)
    returns (ok: bool, pData': nat, ghost w': Work, ghost cur': seq<Span>)
    requires iNew + iCell < hi <= iNewEnd <= |cells| && nCell == |cur|
    requires cells[iNew + iCell].There? && |cells[iNew + iCell].text| >= 4
    requires Filling(p, d0, begin, pData, w, cur, cells, iNew, iNew + iCell, hi, iNewEnd)
    modifies p.aData
    ensures if ok then
              && Filling(p, d0, begin, pData', w', cur', cells, iNew, iNew + iCell + 1, hi, iNewEnd)
              && |cur'| == nCell + 1
            else Failed(p, d0, w', cells[iNew..iNewEnd])
  {
    hide Content, Pointed, Keeps, Edited, Safe, Only, Split, Present, Tidy;
    ghost var d, b := p.aData[..], iNew + iCell;
    ghost var cs := Present(cells, iNew, b, hi);
    PresentOne(cells, iNew, b, hi);
    OpenPointers(p, begin, pData, iCell, 1, nCell, d0, w, cur, cs, cells[iNew..iNewEnd]);
    ghost var d1 := p.aData[..];
    AmongSelf([]);
    KeepsOn(d0, d, d1, p.cellOffset, 0, 0, [], 0, 0, [], 0, 0, []);
    ok, pData', w', cur' :=
      InsertCells(p, begin, pData, iCell, [cells[iNew + iCell]], d0, w, cur, cs, cells[iNew..iNewEnd]);
    EditedTidy(p.aData[..], p.CellFirst(), begin, p.usableSize, pData', w');
    KeepsOn(d0, d1, p.aData[..], p.cellOffset, 0, 0, [], 0, 0, [], 0, 0, []);
  }

  /** Append cells to the end of the page. */
  method FillBack(
      p: MemPage, begin: nat, pData: nat, nCell: nat, cells: seq<Cell>, iNew: nat, ghost hi: nat, iNewEnd: nat,
      ghost d0: seq<byte>, ghost w: Work, ghost cur: seq<Span>)
    returns (ok: bool, pData': nat, ghost w': Work, ghost cur': seq<Span>)
    requires iNew <= hi <= iNewEnd <= |cells| && nCell == |cur|
    requires forall i :: hi <= i < iNewEnd ==> cells[i].There? && |cells[i].text| >= 4
    requires Filling(p, d0, begin, pData, w, cur, cells, iNew, hi, hi, iNewEnd)
    modifies p.aData
    ensures if ok then Filling(p, d0, begin, pData', w', cur', cells, iNew, iNewEnd, iNewEnd, iNewEnd)
            else Failed(p, d0, w', cells[iNew..iNewEnd])
  {
    hide Content, Pointed, Keeps, Edited, Safe, Split, Tidy;
    ghost var d, cs := p.aData[..], Present(cells, iNew, hi, hi);
    assert cs == cells[iNew..hi] && cs[..|cs|] + cells[hi..iNewEnd] + cs[|cs|..] == cells[iNew..iNewEnd];
    assert Present(cells, iNew, iNewEnd, iNewEnd) == cells[iNew..iNewEnd];
    RoomBehind(d, p.cellOffset, begin, p.CellFirst(), p.usableSize, pData, w, d0, cur, cs, cells[iNew..iNewEnd],
               iNewEnd - hi);
    AmongSelf([]);
    ok, pData', w', cur' :=
      InsertCells(p, begin, pData, nCell, cells[iNew + nCell..iNewEnd], d0, w, cur, cs, cells[iNew..iNewEnd]);
    EditedTidy(p.aData[..], p.CellFirst(), begin, p.usableSize, pData', w');
    KeepsOn(d0, d, p.aData[..], p.cellOffset, 0, 0, [], 0, 0, [], 0, 0, []);
  }

  lemma RoomBehind(
      d: seq<byte>, at: nat, begin: nat, first: nat, usable: nat, pData: nat, w: Work, d0: seq<byte>, cur: seq<Span>,
      cs: seq<Cell>, run: seq<Cell>, n: nat)
    requires Content(d, d0, first, begin, usable, pData, w, cur, cs, run) && Pointed(d, at, cur)
    requires at + 2 * (|cur| + n) <= begin
    ensures Split(d, at, cur, |cur|, n)
  {
    EditedBounds(d, first, begin, usable, pData, w);
    assert cur[..|cur|] == cur && cur[|cur|..] == [];
  }

  /** The cell pointers and the cells have been written; the header is still the old one. */
  lemma FilledUp(
      d: seq<byte>, d': seq<byte>, d0: seq<byte>, first: nat, begin: nat, usable: nat, pData: nat, at: nat, w: Work,
      cur: seq<Span>, run: seq<Cell>)
    requires Content(d, d0, first, begin, usable, pData, w, cur, run, run) && Pointed(d, at, cur) && 8 <= at
    requires begin == at + 2 * |cur| && Keeps(d0, d, at, 0, 0, []) && |d| >= 8
    requires |run| < 0x1_0000 && d' == Put2(Put2(d, 3, |run|), 5, pData)
    ensures Tidy(d', 0, begin, usable, w.fb, cur) && Pointed(d', at, cur) && Holds(d', cur, Texts(d0, run))
    ensures Keeps(d0, d', at, 0, 0, [])
  {
    hide Edited, Holds, Pointed, Keeps, Put2, Get2;
    EditedBounds(d, first, begin, usable, pData, w);
    SpansInOrder(d, first, begin, usable, pData, w);
    HeaderKeeps(d, d', begin, |run|, pData, w.All());
    PermAmong(w.All(), cur);
    HoldsKept(d, d', begin, 0, 0, w.All(), cur, Texts(d0, run));
    PointedKept(d, d', begin, 0, 0, w.All(), at, cur);
    FrontKept(d, d', at, begin, 0, 0, w.All());
    AmongSelf([]);
    KeepsOn(d0, d, d', at, 0, 0, [], 0, 0, [], 0, 0, []);
    TidyWithGap(d, d', first, begin, usable, pData, w, cur);
  }

  lemma HeaderKeeps(d: seq<byte>, d': seq<byte>, begin: nat, n: nat, pData: nat, spans: seq<Span>)
    requires 8 <= |d| && d' == Put2(Put2(d, 3, n), 5, pData) && 8 <= begin && forall s :: s in spans ==> begin <= s.off
    ensures Keeps(d, d', begin, 0, 0, spans)
  {
  }

  /** With the new start of the content area in the header, the cells in front of the old one are in it. */
  lemma TidyWithGap(
      d: seq<byte>, d': seq<byte>, first: nat, begin: nat, usable: nat, pData: nat, w: Work, cur: seq<Span>)
    requires Edited(d, first, begin, usable, pData, w) && Perm(w.All(), cur) && |d'| == |d|
    requires exists n: nat :: d' == Put2(Put2(d, 3, n), 5, pData)
    ensures Tidy(d', 0, begin, usable, w.fb, cur)
  {
    hide Total, Get2, Put2;
    EditedBounds(d, first, begin, usable, pData, w);
    SpansInOrder(d, first, begin, usable, pData, w);
    UsedInAnyOrder(w.All(), cur, pData, usable);
    TotalInAnyOrder(w.All(), cur);
    TotalAppend(w.used, w.gap);
    TopWritten(d, d', pData);
    LinkedBehind(d, d', first, begin, usable, pData, w);
    hide Linked;
    PermAmong(w.All(), cur);
    forall i, j | 0 <= i < |w.fb| && 0 <= j < |cur| ensures Apart(w.fb[i], cur[j]) {
      assert cur[j] in w.All();
      FreeApartFrom(d, first, begin, usable, pData, w, i, cur[j]);
    }
  }

  lemma LinkedBehind(d: seq<byte>, d': seq<byte>, first: nat, begin: nat, usable: nat, pData: nat, w: Work)
    requires Edited(d, first, begin, usable, pData, w) && |d'| == |d|
    requires forall x :: 0 <= x < |d| && !(3 <= x < 7) ==> d'[x] == d[x]
    ensures Linked(d', 0, w.fb)
  {
    hide Total, Get2, Top, Used, ClearOf;
    forall k | 0 <= k <= |w.fb|
      ensures PtrAddr(0, w.fb, k) + 1 < |d| && Get2(d', PtrAddr(0, w.fb, k)) == OffsetOf(w.fb, k)
    {
      assert Get2(d, PtrAddr(0, w.fb, k)) == OffsetOf(w.fb, k);
      SameWord(d, d', PtrAddr(0, w.fb, k));
    }
    forall k | 0 <= k < |w.fb| ensures w.fb[k].off + 3 < |d| && Get2(d', w.fb[k].off + 2) == w.fb[k].size {
      SameWord(d, d', w.fb[k].off + 2);
    }
  }

  lemma TopWritten(d: seq<byte>, d': seq<byte>, pData: nat)
    requires 8 <= |d| && 0 < pData <= 0x1_0000 && exists n: nat :: d' == Put2(Put2(d, 3, n), 5, pData)
    ensures Top(d', 0) == pData && forall x :: 0 <= x < |d| && !(3 <= x < 7) ==> d'[x] == d[x]
  {
    var n: nat :| d' == Put2(Put2(d, 3, n), 5, pData);
    assert pData < 0x1_0000 ==> Get2(d', 5) == pData by { GetPut(Put2(d, 3, n), 5, pData, 5); }
  }

  lemma FreeApartFrom(
      d: seq<byte>, first: nat, begin: nat, usable: nat, pData: nat, w: Work, i: nat, s: Span)
    requires Edited(d, first, begin, usable, pData, w) && i < |w.fb| && s in w.All()
    ensures Apart(w.fb[i], s)
  {
    hide Total, Get2, Linked;
    if s in w.used {
      var j :| 0 <= j < |w.used| && w.used[j] == s;
      assert Apart(w.fb[i], w.used[j]);
    } else {
      assert s in w.gap;
    }
  }

  /** What the run needs can be read, so the page can be built from scratch. */
  lemma RebuildFrom(d: seq<byte>, d0: seq<byte>, first: nat, usable: nat, w: Work, run: seq<Cell>)
    requires Tidy(d, 0, first, usable, w.fb, w.used) && Safe(d, d0, w, run)
    ensures Reachable(d, usable, run) && Texts(d, run) == Texts(d0, run) && Top(d, 0) <= usable
  {
    hide Total, Get2, Linked;
    forall i | 0 <= i < |run| && run[i].Here?
      ensures Top(d, 0) <= run[i].span.off && run[i].span.End() <= usable && TextOf(d, run[i]) == TextOf(d0, run[i])
    {
      var j :| 0 <= j < |w.used| && w.used[j] == run[i].span;
    }
    assert forall i :: 0 <= i < |run| ==> TextOf(d, run[i]) == TextOf(d0, run[i]);
  }

  /** Trimmed, the page holds the cells of the run that it held before. */
  lemma Trimmed(
      d: seq<byte>, d0: seq<byte>, first: nat, at: nat, usable: nat, fb: seq<Span>, cells: seq<Cell>, lo: nat, hi: nat,
      iNew: nat, iNewEnd: nat)
    requires iNew <= lo <= hi <= iNewEnd <= |cells| && 8 <= at <= first
    requires forall i :: iNew <= i < lo || hi <= i < iNewEnd ==> cells[i].There?
    requires Tidy(d, 0, first, usable, fb, Heres(cells[lo..hi]))
    requires Keeps(d0, d, first, at, first, Heres(cells[lo..hi]))
    ensures Holds(d, Heres(cells[lo..hi]), Texts(d0, Only(cells[lo..hi])))
    ensures Safe(d, d0, Work(fb, Heres(cells[lo..hi]), []), cells[iNew..iNewEnd]) && Within(|d0|, cells[iNew..iNewEnd])
    ensures Keeps(d0, d, at, 0, 0, [])
  {
    hide Tidy, Keeps, Heres, Only, Steady;
    var spans := Heres(cells[lo..hi]);
    TidyBounds(d, 0, first, usable, fb, spans);
    OnlyHeres(cells[lo..hi]);
    SameLength(d0, d, first, at, first, spans);
    AmongSelf(spans);
    HoldsKept(d0, d, first, at, first, spans, spans, Texts(d0, Only(cells[lo..hi])));
    FrontKept(d0, d, at, first, at, first, spans);
    var run := cells[iNew..iNewEnd];
    forall i | 0 <= i < |run| && run[i].Here?
      ensures run[i].span in spans && HoldsAt(d, run[i].span, TextOf(d0, run[i])) && run[i].span.End() <= |d0|
    {
      var k := iNew + i - lo;
      assert cells[lo..hi][k] == run[i];
      InHeres(cells[lo..hi], k);
      OneKept(d0, d, first, at, first, spans, run[i].span, TextOf(d0, run[i]));
    }
  }

  predicate Within(n: nat, cells: seq<Cell>) {
    forall i :: 0 <= i < |cells| && cells[i].Here? ==> cells[i].span.End() <= n
  }

  /** Places that hold the texts of cells have their sizes. */
  lemma SizesHeld(d: seq<byte>, d0: seq<byte>, spans: seq<Span>, cells: seq<Cell>)
    requires Holds(d, spans, Texts(d0, cells)) && Within(|d0|, cells)
    ensures Total(spans) == Total(Shape(cells))
  {
    hide Total, Shape;
    forall i | 0 <= i < |spans| ensures spans[i].size == Shape(cells)[i].size {
      assert HoldsAt(d, spans[i], TextOf(d0, cells[i]));
    }
    TotalSameSizes(spans, Shape(cells));
  }

  lemma SameLength(d: seq<byte>, d': seq<byte>, begin: nat, lo: nat, hi: nat, spans: seq<Span>)
    requires Keeps(d, d', begin, lo, hi, spans)
    ensures |d'| == |d|
  {
  }

  /** The trimmed page, if the pointers still fit in front of the content area. */
  lemma TrimmedContent(
      d: seq<byte>, d0: seq<byte>, first: nat, begin: nat, usable: nat, w: Work, cs: seq<Cell>, run: seq<Cell>)
    requires Tidy(d, 0, first, usable, w.fb, w.used) && w.gap == [] && 8 <= begin <= Top(d, 0)
    requires Holds(d, w.used, Texts(d0, cs)) && Safe(d, d0, w, run)
    ensures Content(d, d0, first, begin, usable, Top(d, 0), w, w.used, cs, run)
  {
    hide Tidy, Holds, Safe;
    assert w.All() == w.used;
  }

  /** An overflow cell belongs to the new run if and only if it is still to be put in. */
  lemma InRun(
      cells: seq<Cell>, iOld: nat, iOldEnd: nat, iNew: nat, iNewEnd: nat, b: nat, aiOvfl: seq<nat>, i: nat)
    requires Overflowing(cells, iOld, iOldEnd, aiOvfl) && i < |aiOvfl| && iNew <= iNewEnd
    requires Passed(b, Lo(iOld, iNew, iNewEnd), iOld, aiOvfl, i)
    ensures iNew <= iOld + aiOvfl[i] < iNewEnd <==> b <= iOld + aiOvfl[i] < Hi(iOld, iOldEnd, iNew, iNewEnd)
    ensures Passed(b, Lo(iOld, iNew, iNewEnd), iOld, aiOvfl, i + 1)
    ensures iNew <= iOld + aiOvfl[i] < iNewEnd ==>
      Passed(iOld + aiOvfl[i] + 1, Lo(iOld, iNew, iNewEnd), iOld, aiOvfl, i + 1)
  {
  }

  /** The cells in front of b are behind none of the overflow cells that follow. */
  predicate Passed(b: nat, lo: nat, iOld: nat, aiOvfl: seq<nat>, i: nat) {
    lo <= b && i <= |aiOvfl| && (b == lo || (0 < i && b <= iOld + aiOvfl[i - 1] + 1))
  }

  /** Add the overflow cells that belong to the run. */
  method FillOverflows(
      p: MemPage, begin: nat, pData: nat, nCell: nat, cells: seq<Cell>, iOld: nat, ghost iOldEnd: nat, iNew: nat,
      nNew: nat, aiOvfl: seq<nat>, ghost d0: seq<byte>, ghost w: Work, ghost cur: seq<Span>)
    returns (ok: bool, pData': nat, nCell': nat, ghost w': Work, ghost cur': seq<Span>)
    requires Overflowing(cells, iOld, iOldEnd, aiOvfl) && iNew + nNew <= |cells| && nCell == |cur|
    requires forall i :: iNew <= i < iNew + nNew ==> SizeOfCell(cells[i]) >= 4
    requires var lo, hi := Lo(iOld, iNew, iNew + nNew), Hi(iOld, iOldEnd, iNew, iNew + nNew);
      Filling(p, d0, begin, pData, w, cur, cells, iNew, lo, hi, iNew + nNew)
    modifies p.aData
    ensures var hi := Hi(iOld, iOldEnd, iNew, iNew + nNew);
      if ok then nCell' == |cur'| && Filling(p, d0, begin, pData', w', cur', cells, iNew, hi, hi, iNew + nNew)
      else Failed(p, d0, w', cells[iNew..iNew + nNew])
  {
    hide Filling, Failed, Overflowing, Pending, Present;
    ghost var lo: nat, hi: nat := Lo(iOld, iNew, iNew + nNew), Hi(iOld, iOldEnd, iNew, iNew + nNew);
    ghost var b: nat := lo;
    ok, pData', nCell', w', cur' := true, pData, nCell, w, cur;
    LoHi(cells, iOld, iOldEnd, iNew, iNew + nNew, aiOvfl);
    PendingAll(cells, iOld, iOldEnd, b, hi, aiOvfl);
    var i := 0;
    while i < |aiOvfl|
      invariant i <= |aiOvfl| && Passed(b, lo, iOld, aiOvfl, i) && b <= hi && nCell' == |cur'|
      invariant Filling(p, d0, begin, pData', w', cur', cells, iNew, b, hi, iNew + nNew)
      invariant Pending(cells, iOld, b, hi, aiOvfl, i)
    {
      PendingNext(cells, iOld, iOldEnd, b, hi, aiOvfl, i);
      InRun(cells, iOld, iOldEnd, iNew, iNew + nNew, b, aiOvfl, i);
      var iCell: int := iOld + aiOvfl[i] - iNew;
      if 0 <= iCell < nNew {
        ghost var x := iNew + iCell;
        FillingSame(p, d0, begin, pData', w', cur', cells, iNew, b, x, hi, iNew + nNew);
        ok, pData', w', cur' :=
          FillOverflow(p, begin, pData', iCell, nCell', cells, iNew, hi, iNew + nNew, d0, w', cur');
        nCell' := nCell' + 1;
        if !ok {
          return;
        }
        b := x + 1;
      }
      i := i + 1;
    }
    PendingNone(cells, iOld, b, hi, aiOvfl);
    FillingSame(p, d0, begin, pData', w', cur', cells, iNew, b, hi, hi, iNew + nNew);
  }

  lemma LoHi(cells: seq<Cell>, iOld: nat, iOldEnd: nat, iNew: nat, iNewEnd: nat, aiOvfl: seq<nat>)
    requires Overflowing(cells, iOld, iOldEnd, aiOvfl) && iNew <= iNewEnd <= |cells|
    ensures var lo, hi := Lo(iOld, iNew, iNewEnd), Hi(iOld, iOldEnd, iNew, iNewEnd);
      iNew <= lo <= hi <= iNewEnd && (lo == hi || (iOld <= lo && hi <= iOldEnd))
  {
  }

  /** Cells that are on the page already are passed over. */
  lemma FillingSame(
      p: MemPage, d0: seq<byte>, begin: nat, pData: nat, w: Work, cur: seq<Span>, cells: seq<Cell>, iNew: nat, b: nat,
      c: nat, hi: nat, iNewEnd: nat)
    requires iNew <= b <= c <= hi <= iNewEnd <= |cells| && forall k :: b <= k < c ==> cells[k].Here?
    requires Filling(p, d0, begin, pData, w, cur, cells, iNew, b, hi, iNewEnd)
    ensures Filling(p, d0, begin, pData, w, cur, cells, iNew, c, hi, iNewEnd)
  {
    hide Content, Pointed, Keeps, Present;
    PresentSame(cells, iNew, b, c, hi);
  }

  /** Put the missing cells of the run into the trimmed page. */
  method Fill(
      p: MemPage, begin: nat, pData: nat, nCell: nat, cells: seq<Cell>, iOld: nat, ghost iOldEnd: nat, iNew: nat,
      nNew: nat, aiOvfl: seq<nat>, ghost d0: seq<byte>, ghost w: Work, ghost cur: seq<Span>)
    returns (ok: bool, pData': nat, ghost w': Work, ghost cur': seq<Span>)
    requires Overflowing(cells, iOld, iOldEnd, aiOvfl) && iNew + nNew <= |cells|
    requires forall i :: iNew <= i < iNew + nNew ==> SizeOfCell(cells[i]) >= 4
    requires p.hdrOffset == 0 && 8 <= p.cellOffset && begin == p.cellOffset + 2 * nNew
    requires var lo, hi := Lo(iOld, iNew, iNew + nNew), Hi(iOld, iOldEnd, iNew, iNew + nNew);
      && iNew <= lo <= hi <= iNew + nNew && nCell == |cur| == |Only(cells[lo..hi])|
      && (forall i :: iNew <= i < lo || hi <= i < iNew + nNew ==> cells[i].There?)
      && Content(p.aData[..], d0, p.CellFirst(), begin, p.usableSize, pData, w, cur, Only(cells[lo..hi]),
                 cells[iNew..iNew + nNew])
    requires Pointed(p.aData[..], p.cellOffset, cur) && Keeps(d0, p.aData[..], p.cellOffset, 0, 0, [])
    modifies p.aData
    ensures var iNewEnd := iNew + nNew;
      if ok then Filling(p, d0, begin, pData', w', cur', cells, iNew, iNewEnd, iNewEnd, iNewEnd)
      else Failed(p, d0, w', cells[iNew..iNewEnd])
  {
    hide Content, Pointed, Keeps, Overflowing, Only, Failed;
    ghost var lo, hi := Lo(iOld, iNew, iNew + nNew), Hi(iOld, iOldEnd, iNew, iNew + nNew);
    ok, pData', w', cur' := true, pData, w, cur;
    var nCell' := nCell;
    if iNew < iOld {
      var nAdd := if nNew < iOld - iNew then nNew else iOld - iNew;
      ok, pData', w', cur' := FillFront(p, begin, pData, nAdd, nCell, cells, iNew, hi, iNew + nNew, d0, w, cur);
      if !ok {
        return;
      }
      nCell' := nCell + nAdd;
    } else {
      assert Present(cells, iNew, lo, hi) == Only(cells[lo..hi]);
    }
    assert nCell' == |cur'| by { PresentLength(cells, iNew, lo, hi); }
    hide Filling;
    ok, pData', nCell', w', cur' :=
      FillOverflows(p, begin, pData', nCell', cells, iOld, iOldEnd, iNew, nNew, aiOvfl, d0, w', cur');
    if ok {
      ok, pData', w', cur' := FillBack(p, begin, pData', nCell', cells, iNew, hi, iNew + nNew, d0, w', cur');
    }
  }

  /** The header of a page that has been filled up. */
  method WriteHeader(
      p: MemPage, begin: nat, pData: nat, nNew: nat, cells: seq<Cell>, ghost iNew: nat, ghost d0: seq<byte>,
      ghost w: Work, ghost cur: seq<Span>)
    requires iNew + nNew <= |cells|
    requires Filling(p, d0, begin, pData, w, cur, cells, iNew, iNew + nNew, iNew + nNew, iNew + nNew)
    modifies p`nCell, p.aData
    ensures p.nCell == nNew == |cur|
    ensures Tidy(p.aData[..], 0, p.CellFirst(), p.usableSize, w.fb, cur) && Pointed(p.aData[..], p.cellOffset, cur)
    ensures Holds(p.aData[..], cur, Texts(d0, cells[iNew..iNew + nNew]))
    ensures Keeps(d0, p.aData[..], p.cellOffset, 0, 0, [])
  {
    hide Content, Pointed, Keeps, Holds, Tidy, Put2;
    ghost var d, first, run := p.aData[..], p.CellFirst(), cells[iNew..iNew + nNew];
    assert Present(cells, iNew, iNew + nNew, iNew + nNew) == run;
    FilledBounds(d, d0, first, begin, p.usableSize, pData, w, cur, run);
    p.nCell := nNew;
    p.Write2(3, p.nCell);
    p.Write2(5, pData);
    FilledUp(d, p.aData[..], d0, first, begin, p.usableSize, pData, p.cellOffset, w, cur, run);
  }

  lemma FilledBounds(
      d: seq<byte>, d0: seq<byte>, first: nat, begin: nat, usable: nat, pData: nat, w: Work, cur: seq<Span>,
      run: seq<Cell>)
    requires Content(d, d0, first, begin, usable, pData, w, cur, run, run)
    ensures |d| >= 8 && begin <= 0x1_0000
  {
    EditedBounds(d, first, begin, usable, pData, w);
  }

  /**
    editPage: the page had the cells [iOld, iOldEnd) of the array, but for those that overflowed; now it has the nNew
    cells from iNew on, byte for byte, in a content area that is tidy again.
   */
  method EditPage(
      p: MemPage, iOld: nat, iNew: nat, nNew: nat, cells: seq<Cell>, aiOvfl: seq<nat>, ghost fb: seq<Span>)
    returns (rc: Rc, ghost fb': seq<Span>, ghost spans: seq<Span>)
    requires var iOldEnd := iOld + p.nCell + |aiOvfl|;
      && OthersAway(cells, iOld, iOldEnd) && Overflowing(cells, iOld, iOldEnd, aiOvfl)
      && Listed(p, fb, Heres(cells[iOld..iOldEnd])) && p.nCell == |Heres(cells[iOld..iOldEnd])|
    requires iNew + nNew <= |cells| && Sized(cells[iNew..iNew + nNew]) && p.cellOffset + 2 <= p.usableSize
    modifies p`nFree, p`nCell, p.aData
    ensures rc == if Roomy(cells[iNew..iNew + nNew], p.cellOffset, p.usableSize) then Ok else Corrupt
    ensures rc.Ok? ==>
      && p.nCell == nNew == |spans| && Total(spans) == Total(Shape(cells[iNew..iNew + nNew]))
      && Tidy(p.aData[..], 0, p.CellFirst(), p.usableSize, fb', spans) && Pointed(p.aData[..], p.cellOffset, spans)
      && Holds(p.aData[..], spans, Texts(old(p.aData[..]), cells[iNew..iNew + nNew]))
    ensures Keeps(old(p.aData[..]), p.aData[..], p.cellOffset, 0, 0, [])
  {
    hide Heres, Only, Tidy, Keeps, Pointed, Holds, Content, Filling, Edited, Roomy, Safe, Reachable, OthersAway,
         Overflowing, Within, Total, Shape;
    ghost var d0 := p.aData[..];
    var begin := p.cellOffset + 2 * nNew;
    var iOldEnd := iOld + p.nCell + |aiOvfl|;
    var iNewEnd := iNew + nNew;
    ghost var run := cells[iNew..iNewEnd];
    RunSizes(cells, iNew, iNewEnd);
    var nCell;
    nCell, fb' := Trim(p, iOld, iOldEnd, iNew, iNewEnd, cells, fb);
    ghost var lo, hi := Lo(iOld, iNew, iNewEnd), Hi(iOld, iOldEnd, iNew, iNewEnd);
    ghost var d, w := p.aData[..], Work(fb', Heres(cells[lo..hi]), []);
    TidyBounds(d, 0, p.CellFirst(), p.usableSize, w.fb, w.used);
    Trimmed(d, d0, p.CellFirst(), p.cellOffset, p.usableSize, fb', cells, lo, hi, iNew, iNewEnd);
    OnlyHeres(cells[lo..hi]);
    var pData := p.Read2(5);
    pData := if pData == 0 then 65536 else pData;
    var ok := pData >= begin;
    spans := w.used;
    if ok {
      TrimmedContent(d, d0, p.CellFirst(), begin, p.usableSize, w, Only(cells[lo..hi]), run);
      ok, pData, w, spans :=
        Fill(p, begin, pData, nCell, cells, iOld, iOldEnd, iNew, nNew, aiOvfl, d0, w, spans);
    }
    if ok {
      WriteHeader(p, begin, pData, nNew, cells, iNew, d0, w, spans);
      rc, fb' := Ok, w.fb;
      SizesHeld(p.aData[..], d0, spans, run);
      RoomyHeld(p.aData[..], p.cellOffset, p.CellFirst(), p.usableSize, fb', spans, run);
    } else {
      ghost var d1 := p.aData[..];
      RebuildFrom(d1, d0, p.CellFirst(), p.usableSize, w, run);
      rc, spans := Rebuild(p, cells[iNew..iNewEnd]);
      fb' := [];
      AmongSelf([]);
      KeepsOn(d0, d1, p.aData[..], p.cellOffset, 0, 0, [], 0, 0, [], 0, 0, []);
      if rc.Ok? {
        SizesHeld(p.aData[..], d0, spans, run);
      }
    }
  }

  lemma RunSizes(cells: seq<Cell>, iNew: nat, iNewEnd: nat)
    requires iNew <= iNewEnd <= |cells| && Sized(cells[iNew..iNewEnd])
    ensures forall i :: iNew <= i < iNewEnd ==> SizeOfCell(cells[i]) >= 4
  {
    var run := cells[iNew..iNewEnd];
    forall i | iNew <= i < iNewEnd ensures SizeOfCell(cells[i]) >= 4 {
      assert cells[i] == run[i - iNew];
    }
  }

  /** Cells that are on a page have room there. */
  lemma RoomyHeld(d: seq<byte>, at: nat, first: nat, usable: nat, fb: seq<Span>, spans: seq<Span>, run: seq<Cell>)
    requires Tidy(d, 0, first, usable, fb, spans) && first == at + 2 * |run|
    requires Total(spans) == Total(Shape(run)) && Sized(run)
    ensures Roomy(run, at, usable)
  {
    FreeBytesAddUp(d, 0, first, usable, fb, spans);
  }
}
