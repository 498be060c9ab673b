/**
  fillInCell: a cell is built from a payload, and what does not fit goes to overflow pages.
 */
module PayloadWrite {

  import opened Basics
  import opened PageSpace
  import opened CellFormat
  import opened OverflowChain
  import Varint

  /** OVERRUN stands for an access outside of an array, for which the language gives no result. */
  datatype Rc = OK | CORRUPT | FULL | OVERRUN

  /** BtreePayload: a table row with its key, data and trailing zeros, or an index key as data. */
  datatype BtreePayload = BtreePayload(nKey: nat, data: seq<byte>, nZero: nat)

  function Payload(f: Form, x: BtreePayload): seq<byte> {
    if f.intKey then x.data + Repeat<byte>(x.nZero, 0) else x.data
  }

  /** The cell and the overflow pages in the list hold the payload. */
  ghost predicate Holds(f: Form, cell: seq<byte>, pages: Pages, list: seq<nat>, payload: seq<byte>)
    requires f.Valid()
  {
    var i := Parsed(f, cell);
    && i.nPayload == |payload| && i.nSize <= |cell|
    && cell[i.header..i.header + i.nLocal] == payload[..i.nLocal]
    && Spilled(pages, list, payload[i.nLocal..], f.usable - 4)
    && (i.nLocal < i.nPayload ==> Get4(cell, i.header + i.nLocal) == No(list, 0))
  }

  /**
    The state of the writing loop: w bytes of the data are stored, the first l of them in the cell behind its
    header of h bytes, the rest on the overflow pages in the list.
   */
  ghost predicate Filling(cell: seq<byte>, pages: Pages, list: seq<nat>, data: seq<byte>, h: nat, l: nat, w: nat,
                          u: nat) {
    && u > 0 && w <= |data| && l <= |data| && h + l <= |cell| && (l < |data| ==> h + l + 4 <= |cell|)
    && Linked(pages, list)
    && if list == [] then w <= l && cell[h..h + w] == data[..w]
       else
         && l <= w && l < |data| && cell[h..h + l] == data[..l] && Get4(cell, h + l) == list[0]
         && Spilling(pages, list, data[l..w], u)
  }

  /** The pages in the list hold the data, which reaches into the last of them. */
  ghost predicate Spilling(pages: Pages, list: seq<nat>, d: seq<byte>, u: nat)
    requires Linked(pages, list)
  {
    && list != [] && Begin(|list| - 1, u) <= |d| <= Begin(|list|, u)
    && forall t :: 0 <= t < |list| ==> PageHolds(pages[list[t]], d, t, u)
  }

  lemma FillLocal(cell: seq<byte>, pages: Pages, data: seq<byte>, h: nat, l: nat, w: nat, u: nat, n: nat)
    requires Filling(cell, pages, [], data, h, l, w, u) && w + n <= l
    ensures Filling(Patch(cell, h + w, data[w..w + n]), pages, [], data, h, l, w + n, u)
  {
    var c := data[w..w + n];
    hide Patch;
    PatchBehind(cell, h + w, c, h);
    TakeMore(data, w, n);
  }

  lemma PageFull(p: seq<byte>, d: seq<byte>, e: seq<byte>, t: nat, u: nat)
    requires PageHolds(p, d, t, u) && Begin(t, u) + u <= |d| <= |e| && e[..|d|] == d
    ensures PageHolds(p, e, t, u)
  {
    hide Begin;
    SliceOfTake(e, |d|, Begin(t, u), Begin(t, u) + u);
  }

  /** More bytes on the last page, behind those that are there. */
  lemma PageGrows(p: seq<byte>, d: seq<byte>, e: seq<byte>, t: nat, u: nat)
    requires PageHolds(p, d, t, u) && |d| <= |e| <= Begin(t, u) + u && Begin(t, u) <= |d| && e[..|d|] == d
    ensures PageHolds(Patch(p, 4 + (|d| - Begin(t, u)), e[|d|..]), e, t, u)
  {
    var b, o := Begin(t, u), |d| - Begin(t, u);
    var c := e[|d|..];
    hide Begin;
    var q, f := Patch(p, 4 + o, c)[4..4 + (|e| - b)], e[b..|e|];
    forall j | 0 <= j < |e| - b ensures q[j] == f[j] {
      PatchAt(p, 4 + o, c, 4 + j);
      if j < o {
        assert p[4..4 + o][j] == d[b..|d|][j];
        assert e[..|d|][b + j] == d[b + j];
      }
    }
    assert q == f;
  }

  lemma FillPage(cell: seq<byte>, pages: Pages, list: seq<nat>, data: seq<byte>, h: nat, l: nat, w: nat, u: nat, n: nat)
    requires Filling(cell, pages, list, data, h, l, w, u) && list != [] && w + n <= |data|
    requires w - l + n <= Begin(|list|, u)
    ensures var k := |list| - 1; var p := list[k]; var o := w - l - Begin(k, u);
      && 0 <= o && 4 + o + n <= |pages[p]|
      && Filling(cell, pages[p := Patch(pages[p], 4 + o, data[w..w + n])], list, data, h, l, w + n, u)
  {
    hide Begin, Patch, Spilling, Linked, Get4, PageHolds;
    var d, e := data[l..w], data[l..w + n];
    assert e[..|d|] == d && e[|d|..] == data[w..w + n];
    SpillOrder(pages, list, d, u);
    SpillGrows(pages, list, d, e, u);
  }

  lemma SpillOrder(pages: Pages, list: seq<nat>, d: seq<byte>, u: nat)
    requires Linked(pages, list) && Spilling(pages, list, d, u)
    ensures list != [] && list[|list| - 1] in pages && Begin(|list| - 1, u) <= |d| <= Begin(|list|, u)
  {
  }

  lemma SpillGrows(pages: Pages, list: seq<nat>, d: seq<byte>, e: seq<byte>, u: nat)
    requires Linked(pages, list) && Spilling(pages, list, d, u) && |d| <= |e| <= Begin(|list|, u) && e[..|d|] == d
    ensures var k := |list| - 1; var p := list[k]; var o := |d| - Begin(k, u);
      && 0 <= o && 4 + o + (|e| - |d|) <= |pages[p]|
      && var ps := pages[p := Patch(pages[p], 4 + o, e[|d|..])]; Linked(ps, list) && Spilling(ps, list, e, u)
  {
    hide Begin, Patch, Get4, PageHolds;
    var k := |list| - 1;
    var p, o := list[k], |d| - Begin(k, u);
    BeginStep(k, u);
    PageSize(pages[p], d, k, u);
    PageGrows(pages[p], d, e, k, u);
    Get4Other(pages[p], 4 + o, e[|d|..], 0);
    GrownPages(pages, list, d, e, u, Patch(pages[p], 4 + o, e[|d|..]));
  }

  lemma PageSize(p: seq<byte>, d: seq<byte>, t: nat, u: nat)
    requires PageHolds(p, d, t, u)
    ensures |p| >= u + 4
  {
  }

  /** All pages but the last are full, so they hold the longer data as well. */
  lemma GrownPages(pages: Pages, list: seq<nat>, d: seq<byte>, e: seq<byte>, u: nat, q: seq<byte>)
    requires list != [] && Linked(pages, list) && forall t :: 0 <= t < |list| ==> PageHolds(pages[list[t]], d, t, u)
    requires Begin(|list| - 1, u) <= |d| <= |e| && e[..|d|] == d
    requires PageHolds(q, e, |list| - 1, u) && Get4(q, 0) == Get4(pages[list[|list| - 1]], 0)
    ensures var ps := pages[list[|list| - 1] := q];
      Linked(ps, list) && forall t :: 0 <= t < |list| ==> PageHolds(ps[list[t]], e, t, u)
  {
    hide Begin, Get4;
    var k := |list| - 1;
    var ps := pages[list[k] := q];
    forall t | 0 <= t < |list| ensures PageHolds(ps[list[t]], e, t, u) {
      if t < k {
        BeginOrder(t, k, u);
        PageFull(pages[list[t]], d, e, t, u);
      }
    }
  }

  /** The cell and the pages after another overflow page was linked in. */
  function LinkedCell(cell: seq<byte>, list: seq<nat>, at: nat, p: nat): seq<byte>
    requires at + 4 <= |cell|
  {
    if list == [] then Patch(cell, at, Bytes4(p)) else cell
  }

  function LinkedPages(pages: Pages, list: seq<nat>, p: nat): Pages
    requires p in pages && |pages[p]| >= 4
    requires list != [] ==> list[|list| - 1] in pages && |pages[list[|list| - 1]]| >= 4
  {
    var ps := if list == [] then pages else
      var q := list[|list| - 1];
      pages[q := Patch(pages[q], 0, Bytes4(p))];
    ps[p := Patch(pages[p], 0, Bytes4(0))]
  }

  lemma FillNew(cell: seq<byte>, pages: Pages, list: seq<nat>, data: seq<byte>, h: nat, l: nat, w: nat, u: nat, p: nat)
    requires Filling(cell, pages, list, data, h, l, w, u) && w == l + Begin(|list|, u) && w < |data|
    requires 0 < p < U32 && p !in list && p in pages && |pages[p]| >= u + 4
    ensures list != [] ==> list[|list| - 1] in pages && |pages[list[|list| - 1]]| >= 4
    ensures Filling(LinkedCell(cell, list, h + l, p), LinkedPages(pages, list, p), list + [p], data, h, l, w, u)
  {
    BeginStep(|list|, u);
    NewLinked(pages, list, data[l..w], u, p);
    if list == [] {
      Get4Put(cell, h + l, p);
      SliceKept(cell, h + l, Bytes4(p), h, h + l);
    }
    hide Begin, PageHolds, Get4, Patch, Linked, LinkedPages;
    assert (list + [p])[0] == if list == [] then p else list[0];
  }

  lemma NewLinked(pages: Pages, list: seq<nat>, d: seq<byte>, u: nat, p: nat)
    requires Linked(pages, list) && forall t :: 0 <= t < |list| ==> PageHolds(pages[list[t]], d, t, u)
    requires 0 < p < U32 && p !in list && p in pages && |pages[p]| >= u + 4 && |d| == Begin(|list|, u)
    ensures list != [] ==> list[|list| - 1] in pages && |pages[list[|list| - 1]]| >= 4
    ensures var ps, ys := LinkedPages(pages, list, p), list + [p];
      Linked(ps, ys) && forall t :: 0 <= t < |ys| ==> PageHolds(ps[ys[t]], d, t, u)
  {
    var k := |list|;
    var ps, ys := LinkedPages(pages, list, p), list + [p];
    EmptyPage(pages[p], d, k, u);
    if k > 0 {
      LinkPage(pages[list[k - 1]], d, k - 1, u, p);
    }
    hide PageHolds, Get4, Patch, Bytes4, Begin;
    forall t | 0 <= t < |ys|
      ensures PageHolds(ps[ys[t]], d, t, u) && ys[t] in ps && ys[t] != 0 && |ps[ys[t]]| >= 4
      ensures Get4(ps[ys[t]], 0) == No(ys, t + 1)
    {
      if t < k - 1 {
        assert list[t] != list[k - 1];
      }
    }
  }

  lemma EmptyPage(p: seq<byte>, d: seq<byte>, t: nat, u: nat)
    requires |p| >= u + 4 && |d| == Begin(t, u)
    ensures PageHolds(Patch(p, 0, Bytes4(0)), d, t, u) && Get4(Patch(p, 0, Bytes4(0)), 0) == 0
  {
    Get4Put(p, 0, 0);
    hide Begin;
    assert Patch(p, 0, Bytes4(0))[4..4] == d[|d|..|d|];
  }

  lemma LinkPage(p: seq<byte>, d: seq<byte>, t: nat, u: nat, next: nat)
    requires PageHolds(p, d, t, u) && next < U32
    ensures PageHolds(Patch(p, 0, Bytes4(next)), d, t, u) && Get4(Patch(p, 0, Bytes4(next)), 0) == next
  {
    Get4Put(p, 0, next);
    hide Begin;
    SliceKept(p, 0, Bytes4(next), 4, 4 + End(t, u, |d|) - Begin(t, u));
    hide Patch;
  }

  /** The pages that allocateBtreePage hands out, in turn. */
  ghost predicate Allocatable(pages: Pages, alloc: seq<nat>, usable: nat) {
    && (forall i :: 0 <= i < |alloc| ==> 0 < alloc[i] < U32 && alloc[i] in pages && |pages[alloc[i]]| >= usable)
    && (forall i, j :: 0 <= i < j < |alloc| ==> alloc[i] != alloc[j])
  }

  /** Only the listed pages have changed. */
  ghost predicate Untouched(was: Pages, now: Pages, list: seq<nat>) {
    was.Keys == now.Keys && forall p :: p in was ==> |now[p]| == |was[p]| && (p !in list ==> now[p] == was[p])
  }

  /** Everything the loop keeps. */
  ghost predicate Writing(f: Form, header: seq<byte>, buf: seq<byte>, was: Pages, alloc: seq<nat>, data: seq<byte>,
                          cell: seq<byte>, pages: Pages, j: nat, w: nat) {
    && Written(f, header, buf, was, alloc, data, cell, pages, j, w)
    && (j > 0 ==> Begin(j - 1, f.usable - 4) < w - Local(f, |data|))
  }

  /** The place and the room that are left where the loop writes next. */
  function Room(l: nat, j: nat, w: nat, u: nat): int {
    if j == 0 then l - w else Begin(j, u) - (w - l)
  }

  function PlaceOf(h: nat, l: nat, j: nat, w: nat, u: nat): int {
    if j == 0 then h + w else 4 + (w - l) - Begin(j - 1, u)
  }

  /** Bytes of the source while there are any, then zeros. */
  method NextChunk(data: seq<byte>, nZero: nat, src: nat, n0: nat) returns (c: seq<byte>)
    requires src + n0 <= |data| + nZero
    ensures |c| <= n0 && (n0 > 0 ==> |c| > 0) && c == (data + Repeat<byte>(nZero, 0))[src..src + |c|]
  {
    var n := n0;
    if src < |data| {
      if n > |data| - src { n := |data| - src; }
      c := data[src..src + n];
    } else {
      c := Repeat<byte>(n, 0);
    }
  }

  /** Link in a new overflow page. */
  method NewOverflow(cell0: seq<byte>, pages0: Pages, at: nat, prior: nat, p: nat, ghost list: seq<nat>)
    returns (cell: seq<byte>, pages: Pages)
    requires at + 4 <= |cell0| && p in pages0 && |pages0[p]| >= 4 && p != prior
    requires prior == (if list == [] then 0 else list[|list| - 1]) && (prior == 0 ==> list == [])
    requires prior != 0 ==> prior in pages0 && |pages0[prior]| >= 4
    ensures cell == LinkedCell(cell0, list, at, p) && pages == LinkedPages(pages0, list, p)
  {
    cell, pages := cell0, pages0;
    if prior == 0 {
      cell := Patch(cell, at, Bytes4(p));
    } else {
      pages := pages[prior := Patch(pages[prior], 0, Bytes4(p))];
    }
    pages := pages[p := Patch(pages[p], 0, Bytes4(0))];
  }

  lemma LinkedUntouched(was: Pages, pages: Pages, list: seq<nat>, p: nat)
    requires Untouched(was, pages, list) && p in pages && |pages[p]| >= 4
    requires list != [] ==> list[|list| - 1] in pages && |pages[list[|list| - 1]]| >= 4
    ensures Untouched(was, LinkedPages(pages, list, p), list + [p])
  {
    hide Patch;
  }

  lemma HeaderKept(f: Form, header: seq<byte>, buf: seq<byte>, cell: seq<byte>, at: nat, c: seq<byte>)
    requires |cell| == |buf| && f.childPtrSize <= |buf| && cell[..f.childPtrSize] == buf[..f.childPtrSize]
    requires Varint.Stands(header, cell, f.childPtrSize) && f.childPtrSize + |header| <= at && at + |c| <= |cell|
    ensures var r := Patch(cell, at, c);
      r[..f.childPtrSize] == buf[..f.childPtrSize] && Varint.Stands(header, r, f.childPtrSize)
  {
    SliceKept(cell, at, c, 0, f.childPtrSize);
    SliceKept(cell, at, c, f.childPtrSize, f.childPtrSize + |header|);
  }

  /** A new page keeps what the loop keeps, but that the new page is empty yet. */
  lemma NewKeeps(f: Form, header: seq<byte>, buf: seq<byte>, was: Pages, alloc: seq<nat>, data: seq<byte>,
                 cell: seq<byte>, pages: Pages, j: nat, w: nat)
    requires Writing(f, header, buf, was, alloc, data, cell, pages, j, w) && j < |alloc| && w < |data|
    requires w == Local(f, |data|) + Begin(j, f.usable - 4)
    ensures var p, at, list := alloc[j], f.childPtrSize + |header| + Local(f, |data|), alloc[..j];
      && at + 4 <= |cell| && p in pages && |pages[p]| >= 4 && p != 0 && p !in list
      && (list != [] ==> list[|list| - 1] in pages && |pages[list[|list| - 1]]| >= 4 && list[|list| - 1] != 0)
      && Written(f, header, buf, was, alloc, data, LinkedCell(cell, list, at, p), LinkedPages(pages, list, p), j + 1, w)
  {
    hide Filling, Patch, Bytes4, Begin, Local, LinkedPages, LinkedCell, Untouched, Allocatable, Varint.Stands;
    var p, at, list := alloc[j], f.childPtrSize + |header| + Local(f, |data|), alloc[..j];
    NextAllocated(was, pages, alloc, j, f.usable);
    FillNew(cell, pages, list, data, f.childPtrSize + |header|, Local(f, |data|), w, f.usable - 4, p);
    LinkedUntouched(was, pages, list, p);
    CellFits(cell, pages, list, data, f.childPtrSize + |header|, Local(f, |data|), w, f.usable - 4);
    HeaderLinked(f, header, buf, cell, list, at, p);
  }

  lemma NextAllocated(was: Pages, pages: Pages, alloc: seq<nat>, j: nat, usable: nat)
    requires j < |alloc| && usable >= 4 && Allocatable(was, alloc, usable) && Untouched(was, pages, alloc[..j])
    ensures var p := alloc[j];
      0 < p < U32 && p in pages && |pages[p]| >= usable && p !in alloc[..j] && alloc[..j + 1] == alloc[..j] + [p]
    ensures j > 0 ==> alloc[..j][j - 1] in pages && |pages[alloc[..j][j - 1]]| >= 4 && alloc[..j][j - 1] != 0
  {
  }

  lemma CellFits(cell: seq<byte>, pages: Pages, list: seq<nat>, data: seq<byte>, h: nat, l: nat, w: nat, u: nat)
    requires Filling(cell, pages, list, data, h, l, w, u)
    ensures l < |data| ==> h + l + 4 <= |cell|
    ensures list == [] ==> w <= l
  {
  }

  lemma HeaderLinked(f: Form, header: seq<byte>, buf: seq<byte>, cell: seq<byte>, list: seq<nat>, at: nat, p: nat)
    requires |cell| == |buf| && f.childPtrSize <= |buf| && cell[..f.childPtrSize] == buf[..f.childPtrSize]
    requires Varint.Stands(header, cell, f.childPtrSize) && f.childPtrSize + |header| <= at && at + 4 <= |cell|
    ensures var r := LinkedCell(cell, list, at, p);
      |r| == |buf| && r[..f.childPtrSize] == buf[..f.childPtrSize] && Varint.Stands(header, r, f.childPtrSize)
  {
    HeaderKept(f, header, buf, cell, at, Bytes4(p));
    hide Patch, Bytes4;
  }

  /** As Writing, but the last page may be empty. */
  ghost predicate Written(f: Form, header: seq<byte>, buf: seq<byte>, was: Pages, alloc: seq<nat>, data: seq<byte>,
                          cell: seq<byte>, pages: Pages, j: nat, w: nat) {
    var h, u := f.childPtrSize + |header|, f.usable - 4;
    && f.Valid() && j <= |alloc| && Local(f, |data|) <= |data|
    && Filling(cell, pages, alloc[..j], data, h, Local(f, |data|), w, u)
    && |cell| == |buf| && f.childPtrSize <= |buf| && cell[..f.childPtrSize] == buf[..f.childPtrSize]
    && Varint.Stands(header, cell, f.childPtrSize)
    && Untouched(was, pages, alloc[..j]) && Allocatable(was, alloc, f.usable)
  }

  lemma ChunkLocal(f: Form, header: seq<byte>, buf: seq<byte>, was: Pages, alloc: seq<nat>, data: seq<byte>,
                   cell: seq<byte>, pages: Pages, w: nat, n: nat)
    requires Written(f, header, buf, was, alloc, data, cell, pages, 0, w) && w + n <= Local(f, |data|)
    ensures var at := f.childPtrSize + |header| + w;
      at + n <= |cell| && Writing(f, header, buf, was, alloc, data, Patch(cell, at, data[w..w + n]), pages, 0, w + n)
  {
    hide Patch, Local, Untouched, Spilling, Linked, Get4, Allocatable;
    assert alloc[..0] == [];
    FillLocal(cell, pages, data, f.childPtrSize + |header|, Local(f, |data|), w, f.usable - 4, n);
    HeaderKept(f, header, buf, cell, f.childPtrSize + |header| + w, data[w..w + n]);
  }

  lemma ChunkPage(f: Form, header: seq<byte>, buf: seq<byte>, was: Pages, alloc: seq<nat>, data: seq<byte>,
                  cell: seq<byte>, pages: Pages, j: nat, w: nat, n: nat)
    requires Written(f, header, buf, was, alloc, data, cell, pages, j, w) && j > 0 && n > 0
    requires w + n <= |data| && w - Local(f, |data|) + n <= Begin(j, f.usable - 4)
    ensures var p, at := alloc[j - 1], PlaceOf(0, Local(f, |data|), j, w, f.usable - 4);
      && p in pages && 4 <= at && at + n <= |pages[p]|
      && Writing(f, header, buf, was, alloc, data, cell, pages[p := Patch(pages[p], at, data[w..w + n])], j, w + n)
  {
    hide Filling, Patch, Local, Begin, Untouched, Allocatable;
    var list, p, o := alloc[..j], alloc[j - 1], w - Local(f, |data|) - Begin(j - 1, f.usable - 4);
    assert list[|list| - 1] == p;
    PageInChain(cell, pages, list, data, f.childPtrSize + |header|, Local(f, |data|), w, f.usable - 4);
    FillPage(cell, pages, list, data, f.childPtrSize + |header|, Local(f, |data|), w, f.usable - 4, n);
    UntouchedPut(was, pages, list, p, Patch(pages[p], 4 + o, data[w..w + n]));
  }

  lemma PageInChain(cell: seq<byte>, pages: Pages, list: seq<nat>, data: seq<byte>, h: nat, l: nat, w: nat, u: nat)
    requires Filling(cell, pages, list, data, h, l, w, u) && list != []
    ensures list[|list| - 1] in pages
  {
  }

  lemma UntouchedPut(was: Pages, pages: Pages, list: seq<nat>, p: nat, q: seq<byte>)
    requires Untouched(was, pages, list) && p in list && p in pages && |q| == |pages[p]|
    ensures Untouched(was, pages[p := q], list)
  {
  }

  lemma Finished(f: Form, header: seq<byte>, buf: seq<byte>, was: Pages, alloc: seq<nat>, data: seq<byte>,
                 cell: seq<byte>, pages: Pages, j: nat, nKey: nat)
    requires Writing(f, header, buf, was, alloc, data, cell, pages, j, |data|)
    requires |data| < U32 && nKey < U64 && header == Header(f, |data|, nKey)
    requires SizeOf(f, |data|, f.childPtrSize + |header|) <= |buf|
    ensures Holds(f, cell, pages, alloc[..j], data)
    ensures Parsed(f, cell).nSize == SizeOf(f, |data|, f.childPtrSize + |header|)
    ensures Parsed(f, cell).nKey == if f.intKey then nKey else |data|
  {
    hide Parsed, Begin, Local, Get4, PagesFor, Header, SizeOf, Untouched, Allocatable;
    HeaderIsRead(f, cell, |data|, nKey);
    FilledIsSpilled(f, cell, pages, alloc[..j], data, f.childPtrSize + |header|);
  }

  lemma FilledIsSpilled(f: Form, cell: seq<byte>, pages: Pages, list: seq<nat>, data: seq<byte>, h: nat)
    requires f.Valid() && Filling(cell, pages, list, data, h, Local(f, |data|), |data|, f.usable - 4)
    requires list != [] ==> Begin(|list| - 1, f.usable - 4) < |data| - Local(f, |data|)
    ensures var l := Local(f, |data|);
      && Spilled(pages, list, data[l..], f.usable - 4) && cell[h..h + l] == data[..l]
      && (l < |data| ==> Get4(cell, h + l) == No(list, 0))
  {
    var l, u := Local(f, |data|), f.usable - 4;
    Bounds(|data| - l, u, |list|);
    if list != [] { Bounds(|data| - l, u, |list| - 1); }
    BeginStep(0, u);
    hide Begin, Local, Get4, PagesFor, Linked, PageHolds;
    assert data[l..|data|] == data[l..];
  }

  lemma HeaderWritten(f: Form, header: seq<byte>, buf: seq<byte>, pages: Pages, alloc: seq<nat>, data: seq<byte>)
    requires f.Valid() && Allocatable(pages, alloc, f.usable)
    requires SizeOf(f, |data|, f.childPtrSize + |header|) <= |buf|
    ensures Writing(f, header, buf, pages, alloc, data, Patch(buf, f.childPtrSize, header), pages, 0, 0)
  {
    var cell := Patch(buf, f.childPtrSize, header);
    SliceKept(buf, f.childPtrSize, header, 0, f.childPtrSize);
    assert cell[f.childPtrSize..f.childPtrSize + |header|] == header;
    assert alloc[..0] == [] && cell[f.childPtrSize + |header|..f.childPtrSize + |header|] == data[..0];
    hide Patch;
  }

  /** The loop of fillInCell. */
  method WritePayload(f: Form, ghost header: seq<byte>, ghost buf: seq<byte>, pages0: Pages, alloc: seq<nat>,
                      ghost data: seq<byte>,
                      src: seq<byte>, nZero: nat, cell0: seq<byte>, h: nat, local: nat)
    returns (rc: Rc, cell: seq<byte>, pages: Pages, j: nat)
    requires Writing(f, header, buf, pages0, alloc, data, cell0, pages0, 0, 0) && data == src + Repeat<byte>(nZero, 0)
    requires local == Local(f, |data|) && h == f.childPtrSize + |header|
    ensures rc == OK ==> Writing(f, header, buf, pages0, alloc, data, cell, pages, j, |data|)
    ensures rc == OK <==> PagesFor(|data| - local, f.usable - 4) <= |alloc|
  {
    hide Local, Begin, Filling, Untouched, Patch, LinkedCell, LinkedPages, PagesFor;
    var u := f.usable - 4;
    BeginStep(0, u);
    cell, pages := cell0, pages0;
    var nPayload: nat := |src| + nZero;
    var spaceLeft, pPayload, prior: nat := local, h, 0;
    var w: nat := 0;   // how far pSrc has moved
    j := 0;
    while nPayload > 0
      invariant nPayload + w == |data| && j <= |alloc|
      invariant Writing(f, header, buf, pages0, alloc, data, cell, pages, j, w)
      invariant spaceLeft == Room(local, j, w, u) >= 0 && pPayload == PlaceOf(h, local, j, w, u)
      invariant prior == if j == 0 then 0 else alloc[j - 1]
    {
      if spaceLeft == 0 {
        if j == |alloc| {
          Bounds(|data| - local, u, j);
          return FULL, cell, pages, j;
        }
        NewKeeps(f, header, buf, pages0, alloc, data, cell, pages, j, w);
        cell, pages := NewOverflow(cell, pages, h + local, prior, alloc[j], alloc[..j]);
        prior := alloc[j];
        BeginStep(j, u);
        j := j + 1;
        pPayload := 4;
        spaceLeft := u;
      }
      var c := NextChunk(src, nZero, w, if nPayload > spaceLeft then spaceLeft else nPayload);
      if j == 0 {
        ChunkLocal(f, header, buf, pages0, alloc, data, cell, pages, w, |c|);
        cell := Patch(cell, pPayload, c);
      } else {
        ChunkPage(f, header, buf, pages0, alloc, data, cell, pages, j, w, |c|);
        pages := pages[prior := Patch(pages[prior], pPayload, c)];
      }
      nPayload, pPayload, spaceLeft, w := nPayload - |c|, pPayload + |c|, spaceLeft - |c|, w + |c|;
    }
    if j > 0 { Bounds(|data| - local, u, j - 1); }
    Bounds(|data| - local, u, j);
    rc := OK;
  }

  /** The header that fillInCell puts in front of the payload. */
  method PutHeader(f: Form, nPayload: nat, nKey: nat) returns (header: seq<byte>)
    requires nPayload < U32 && nKey < U64
    ensures header == Header(f, nPayload, nKey)
  {
    header := Varint.PutVarint(nPayload);
    if f.intKey {
      var key := Varint.PutVarint(nKey);
      header := header + key;
    }
  }

  lemma StaysThere(f: Form, cell: seq<byte>, pages: Pages, list: seq<nat>, data: seq<byte>)
    requires f.Valid() && Holds(f, cell, pages, list, data)
    ensures Stays(f, |data|, Parsed(f, cell).nLocal)
  {
    hide Stays, Varint.SizeVal, Varint.KeyVal, Varint.SizeLen, Local, Spilled, Get4;
    LocalIsAligned(f, |data|, Parsed(f, cell).nLocal);
  }

  /** fillInCell.  alloc lists the pages that allocateBtreePage hands out; it fails when there are no more. */
  method FillInCell(f: Form, buf: seq<byte>, x: BtreePayload, pages0: Pages, alloc: seq<nat>)
    returns (rc: Rc, cell: seq<byte>, nSize: nat, pages: Pages, nUsed: nat)
    requires f.Valid() && |Payload(f, x)| < 0x8000_0000 && x.nKey < U64
    requires SizeOf(f, |Payload(f, x)|, f.childPtrSize + |Header(f, |Payload(f, x)|, x.nKey)|) <= |buf|
    requires Allocatable(pages0, alloc, f.usable)
    ensures rc == OK <==> PagesFor(|Payload(f, x)| - Local(f, |Payload(f, x)|), f.usable - 4) <= |alloc|
    ensures rc == OK ==>
      && nUsed <= |alloc| && Holds(f, cell, pages, alloc[..nUsed], Payload(f, x))
      && nSize == Parsed(f, cell).nSize && Stays(f, |Payload(f, x)|, Parsed(f, cell).nLocal)
      && Parsed(f, cell).nKey == (if f.intKey then x.nKey else |x.data|)
      && Untouched(pages0, pages, alloc[..nUsed])
      && |cell| == |buf| && cell[..f.childPtrSize] == buf[..f.childPtrSize]
  {
    hide Stays, Allocatable, Untouched, Holds, Header, Parsed, Filling, PagesFor;
    ghost var data := Payload(f, x);
    var nPayload := if f.intKey then |x.data| + x.nZero else |x.data|;
    var header := PutHeader(f, nPayload, x.nKey);
    var h := f.childPtrSize + |header|;
    cell := Patch(buf, f.childPtrSize, header);
    pages := pages0;
    HeaderWritten(f, header, buf, pages0, alloc, data);
    var local := nPayload;
    nSize := h + nPayload;
    if nPayload <= f.maxLocal {
      if nSize < 4 { nSize := 4; }
    } else {
      local := f.minLocal + (nPayload - f.minLocal) % (f.usable - 4);
      if local > f.maxLocal { local := f.minLocal; }
      nSize := local + h + 4;
    }
    assert local == Local(f, |data|);
    var nZero := if f.intKey then x.nZero else 0;
    rc, cell, pages, nUsed := WritePayload(f, header, buf, pages0, alloc, data, x.data, nZero, cell, h, local);
    if rc == OK {
      Finished(f, header, buf, pages0, alloc, data, cell, pages, nUsed, x.nKey);
      StaysThere(f, cell, pages, alloc[..nUsed], data);
    }
  }
}
