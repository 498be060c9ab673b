/**
  The coverage check on the bytes of a page, corrupt or not: what btreeInitPage lets through, the cells and free
  blocks that go into the heap, and whether the heap, which is as large as a page, has room for them.
 */
module CoveragePage {

  import opened Basics
  import opened PageSpace
  import opened PageFreeSpace
  import opened CoverageHeap
  import opened Coverage
  import CellFormat
  import Varint

  /**
    CORRUPT is what btreeInitPage says, and SKIPPED that some cell leaves the page.  OVERRUN stands for a write
    behind the heap, for which the language gives no result.
   */
  datatype Rc = OK | CORRUPT | SKIPPED | OVERRUN

  /** Most cells that btreeInitPage lets through. */
  function MxCell(pageSize: nat): nat
    requires pageSize >= 8
  {
    (pageSize - 8) / 6
  }

  // ---- the free blocks that are let through

  /** The blocks come in order, with more than 3 bytes between them; they may be empty. */
  ghost predicate Rising(free: seq<Span>, first: nat) {
    && (free != [] ==> first <= free[0].off)
    && (forall k :: 0 <= k < |free| - 1 ==> free[k].End() + 3 < free[k + 1].off)
  }

  ghost predicate OnPage(free: seq<Span>, usable: nat) {
    forall k :: 0 <= k < |free| ==> 0 < free[k].off && free[k].off + 4 <= usable
  }

  /** The free blocks of a page, all within the page and with room for them. */
  ghost predicate Admitted(d: seq<byte>, hdr: nat, first: nat, usable: nat, free: seq<Span>)
    requires hdr + 7 < |d|
  {
    && Linked(d, hdr, free) && Rising(free, first) && OnPage(free, usable)
    && (free != [] ==> free[|free| - 1].End() <= usable)
    && d[hdr + 7] as nat + Top(d, hdr) + Total(free) <= usable
  }

  /** The first blocks of the list, which lead to next. */
  ghost predicate Walked(d: seq<byte>, hdr: nat, free: seq<Span>, next: nat) {
    && (forall k {:trigger PtrAddr(hdr, free, k)} :: 0 <= k <= |free| ==>
         PtrAddr(hdr, free, k) + 1 < |d| && Get2(d, PtrAddr(hdr, free, k)) == if k < |free| then free[k].off else next)
    && (forall k :: 0 <= k < |free| ==> free[k].off + 3 < |d| && Get2(d, free[k].off + 2) == free[k].size)
  }

  /** One more block. */
  lemma WalkOn(d: seq<byte>, hdr: nat, free: seq<Span>, pc: nat)
    requires Walked(d, hdr, free, pc) && pc + 3 < |d|
    ensures Walked(d, hdr, free + [Span(pc, Get2(d, pc + 2))], Get2(d, pc))
  {
    hide Get2;
    var x := free + [Span(pc, Get2(d, pc + 2))];
    forall k | 0 <= k <= |x|
      ensures PtrAddr(hdr, x, k) + 1 < |d|
      ensures Get2(d, PtrAddr(hdr, x, k)) == if k < |x| then x[k].off else Get2(d, pc)
    {
      assert k <= |free| ==> PtrAddr(hdr, x, k) == PtrAddr(hdr, free, k);
    }
  }

  /** A list that ends leads to nothing. */
  lemma WalkEnds(d: seq<byte>, hdr: nat, free: seq<Span>)
    ensures Walked(d, hdr, free, 0) <==> Linked(d, hdr, free)
  {
  }

  /** Any list of the page starts with what was walked. */
  lemma {:induction false} SameWalk(d: seq<byte>, hdr: nat, free: seq<Span>, next: nat, f: seq<Span>, n: nat)
    requires Walked(d, hdr, free, next) && Linked(d, hdr, f) && n <= |free|
    requires (forall k :: 0 <= k < |free| ==> free[k].off > 0) && forall k :: 0 <= k < |f| ==> f[k].off > 0
    ensures n <= |f| && f[..n] == free[..n]
    ensures n == |free| ==> next == OffsetOf(f, n)
  {
    if n > 0 {
      SameWalk(d, hdr, free, next, f, n - 1);
      assert PtrAddr(hdr, f, n - 1) == PtrAddr(hdr, free, n - 1);
      assert f[n - 1] == free[n - 1];
      assert f[..n] == f[..n - 1] + [f[n - 1]] && free[..n] == free[..n - 1] + [free[n - 1]];
    }
    assert PtrAddr(hdr, f, n) == PtrAddr(hdr, free, n);
  }

  ghost predicate Refused(d: seq<byte>, hdr: nat, first: nat, usable: nat)
    requires hdr + 7 < |d|
  {
    forall f :: !Admitted(d, hdr, first, usable, f)
  }

  /** The list cannot be let through: its next block does not fit, or it ends where it must not. */
  ghost predicate Stuck(d: seq<byte>, hdr: nat, first: nat, usable: nat, free: seq<Span>, next: nat)
    requires hdr + 7 < |d|
  {
    if next > 0 then next + 4 > usable || next < if free == [] then first else free[|free| - 1].End() + 4
    else
      || (free != [] && free[|free| - 1].End() > usable)
      || d[hdr + 7] as nat + Top(d, hdr) + Total(free) > usable
  }

  lemma StuckIsRefused(d: seq<byte>, hdr: nat, first: nat, usable: nat, free: seq<Span>, next: nat)
    requires hdr + 7 < |d| && Walked(d, hdr, free, next) && OnPage(free, usable)
    requires Stuck(d, hdr, first, usable, free, next)
    ensures Refused(d, hdr, first, usable)
  {
    hide Walked;
    forall f ensures !Admitted(d, hdr, first, usable, f) {
      Continues(d, hdr, first, usable, free, next, f);
    }
  }

  /** A list that is let through goes on from wherever the walk stands. */
  lemma Continues(d: seq<byte>, hdr: nat, first: nat, usable: nat, free: seq<Span>, next: nat, f: seq<Span>)
    requires hdr + 7 < |d| && Walked(d, hdr, free, next) && OnPage(free, usable)
    ensures Admitted(d, hdr, first, usable, f) ==> !Stuck(d, hdr, first, usable, free, next)
  {
    hide Walked, Linked, Top, Total;
    if Admitted(d, hdr, first, usable, f) {
      var n := |free|;
      SameWalk(d, hdr, free, next, f, n);
      assert free[..n] == free;
      if next == 0 {
        assert n == |f|;
        assert f[..n] == f;
      } else {
        assert n < |f| && f[n].off == next;
        if n > 0 {
          assert f[..n][n - 1] == free[n - 1];
          assert f[n - 1].End() + 3 < f[n - 1 + 1].off;
        }
      }
    }
  }

  /** The free blocks in btreeInitPage. */
  method InitFree(d: seq<byte>, hdr: nat, first: nat, usable: nat) returns (ok: bool, nFree: nat, ghost free: seq<Span>)
    requires hdr + 8 <= first <= usable <= |d| && 4 <= usable <= 0x1_0000
    ensures ok <==> !Refused(d, hdr, first, usable)
    ensures ok ==>
      && Admitted(d, hdr, first, usable, free)
      && nFree == (d[hdr + 7] as nat + Top(d, hdr) + Total(free) - first) % 0x1_0000
  {
    hide Linked, Walked, Top, Total, Rising, OnPage, Admitted, Refused;
    free := [];
    var pc := Get2(d, hdr + 1);
    WalkStarts(d, hdr);
    NoneYet(first, usable);
    nFree := d[hdr + 7] as nat + Top(d, hdr);
    ghost var n0 := nFree;
    if pc > 0 {
      if pc < first {
        StuckIsRefused(d, hdr, first, usable, free, pc);
        return false, 0, free;
      }
      var next, size;
      while true
        invariant 0 < pc < 0x1_0000 && Walked(d, hdr, free, pc) && nFree == n0 + Total(free)
        invariant Rising(free, first) && OnPage(free, usable)
        invariant pc >= if free == [] then first else free[|free| - 1].End() + 4
        decreases 0x1_0000 - pc
      {
        if pc + 4 > usable {
          StuckIsRefused(d, hdr, first, usable, free, pc);
          return false, 0, free;
        }
        next, size := Get2(d, pc), Get2(d, pc + 2);
        nFree := nFree + size;
        OneMore(d, hdr, first, usable, free, pc);
        free := free + [Span(pc, size)];
        if next <= pc + size + 3 { break; }
        pc := next;
      }
      if next > 0 {
        StuckIsRefused(d, hdr, first, usable, free, next);
        return false, 0, free;
      }
      if pc + size > usable {
        StuckIsRefused(d, hdr, first, usable, free, next);
        return false, 0, free;
      }
    }
    WalkEnds(d, hdr, free);
    if nFree > usable {
      StuckIsRefused(d, hdr, first, usable, free, 0);
      return false, 0, free;
    }
    ok, nFree := true, (nFree - first) % 0x1_0000;
    LetThrough(d, hdr, first, usable, free);
  }

  lemma LetThrough(d: seq<byte>, hdr: nat, first: nat, usable: nat, free: seq<Span>)
    requires hdr + 7 < |d| && Linked(d, hdr, free) && Rising(free, first) && OnPage(free, usable)
    requires free != [] ==> free[|free| - 1].End() <= usable
    requires d[hdr + 7] as nat + Top(d, hdr) + Total(free) <= usable
    ensures Admitted(d, hdr, first, usable, free) && !Refused(d, hdr, first, usable)
  {
    hide Linked, Rising, OnPage, Top, Total;
    assert Admitted(d, hdr, first, usable, free);
  }

  lemma NoneYet(first: nat, usable: nat)
    ensures Rising([], first) && OnPage([], usable) && Total([]) == 0
  {
  }

  lemma OneMore(d: seq<byte>, hdr: nat, first: nat, usable: nat, free: seq<Span>, pc: nat)
    requires Walked(d, hdr, free, pc) && Rising(free, first) && OnPage(free, usable)
    requires 0 < pc && pc + 4 <= usable <= |d|
    requires pc >= if free == [] then first else free[|free| - 1].End() + 4
    ensures var x := free + [Span(pc, Get2(d, pc + 2))];
      && Walked(d, hdr, x, Get2(d, pc)) && Rising(x, first) && OnPage(x, usable)
      && Total(x) == Total(free) + Get2(d, pc + 2)
  {
    hide Walked, Get2;
    WalkOn(d, hdr, free, pc);
    TotalAppend(free, [Span(pc, Get2(d, pc + 2))]);
    TotalSingle(Span(pc, Get2(d, pc + 2)));
  }

  lemma WalkStarts(d: seq<byte>, hdr: nat)
    requires hdr + 2 < |d|
    ensures Walked(d, hdr, [], Get2(d, hdr + 1))
  {
    assert PtrAddr(hdr, [], 0) == hdr + 1;
  }

  lemma FreeFits(d: seq<byte>, hdr: nat, first: nat, usable: nat, free: seq<Span>)
    requires hdr + 7 < |d| && Admitted(d, hdr, first, usable, free) && usable <= 0x1_0000
    ensures AllFit(free, usable) && 1 <= Top(d, hdr) <= usable
  {
    hide Linked, Total;
    forall k | 0 <= k < |free| ensures free[k].End() <= usable {
      assert k < |free| - 1 ==> free[k].End() + 3 < free[k + 1].off;
    }
  }

  // ---- the cells

  /** The i-th cell of the page. */
  function CellAt(d: seq<byte>, cellStart: nat, cellSize: seq<byte> -> nat, i: nat): Span
    requires cellStart + 2 * i + 1 < |d|
  {
    var pc := Get2(d, cellStart + 2 * i);
    Span(pc, if pc <= |d| then cellSize(d[pc..]) else 0)
  }

  function Cells(d: seq<byte>, cellStart: nat, cellSize: seq<byte> -> nat, n: nat): (xs: seq<Span>)
    requires cellStart + 2 * n <= |d|
    ensures |xs| == n && forall i :: 0 <= i < n ==> xs[i] == CellAt(d, cellStart, cellSize, i)
  {
    seq(n, i requires 0 <= i < n => CellAt(d, cellStart, cellSize, i))
  }

  predicate InRange(x: Span, content: nat, usable: nat) {
    content <= x.off && x.off + 4 <= usable && x.End() <= usable
  }

  predicate AllInRange(xs: seq<Span>, content: nat, usable: nat) {
    forall i :: 0 <= i < |xs| ==> InRange(xs[i], content, usable)
  }

  /** Whether all cells lie in the content area, looked at from the last to the first. */
  method CheckCells(d: seq<byte>, cellStart: nat, nCell: nat, content: nat, usable: nat, cellSize: seq<byte> -> nat)
    returns (doCoverageCheck: bool)
    requires cellStart + 2 * nCell <= |d| && usable <= |d|
    ensures doCoverageCheck <==> AllInRange(Cells(d, cellStart, cellSize, nCell), content, usable)
  {
    hide Get2;
    ghost var xs := Cells(d, cellStart, cellSize, nCell);
    doCoverageCheck := true;
    var i := nCell;
    while i > 0
      invariant 0 <= i <= nCell && (doCoverageCheck <==> forall k :: i <= k < nCell ==> InRange(xs[k], content, usable))
    {
      i := i - 1;
      var pc := Get2(d, cellStart + 2 * i);
      assert xs[i] == CellAt(d, cellStart, cellSize, i);
      if pc < content || pc + 4 > usable {
        doCoverageCheck := false;
      } else if pc + cellSize(d[pc..]) > usable {
        doCoverageCheck := false;
      }
    }
  }

  ghost predicate Words(heap: array<nat>)
    reads heap
  {
    0 < heap.Length <= SENTINEL && forall k :: 0 <= k < heap.Length ==> heap[k] <= SENTINEL
  }

  /** Put all cells into an empty heap, from the last to the first. */
  method AddCells(heap: array<nat>, d: seq<byte>, cellStart: nat, nCell: nat, cellSize: seq<byte> -> nat, usable: nat)
    returns (ok: bool)
    requires cellStart + 2 * nCell <= |d| && AllFit(Cells(d, cellStart, cellSize, nCell), usable) && usable <= |d|
    requires Words(heap)
    modifies heap
    ensures ok <==> nCell < heap.Length
    ensures ok ==> IsHeap(heap[..]) && heap[0] == nCell
    ensures ok ==> Items(heap[..], heap[0]) == Entries(Cells(d, cellStart, cellSize, nCell))
  {
    hide Ordered, Items, Entry, Get2;
    ghost var xs := Cells(d, cellStart, cellSize, nCell);
    heap[0] := 0;
    NoneOrdered(heap[..]);
    NoItems(heap[..]);
    var i := nCell;
    while i > 0
      invariant 0 <= i <= nCell && IsHeap(heap[..]) && heap[0] == nCell - i < heap.Length
      invariant Items(heap[..], heap[0]) == Entries(xs[i..])
    {
      i := i - 1;
      if heap[0] + 1 >= heap.Length { return false; }
      var x := CellAt(d, cellStart, cellSize, i);
      assert xs[i] == x && xs[i..][1..] == xs[i + 1..];
      EntryParts(x, usable);
      Insert(heap, Entry(x));
    }
    assert xs[0..] == xs;
    ok := true;
  }

  /** Add all free blocks, along their list. */
  method AddFreeBlocks(heap: array<nat>, d: seq<byte>, hdr: nat, usable: nat, ghost free: seq<Span>) returns (ok: bool)
    requires Linked(d, hdr, free) && OnPage(free, usable) && AllFit(free, usable) && hdr + 2 < |d| && usable <= |d|
    requires IsHeap(heap[..]) && heap.Length <= SENTINEL
    modifies heap
    ensures ok <==> old(heap[0]) + |free| < heap.Length
    ensures ok ==> IsHeap(heap[..]) && heap[0] == old(heap[0]) + |free|
    ensures ok ==> Items(heap[..], heap[0]) == Items(old(heap[..]), old(heap[0])) + Entries(free)
  {
    hide Ordered, Items, Entry, Get2;
    ghost var k := 0;
    WalkStarts(d, hdr);
    BlockAt(d, hdr, free, 0);
    var i := Get2(d, hdr + 1);
    while i > 0
      invariant k <= |free| && i == OffsetOf(free, k) && IsHeap(heap[..]) && heap[0] == old(heap[0]) + k
      invariant Items(heap[..], heap[0]) == Items(old(heap[..]), old(heap[0])) + Entries(free[..k])
      decreases |free| - k
    {
      if heap[0] + 1 >= heap.Length { return false; }
      BlockAt(d, hdr, free, k + 1);
      var size := Get2(d, i + 2);
      assert free[k] == Span(i, size);
      EntryParts(free[k], usable);
      assert free[..k + 1] == free[..k] + [free[k]];
      EntriesCat(free[..k], [free[k]]);
      EntriesFirst(free[k], []);
      Insert(heap, Entry(Span(i, size)));
      i := Get2(d, i);
      k := k + 1;
    }
    assert free[..k] == free;
    ok := true;
  }

  lemma BlockAt(d: seq<byte>, hdr: nat, free: seq<Span>, k: nat)
    requires Linked(d, hdr, free) && k <= |free|
    ensures PtrAddr(hdr, free, k) + 1 < |d| && Get2(d, PtrAddr(hdr, free, k)) == OffsetOf(free, k)
    ensures k > 0 ==> PtrAddr(hdr, free, k) == free[k - 1].off && free[k - 1].off + 3 < |d|
    ensures k > 0 ==> Get2(d, free[k - 1].off + 2) == free[k - 1].size
    ensures k == 0 ==> PtrAddr(hdr, free, k) == hdr + 1
  {
  }

  // ---- the check of a page

  /** The cell pointers end here, at most. */
  function CellFirst(d: seq<byte>, hdr: nat, childPtrSize: nat): nat
    requires hdr + 4 < |d|
  {
    hdr + 8 + childPtrSize + 2 * Get2(d, hdr + 3)
  }

  /** A page of a database: hdr is 100 on page 1. */
  predicate PageOk(d: seq<byte>, hdr: nat, childPtrSize: nat, pageSize: nat, usable: nat) {
    && 512 <= pageSize <= 0x1_0000 && |d| == pageSize && 480 <= usable <= pageSize <= usable + 255
    && (hdr == 0 || hdr == 100) && (childPtrSize == 0 || childPtrSize == 4)
  }

  lemma PointersFit(d: seq<byte>, hdr: nat, childPtrSize: nat, pageSize: nat, usable: nat)
    requires PageOk(d, hdr, childPtrSize, pageSize, usable) && Get2(d, hdr + 3) <= MxCell(pageSize)
    ensures hdr + 8 <= CellFirst(d, hdr, childPtrSize) <= usable
    ensures CellFirst(d, hdr, childPtrSize) == hdr + 8 + childPtrSize + 2 * Get2(d, hdr + 3)
  {
    hide Get2;
  }

  /**
    The coverage check of a page, whatever its bytes are.  It reports multiple uses exactly if cells and free blocks
    overlap each other or the space in front of the content area, and then names a byte that is used twice; otherwise
    it reports fragmentation exactly if the count in the page header is not the number of uncovered bytes.  The heap
    has as many bytes as a page, and the check writes behind it exactly if there are more cells and free blocks than
    it has entries.  (On a leaf the cells go into the heap while they are checked.  As they alone never fill it, this
    is the same.)
   */
  method CheckCoverage(
      heap: array<nat>, d: seq<byte>, hdr: nat, childPtrSize: nat, pageSize: nat, usable: nat,
      cellSize: seq<byte> -> nat)
    returns (rc: Rc, multi: int, frag: bool, ghost cells: seq<Span>, ghost free: seq<Span>)
    requires PageOk(d, hdr, childPtrSize, pageSize, usable) && Words(heap) && heap.Length == pageSize / 4
    modifies heap
    ensures var nCell, first := Get2(d, hdr + 3), CellFirst(d, hdr, childPtrSize);
      && (rc == CORRUPT <==> nCell > MxCell(pageSize) || Refused(d, hdr, first, usable))
      && (rc != CORRUPT ==>
           && first <= usable && cells == Cells(d, hdr + 8 + childPtrSize, cellSize, nCell)
           && Admitted(d, hdr, first, usable, free)
           && (rc == SKIPPED <==> !AllInRange(cells, Top(d, hdr), usable))
           && (rc != SKIPPED ==> (rc == OVERRUN <==> |cells| + |free| >= pageSize / 4)))
    ensures rc == OK ==>
      && (multi == -1 <==> Clean(cells + free, Top(d, hdr)))
      && (multi != -1 ==> TwoUses(cells + free, Top(d, hdr), multi))
      && (multi == -1 ==> (frag <==> d[hdr + 7] as nat != |Uncovered(cells + free, Top(d, hdr), usable)|))
  {
    hide Get2, CellFirst, Admitted, Refused, Cells, AllInRange, AllFit, Clean, TwoUses, Uncovered;
    hide Items, Entries, Ordered;
    cells, free, multi, frag := [], [], -1, false;
    var nCell, first := Get2(d, hdr + 3), CellFirst(d, hdr, childPtrSize);
    if nCell > MxCell(pageSize) { return CORRUPT, multi, frag, cells, free; }
    PointersFit(d, hdr, childPtrSize, pageSize, usable);
    var ok, nFree;
    ok, nFree, free := InitFree(d, hdr, first, usable);
    if !ok { return CORRUPT, multi, frag, cells, free; }
    var cellStart, content := hdr + 8 + childPtrSize, Top(d, hdr);
    cells := Cells(d, cellStart, cellSize, nCell);
    FreeFits(d, hdr, first, usable, free);
    ok := CheckCells(d, cellStart, nCell, content, usable, cellSize);
    if !ok { return SKIPPED, multi, frag, cells, free; }
    CellsFit(cells, content, usable);
    FreeListOf(d, hdr, first, usable, free);
    ok := AddCells(heap, d, cellStart, nCell, cellSize, usable);
    if !ok { return OVERRUN, multi, frag, cells, free; }
    ok := AddFreeBlocks(heap, d, hdr, usable, free);
    if !ok { return OVERRUN, multi, frag, cells, free; }
    EntriesCat(cells, free);
    BothFit(cells, free, usable);
    multi, frag := Report(heap, cells + free, content, usable, d[hdr + 7] as nat);
    rc := OK;
  }

  lemma CellsFit(cells: seq<Span>, content: nat, usable: nat)
    requires AllInRange(cells, content, usable) && 0 < content && usable <= 0x1_0000
    ensures AllFit(cells, usable)
  {
  }

  lemma FreeListOf(d: seq<byte>, hdr: nat, first: nat, usable: nat, free: seq<Span>)
    requires hdr + 7 < |d| && Admitted(d, hdr, first, usable, free)
    ensures Linked(d, hdr, free) && OnPage(free, usable)
  {
  }

  lemma BothFit(xs: seq<Span>, ys: seq<Span>, usable: nat)
    requires AllFit(xs, usable) && AllFit(ys, usable)
    ensures AllFit(xs + ys, usable)
  {
  }

  /** The sweep over a full heap, and what is made of it. */
  method Report(heap: array<nat>, ghost xs: seq<Span>, content: nat, usable: nat, stored: nat)
    returns (multi: int, frag: bool)
    requires IsHeap(heap[..]) && Items(heap[..], heap[0]) == Entries(xs) && AllFit(xs, usable)
    requires 1 <= content <= usable <= 0x1_0000
    modifies heap
    ensures multi == -1 <==> Clean(xs, content)
    ensures multi != -1 ==> TwoUses(xs, content, multi)
    ensures multi == -1 ==> (frag <==> stored != |Uncovered(xs, content, usable)|)
  {
    hide Clean, CleanEntries, Entry, UsedTwice, TwoUses, Uncovered, Gaps, Items, Ordered, First, Last;
    CleanIsCleanEntries(xs, content, usable);
    GapsAreUncovered(xs, content, usable, usable);
    forall e | e in Entries(xs) ensures First(e) <= Last(e) + 1 <= usable {
      EntryOrder(xs, e, usable);
    }
    var nFrag;
    multi, nFrag := Sweep(heap, content, usable);
    if multi != -1 {
      UsedTwiceIsTwoUses(xs, content, usable, multi);
    }
    frag := heap[0] == 0 && nFrag != stored;
  }

  // ---- room in the heap

  /** Blocks of at least m bytes are m+4 bytes apart. */
  lemma {:induction false} BlocksApart(free: seq<Span>, first: nat, m: nat, k: nat)
    requires Rising(free, first) && k < |free| && forall i :: 0 <= i < |free| ==> free[i].size >= m
    ensures k >= 0 && free[k].off >= first + k * (m + 4)
  {
    if k > 0 {
      BlocksApart(free, first, m, k - 1);
      assert free[k - 1].End() + 3 < free[k - 1 + 1].off;
      Distributes(k, 1, m + 4);
    }
  }

  /** If no free block is shorter than 4 bytes, as is so on every page that is not corrupt, there is room for all. */
  lemma RoomForAll(d: seq<byte>, hdr: nat, childPtrSize: nat, pageSize: nat, usable: nat, free: seq<Span>)
    requires PageOk(d, hdr, childPtrSize, pageSize, usable) && Get2(d, hdr + 3) <= MxCell(pageSize)
    requires Admitted(d, hdr, CellFirst(d, hdr, childPtrSize), usable, free)
    requires forall k :: 0 <= k < |free| ==> free[k].size >= 4
    ensures Get2(d, hdr + 3) + |free| < pageSize / 4
  {
    hide Get2, Linked, Top, Total;
    if free != [] {
      BlocksApart(free, CellFirst(d, hdr, childPtrSize), 4, |free| - 1);
    }
  }

  // ---- what the space allocator keeps is what the check accepts

  lemma UncoveredIs(xs: seq<Span>, top: nat, usable: nat)
    ensures Uncovered(xs, top, usable) == Range(top, usable) - BytesOf(xs)
  {
    forall b: nat ensures Bare(xs, b) <==> b !in BytesOf(xs) {
      InBytesOf(xs, b);
    }
  }

  /** On a well-formed page the check has nothing to report, and its heap has room. */
  lemma TidyIsAccepted(d: seq<byte>, hdr: nat, first: nat, usable: nat, fb: seq<Span>, used: seq<Span>)
    requires Tidy(d, hdr, first, usable, fb, used)
    ensures Admitted(d, hdr, first, usable, fb) && AllInRange(used, Top(d, hdr), usable)
    ensures forall k :: 0 <= k < |fb| ==> fb[k].size >= 4
    ensures Clean(used + fb, Top(d, hdr)) && |Uncovered(used + fb, Top(d, hdr), usable)| == d[hdr + 7] as nat
  {
    hide Total, BytesOf, Uncovered, Range, Get2, Linked;
    FragmentsAreTheRest(Top(d, hdr), usable, d[hdr + 7] as nat, fb, used);
    UncoveredIs(used + fb, Top(d, hdr), usable);
    var s := used + fb;
    forall i, j | 0 <= i < j < |s| ensures Apart(s[i], s[j]) {
      if i < |used| <= j { assert Apart(fb[j - |used|], used[i]); }
    }
  }

  // ---- a page that overruns the heap

  /**
    A leaf of an index with 512 bytes: 84 cell pointers that all lead to byte 176, where the content area begins, and
    67 free blocks of 1 byte, every 5 bytes from there on.
   */
  function CrowdedByte(i: nat): byte {
    if i == 0 then 0x0a
    else if i == 2 || i == 6 then 176
    else if i == 4 then 84
    else if 8 <= i < 176 then (if i % 2 == 1 then 176 else 0)
    else if 176 <= i < 511 then
      var k, r := (i - 176) / 5, (i - 176) % 5;
      var next := if k < 66 then 181 + 5 * k else 0;
      if r == 0 then next / 256 else if r == 1 then next % 256 else if r == 3 then 1 else 0
    else 0
  }

  function CrowdedPage(): (d: seq<byte>)
    ensures |d| == 512 && forall i :: 0 <= i < 512 ==> d[i] == CrowdedByte(i)
  {
    seq(512, i requires 0 <= i < 512 => CrowdedByte(i))
  }

  function CrowdedBlocks(): (free: seq<Span>)
    ensures |free| == 67 && forall k :: 0 <= k < 67 ==> free[k] == Span(176 + 5 * k, 1)
  {
    seq(67, k requires 0 <= k => Span(176 + 5 * k, 1))
  }

  lemma CrowdedAt(k: nat)
    requires k < 67
    ensures Get2(CrowdedPage(), 176 + 5 * k) == (if k < 66 then 181 + 5 * k else 0)
    ensures Get2(CrowdedPage(), 178 + 5 * k) == 1
  {
    hide CrowdedByte;
    BlockByte(k, 0);
    BlockByte(k, 1);
    BlockByte(k, 2);
    BlockByte(k, 3);
  }

  lemma BlockByte(k: nat, r: nat)
    requires k < 67 && r < 4
    ensures var next := if k < 66 then 181 + 5 * k else 0;
      CrowdedByte(176 + 5 * k + r) ==
      if r == 0 then next / 256 else if r == 1 then next % 256 else if r == 3 then 1 else 0
  {
    Quotient(5 * k + r, 5, k, r);
  }

  lemma {:induction false} TotalOnes(s: seq<Span>)
    requires forall i :: 0 <= i < |s| ==> s[i].size == 1
    ensures Total(s) == |s|
  {
    if s != [] {
      TotalOnes(s[..|s| - 1]);
    }
  }

  lemma CrowdedList()
    ensures Admitted(CrowdedPage(), 0, 176, 512, CrowdedBlocks())
  {
    var d, free := CrowdedPage(), CrowdedBlocks();
    hide CrowdedPage, CrowdedBlocks, Get2;
    forall k | 0 <= k <= |free|
      ensures PtrAddr(0, free, k) + 1 < |d| && Get2(d, PtrAddr(0, free, k)) == OffsetOf(free, k)
    {
      if k == 0 { HeaderOfCrowded(); } else { CrowdedAt(k - 1); }
    }
    forall k | 0 <= k < |free| ensures free[k].off + 3 < |d| && Get2(d, free[k].off + 2) == free[k].size {
      CrowdedAt(k);
    }
    HeaderOfCrowded();
    TotalOnes(free);
  }

  lemma HeaderOfCrowded()
    ensures var d := CrowdedPage();
      Get2(d, 1) == 176 && Get2(d, 3) == 84 && Get2(d, 5) == 176 && Top(d, 0) == 176 && d[7] == 0
  {
    var d := CrowdedPage();
    assert d[1] == CrowdedByte(1) && d[2] == CrowdedByte(2) && d[3] == CrowdedByte(3) && d[4] == CrowdedByte(4);
    assert d[5] == CrowdedByte(5) && d[6] == CrowdedByte(6) && d[7] == CrowdedByte(7);
  }

  /** The size of a cell of this page, as the parser of index cells gives it. */
  function SizeOf(s: seq<byte>): nat {
    CellFormat.Parsed(CellFormat.Form(0, false, 102, 39, 512), s).nSize
  }

  /** A payload size of 0 makes a cell of 4 bytes. */
  lemma SmallCell(s: seq<byte>)
    requires s != [] && s[0] == 0
    ensures SizeOf(s) == 4
  {
    assert Varint.Lead(s, 0, 8) == 0;
    assert Varint.Val(s, 0, 0) == 0 && Varint.Val(s, 0, 1) == 0;
    assert Varint.SizeVal(s, 0) == 0;
  }

  lemma CrowdedCell(i: nat)
    requires i < 84
    ensures CellAt(CrowdedPage(), 8, SizeOf, i) == Span(176, 4)
  {
    hide SizeOf, CrowdedByte;
    var d := CrowdedPage();
    PointerByte(i);
    CrowdedAt(0);
    SmallCell(d[176..]);
  }

  lemma PointerByte(i: nat)
    requires i < 84
    ensures CrowdedByte(8 + 2 * i) == 0 && CrowdedByte(8 + 2 * i + 1) == 176
  {
  }

  /** The page is let through, all its cells are in range, and there are 151 spans for a heap of 128 words. */
  lemma CrowdedOverruns()
    ensures var d := CrowdedPage();
      && PageOk(d, 0, 0, 512, 512) && d[0] == 0x0a && Get2(d, 3) <= MxCell(512)
      && Admitted(d, 0, CellFirst(d, 0, 0), 512, CrowdedBlocks())
      && AllInRange(Cells(d, 8, SizeOf, Get2(d, 3)), Top(d, 0), 512)
      && Get2(d, 3) + |CrowdedBlocks()| == 151 && 512 / 4 == 128
  {
    hide SizeOf, CellAt, Get2, Admitted;
    HeaderOfCrowded();
    CrowdedList();
    forall i | 0 <= i < 84 ensures CellAt(CrowdedPage(), 8, SizeOf, i) == Span(176, 4) {
      CrowdedCell(i);
    }
    assert CrowdedPage()[0] == CrowdedByte(0);
  }
}
