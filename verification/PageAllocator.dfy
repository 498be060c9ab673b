/**
  The space allocator of a b-tree page: freeSpace, pageFindSlot, defragmentPage and allocateSpace.

  The lists of free blocks and of spans in use are ghost parameters; Valid says that the bytes of the
  page spell them out.
 */
module PageAllocator {
  import opened Basics
  import opened PageSpace
  import opened PageFreeSpace
  import opened PageFindSlot
  import opened PageSlot
  import opened PageDefragment

  datatype Rc = Ok | Corrupt
  class MemPage {
    const aData: array<byte>
    const hdrOffset: nat
    const cellOffset: nat
    const usableSize: nat
    const secureDelete: bool
    const xCellSize: seq<byte> -> nat
    var nCell: nat
    var nFree: int

    function CellFirst(): nat
      reads this
    {
      cellOffset + 2 * nCell
    }

    ghost predicate Valid(fb: seq<Span>, used: seq<Span>)
      reads this, aData
    {
      && Tidy(aData[..], hdrOffset, CellFirst(), usableSize, fb, used)
      && nFree == usableSize - CellFirst() - Total(used)
    }

    function Read2(i: nat): (v: nat)
      reads aData
      requires i + 1 < aData.Length
      ensures v == Get2(aData[..], i)
    {
      aData[i] as nat * 256 + aData[i + 1] as nat
    }

    method Write2(i: nat, v: nat)
      requires i + 1 < aData.Length
      modifies aData
      ensures aData[..] == Put2(old(aData[..]), i, v)
    {
      aData[i] := v / 256 % 256;
      aData[i + 1] := v % 256;
    }

    method Clear(from: nat, to: nat)
      requires from <= to <= aData.Length
      modifies aData
      ensures forall x :: 0 <= x < aData.Length ==> aData[x] == if from <= x < to then 0 else old(aData[x])
    {
      for x := from to to
        invariant forall y :: 0 <= y < aData.Length ==> aData[y] == if from <= y < x then 0 else old(aData[y])
      {
        aData[x] := 0;
      }
    }

    /** Walk the free list to the place of a block at iStart. */
    method FindPlace(iStart: nat, ghost fb: seq<Span>, ghost used: seq<Span>, ghost j: nat)
      returns (rc: Rc, iPtr: nat, iFreeBlk: nat, ghost k: nat)
      requires Tidy(aData[..], hdrOffset, CellFirst(), usableSize, fb, used)
      requires j < |used| && used[j].off == iStart
      ensures rc.Ok? && At(fb, k, iStart) && iPtr == PtrAddr(hdrOffset, fb, k) && iFreeBlk == OffsetOf(fb, k)
    {
      iPtr := hdrOffset + 1;
      k := 0;
      assert PtrAddr(hdrOffset, fb, 0) == iPtr;
      iFreeBlk := Read2(iPtr);
      while iFreeBlk < iStart
        invariant k <= |fb| && iPtr == PtrAddr(hdrOffset, fb, k) && iFreeBlk == OffsetOf(fb, k)
        invariant forall i :: 0 <= i < k ==> fb[i].off < iStart
        decreases |fb| - k
      {
        assert 0 < k < |fb| ==> fb[k - 1].End() + 3 < fb[k].off;
        if iFreeBlk < iPtr + 4 {
          if iFreeBlk == 0 { break; }
          assert false;
          return Corrupt, iPtr, iFreeBlk, k;
        }
        iPtr := iFreeBlk;
        k := k + 1;
        assert PtrAddr(hdrOffset, fb, k) == iPtr;
        iFreeBlk := Read2(iPtr);
      }
      forall i | k <= i < |fb| ensures iStart < fb[i].off {
        assert Apart(fb[i], used[j]);
      }
      rc := Ok;
    }

    /** Coalesce the span used[j] with the free blocks next to it, if these are within 3 bytes. */
    method Coalesce(
        iStart: nat, iSize: nat, iPtr: nat, freeBlk: nat,
        ghost fb: seq<Span>, ghost used: seq<Span>, ghost j: nat, ghost k: nat)
      returns (rc: Rc, start: nat, size: nat, end: nat, nFrag: nat, iFreeBlk: nat)
      requires Tidy(aData[..], hdrOffset, CellFirst(), usableSize, fb, used)
      requires j < |used| && used[j] == Span(iStart, iSize)
      requires At(fb, k, iStart) && iPtr == PtrAddr(hdrOffset, fb, k) && freeBlk == OffsetOf(fb, k)
      ensures rc.Ok? && Span(start, size) == Joined(fb, used[j], k) && end == start + size
      ensures nFrag == FragJoined(fb, used[j], k) && nFrag <= aData[hdrOffset + 7] as nat
      ensures iFreeBlk == OffsetOf(fb, Upper(fb, used[j], k))
    {
      FragmentsCounted(Top(aData[..], hdrOffset), usableSize, aData[hdrOffset + 7] as nat, fb, used, j, k);
      start, size, end, nFrag, iFreeBlk := iStart, iSize, iStart + iSize, 0, freeBlk;
      if iFreeBlk > usableSize - 4 {
        assert false;
        return Corrupt, start, size, end, nFrag, iFreeBlk;
      }
      if iFreeBlk != 0 && end + 3 >= iFreeBlk {
        if end > iFreeBlk {
          assert false;
          return Corrupt, start, size, end, nFrag, iFreeBlk;
        }
        nFrag := iFreeBlk - end;
        end := iFreeBlk + Read2(iFreeBlk + 2);
        if end > usableSize {
          assert false;
          return Corrupt, start, size, end, nFrag, iFreeBlk;
        }
        size := end - start;
        assert PtrAddr(hdrOffset, fb, k + 1) == iFreeBlk;
        iFreeBlk := Read2(iFreeBlk);
      }
      if iPtr > hdrOffset + 1 {
        var iPtrEnd := iPtr + Read2(iPtr + 2);
        if iPtrEnd + 3 >= start {
          if iPtrEnd > start {
            assert false;
            return Corrupt, start, size, end, nFrag, iFreeBlk;
          }
          nFrag := nFrag + start - iPtrEnd;
          size := end - iPtr;
          start := iPtr;
        }
      }
      rc := Ok;
    }

    /** Write the new free block, or move the start of the content area past it. */
    method LinkIn(
        iPtr: nat, iFreeBlk: nat, start: nat, size: nat, end: nat, nFrag: nat,
        ghost fb: seq<Span>, ghost used: seq<Span>, ghost j: nat, ghost k: nat)
      returns (rc: Rc)
      requires Tidy(aData[..], hdrOffset, CellFirst(), usableSize, fb, used) && j < |used| && At(fb, k, used[j].off)
      requires iPtr == PtrAddr(hdrOffset, fb, k) && iFreeBlk == OffsetOf(fb, Upper(fb, used[j], k))
      requires Span(start, size) == Joined(fb, used[j], k) && end == start + size
      requires nFrag == FragJoined(fb, used[j], k) <= aData[hdrOffset + 7] as nat
      modifies aData
      ensures rc.Ok? && FreedBytes(old(aData[..]), aData[..], hdrOffset, usableSize, fb, used[j], k)
      ensures forall x :: 0 <= x < aData.Length && Has(used[j], x) ==>
        aData[x] == old(aData[x]) || (start != old(Top(aData[..], hdrOffset)) && InHeadOf(Joined(fb, used[j], k), x))
      ensures forall x :: 0 <= x < aData.Length && Kept(hdrOffset, fb, used[j], x) ==> aData[x] == old(aData[x])
    {
      hide Linked, Used, ClearOf, Total, Joined, FragJoined, Kept, FreedBytes, Sorted, Put2, At, InHeadOf;
      ghost var d := aData[..];
      JoinedInOrder(Top(d, hdrOffset), usableSize, d[hdrOffset + 7] as nat, fb, used, j, k);
      PlaceOfPointer(d, hdrOffset, CellFirst(), usableSize, fb, used, j, k);
      aData[hdrOffset + 7] := aData[hdrOffset + 7] - nFrag;
      ghost var d1 := aData[..];
      assert d1 == d[hdrOffset + 7 := d[hdrOffset + 7] - nFrag];
      if start == Read2(hdrOffset + 5) {
        if iPtr != hdrOffset + 1 {
          assert false;
          return Corrupt;
        }
        Write2(hdrOffset + 1, iFreeBlk);
        Write2(hdrOffset + 5, end);
        GapKeepsSpan(d, d1, aData[..], hdrOffset, CellFirst(), usableSize, fb, used, j, k, d1[hdrOffset + 7],
                     iFreeBlk, end);
        LinkedInAsGap(d, aData[..], hdrOffset, CellFirst(), usableSize, fb, used, j, k);
      } else {
        Write2(iPtr, start);
        Write2(start, iFreeBlk);
        Write2(start + 2, size);
        LinkedInAsBlock(d, aData[..], hdrOffset, CellFirst(), usableSize, fb, used, j, k);
        BlockKeepsSpan(d, aData[..], hdrOffset, CellFirst(), usableSize, fb, used, j, k);
        BlockKeepsRest(d, aData[..], hdrOffset, CellFirst(), usableSize, fb, used, j, k);
      }
      rc := Ok;
    }

    /** Overwrite the span used[j] with zeros. */
    method Overwrite(iStart: nat, iSize: nat, ghost fb: seq<Span>, ghost used: seq<Span>, ghost j: nat)
      requires Tidy(aData[..], hdrOffset, CellFirst(), usableSize, fb, used)
      requires j < |used| && used[j] == Span(iStart, iSize)
      modifies aData
      ensures Tidy(aData[..], hdrOffset, CellFirst(), usableSize, fb, used)
      ensures forall x :: iStart <= x < iStart + iSize && x < aData.Length ==> aData[x] == 0
      ensures forall x :: 0 <= x < aData.Length && Kept(hdrOffset, fb, used[j], x) ==> aData[x] == old(aData[x])
    {
      hide Tidy;
      ghost var d := aData[..];
      TidyBounds(d, hdrOffset, CellFirst(), usableSize, fb, used);
      Clear(iStart, iStart + iSize);
      ClearedTidy(d, aData[..], hdrOffset, CellFirst(), usableSize, fb, used, j);
    }

    /** Return the span used[j] to the free list. */
    method FreeSpace(iStart: nat, iSize: nat, ghost fb: seq<Span>, ghost used: seq<Span>, ghost j: nat)
      returns (rc: Rc, ghost fb': seq<Span>)
      requires Valid(fb, used)
      requires j < |used| && used[j] == Span(iStart, iSize)
      modifies this`nFree, aData
      ensures rc.Ok? && Valid(fb', Without(used, j, j + 1)) && nFree == old(nFree) + iSize
      ensures forall x :: 0 <= x < aData.Length && Kept(hdrOffset, fb, used[j], x) ==> aData[x] == old(aData[x])
      ensures forall x :: 0 <= x < aData.Length && Has(used[j], x) && !InHead(fb', x) ==>
        aData[x] == if secureDelete then 0 else old(aData[x])
    {
      hide Tidy, Joined, FragJoined, FreedBytes, Total, Kept, FreedList, Without, Upper, Top, InHead, InHeadOf;
      TidyBounds(aData[..], hdrOffset, CellFirst(), usableSize, fb, used);
      if secureDelete { Overwrite(iStart, iSize, fb, used, j); }
      ghost var k;
      var iPtr, iFreeBlk := hdrOffset + 1, 0;
      var start, size, end, nFrag := iStart, iSize, iStart + iSize, 0;
      if aData[hdrOffset + 2] == 0 && aData[hdrOffset + 1] == 0 {
        k := 0;
        EmptyList(aData[..], hdrOffset, CellFirst(), usableSize, fb, used, j);
      } else {
        rc, iPtr, iFreeBlk, k := FindPlace(iStart, fb, used, j);
        rc, start, size, end, nFrag, iFreeBlk := Coalesce(iStart, iSize, iPtr, iFreeBlk, fb, used, j, k);
        if nFrag > aData[hdrOffset + 7] as nat {
          assert false;
          return Corrupt, fb;
        }
      }
      ghost var d := aData[..];
      rc := LinkIn(iPtr, iFreeBlk, start, size, end, nFrag, fb, used, j, k);
      FreedTidy(d, aData[..], hdrOffset, CellFirst(), usableSize, fb, used, j, k);
      forall x: int { JoinedInList(fb, used[j], k, x); }
      nFree := nFree + iSize;
      fb' := FreedList(fb, used[j], k, start != Top(d, hdrOffset));
      TotalAfterFree(used, j);
    }

    /** What taking bytes from the k-th block leaves, when it is written as pageFindSlot does. */
    lemma BlockTaken(d: seq<byte>, d': seq<byte>, fb: seq<Span>, used: seq<Span>, k: nat, nByte: nat)
      requires Tidy(d, hdrOffset, CellFirst(), usableSize, fb, used) && k < |fb| && 4 <= nByte <= fb[k].size
      requires PtrAddr(hdrOffset, fb, k) + 1 < |d| && fb[k].off + 3 < |d| && hdrOffset + 7 < |d|
      requires d[hdrOffset + 7] <= 60
      requires var x := fb[k].size - nByte;
        if x < 4 then
          && d[hdrOffset + 7] <= 57
          && d' == Put2(d, PtrAddr(hdrOffset, fb, k), Get2(d, fb[k].off))[hdrOffset + 7 := d[hdrOffset + 7] + x]
        else d' == Put2(d, fb[k].off + 2, x)
      ensures Tidy(d', hdrOffset, CellFirst(), usableSize, Taken(fb, k, nByte),
                   used + [Span(fb[k].End() - nByte, nByte)])
      ensures |d'| == |d| && Top(d', hdrOffset) == Top(d, hdrOffset)
      ensures forall x :: 0 <= x < |d| && OutOfList(hdrOffset, fb, x) ==> d'[x] == d[x]
    {
      hide Tidy, Taken, Total, Put2, OutOfList, Get2, Top, TakenBytes;
      TakenTidy(d, hdrOffset, CellFirst(), usableSize, fb, used, k, nByte);
      TakenIs(d, hdrOffset, fb, k, nByte);
      forall x | 0 <= x < |d| && OutOfList(hdrOffset, fb, x) ensures TakenBytes(d, hdrOffset, fb, k, nByte)[x] == d[x] {
        TakenKeeps(d, hdrOffset, CellFirst(), usableSize, fb, used, k, nByte, x);
      }
    }

    /** Take the block at pc out of the list; x bytes of it become a fragment. */
    method Unlink(iAddr: nat, pc: nat, x: nat)
      requires iAddr + 1 < aData.Length && pc + 1 < aData.Length && hdrOffset + 7 < aData.Length
      requires hdrOffset + 7 != iAddr && hdrOffset + 7 != iAddr + 1 && aData[hdrOffset + 7] as nat + x < 256
      modifies aData
      ensures aData[..] == Put2(old(aData[..]), iAddr, Get2(old(aData[..]), pc))
                             [hdrOffset + 7 := old(aData[hdrOffset + 7]) + x]
    {
      hide Put2;
      PutKeeps(aData[..], iAddr, Get2(aData[..], pc), hdrOffset + 7);
      Write2(iAddr, Read2(pc));
      assert aData[hdrOffset + 7] == aData[..][hdrOffset + 7];
      aData[hdrOffset + 7] := aData[hdrOffset + 7] + x;
    }

    /** Search the free list for nByte bytes; if a block is large enough, take them from its end. */
    method FindSlot(nByte: nat, ghost fb: seq<Span>, ghost used: seq<Span>)
      returns (rc: Rc, idx: Option<nat>, ghost fb': seq<Span>)
      requires Tidy(aData[..], hdrOffset, CellFirst(), usableSize, fb, used) && 4 <= nByte && fb != []
      modifies aData
      ensures rc.Ok?
      ensures idx.None? ==> aData[..] == old(aData[..]) && fb' == fb
      ensures Top(aData[..], hdrOffset) == old(Top(aData[..], hdrOffset))
      ensures idx.Some? ==> Tidy(aData[..], hdrOffset, CellFirst(), usableSize, fb', used + [Span(idx.value, nByte)])
      ensures forall x :: 0 <= x < aData.Length && OutOfList(hdrOffset, fb, x) ==> aData[x] == old(aData[x])
      ensures idx.None? ==> aData[hdrOffset + 7] > 57 || forall i :: 0 <= i < |fb| ==> fb[i].size < nByte
      ensures idx == SlotIn(fb, nByte, old(aData[hdrOffset + 7]) as nat)
    {
      hide Tidy, Taken, Total, Put2, OutOfList, SlotIn;
      ghost var d := aData[..];
      TidyBounds(d, hdrOffset, CellFirst(), usableSize, fb, used);
      var iAddr := hdrOffset + 1;
      ghost var k := 0;
      TidyHeaders(d, hdrOffset, CellFirst(), usableSize, fb, used, 0);
      var pc := Read2(iAddr);
      while true
        invariant k < |fb| && iAddr == PtrAddr(hdrOffset, fb, k) && pc == fb[k].off
        invariant aData[..] == d
        invariant forall i :: 0 <= i < k ==> fb[i].size < nByte
        decreases |fb| - k
      {
        TidyHeaders(d, hdrOffset, CellFirst(), usableSize, fb, used, k);
        if pc > usableSize - 4 || pc < iAddr + 4 {
          assert false;
          return Corrupt, None, fb;
        }
        var size := Read2(pc + 2);
        SlotAt(fb, nByte, aData[hdrOffset + 7] as nat, k);
        if size >= nByte {
          var x := size - nByte;
          if pc < cellOffset + 2 * nCell || size + pc > usableSize {
            assert false;
            return Corrupt, None, fb;
          } else if x < 4 {
            if aData[hdrOffset + 7] > 57 { return Ok, None, fb; }
            Unlink(iAddr, pc, x);
          } else {
            Write2(pc + 2, x);
          }
          BlockTaken(d, aData[..], fb, used, k, nByte);
          return Ok, Some(pc + x), Taken(fb, k, nByte);
        }
        iAddr := pc;
        pc := Read2(pc);
        k := k + 1;
        if pc == 0 { break; }
      }
      SlotAt(fb, nByte, aData[hdrOffset + 7] as nat, k);
      return Ok, None, fb;
    }

    method MoveBytes(to: nat, from: nat, n: nat)
      requires to + n <= aData.Length && from + n <= aData.Length
      modifies aData
      ensures Moved(old(aData[..]), aData[..], to, from, n)
    {
      var copy := aData[from..from + n];
      for k := 0 to n
        invariant forall x :: 0 <= x < aData.Length ==>
          aData[x] == if to <= x < to + k then copy[x - to] else old(aData[x])
      {
        aData[to + k] := copy[k];
      }
    }

    /** Valid, and the cell pointer array lists the spans in use, with the sizes stored in the cells. */
    ghost predicate ValidCells(fb: seq<Span>, cells: seq<Span>)
      reads this, aData
    {
      && Valid(fb, cells)
      && |cells| == nCell && hdrOffset + 8 <= cellOffset && Pointed(aData[..], cellOffset, cells)
    }

    /** The common end of both ways to defragment: the content area now starts at cbrk. */
    method FinishDefragment(cbrk: nat, ghost cells: seq<Span>)
      returns (rc: Rc)
      requires hdrOffset + 8 <= CellFirst() <= cbrk <= usableSize <= aData.Length && usableSize <= 65536
      requires hdrOffset + 8 <= cellOffset && |cells| == nCell && aData[hdrOffset + 7] as int <= 60
      requires Tiled(cbrk, usableSize, aData[hdrOffset + 7] as nat, [], cells) && Pointed(aData[..], cellOffset, cells)
      requires nFree == usableSize - CellFirst() - Total(cells)
      modifies aData
      ensures rc.Ok? && ValidCells([], cells) && Top(aData[..], hdrOffset) == cbrk
      ensures aData[hdrOffset + 7] == old(aData[hdrOffset + 7])
      ensures SameCells(old(aData[..]), cells, aData[..], cells)
    {
      hide Tiled, SameCells, Total;
      if aData[hdrOffset + 7] as int + cbrk - CellFirst() != nFree {
        NothingFreeTotal(cbrk, usableSize, aData[hdrOffset + 7] as nat, cells);
        return Corrupt;
      }
      ghost var d := aData[..];
      Write2(hdrOffset + 5, cbrk);
      GetPut(d, hdrOffset + 5, cbrk, hdrOffset + 5);
      aData[hdrOffset + 1] := 0;
      aData[hdrOffset + 2] := 0;
      Clear(CellFirst(), cbrk);
      DefragmentedTidy(d, aData[..], hdrOffset, cellOffset, CellFirst(), usableSize, cbrk, cells);
      rc := Ok;
    }

    /** Close the second free block by moving the cells between the two up. */
    method CloseSecond(iFree: nat, iFree2: nat, sz: nat, ghost fb: seq<Span>, ghost cells: seq<Span>)
      returns (rc: Rc, sz2: nat)
      requires Tidy(aData[..], hdrOffset, CellFirst(), usableSize, fb, cells) && |fb| == 2
      requires iFree == fb[0].off && iFree2 == fb[1].off && sz == fb[0].size
      modifies aData
      ensures rc.Ok? && sz2 == fb[1].size && fb[0].End() <= fb[1].off && fb[1].End() <= aData.Length
      ensures Moved(old(aData[..]), aData[..], fb[0].End() + fb[1].size, fb[0].End(), fb[1].off - fb[0].End())
    {
      hide Tidy, Top, Get2, Moved;
      TidyBounds(aData[..], hdrOffset, CellFirst(), usableSize, fb, cells);
      TwoBlocks(aData[..], hdrOffset, CellFirst(), usableSize, fb, cells);
      sz2 := 0;
      if iFree + sz > iFree2 {
        assert false;
        rc := Corrupt;
        return;
      }
      sz2 := Read2(iFree2 + 2);
      MoveBytes(iFree + sz + sz2, iFree + sz, iFree2 - (iFree + sz));
      rc := Ok;
    }

    /** Close one or two free blocks by moving the cells below them up. */
    method MoveAreas(iFree: nat, iFree2: nat, ghost fb: seq<Span>, ghost cells: seq<Span>)
      returns (rc: Rc, sz: nat, sz2: nat, cbrk: nat)
      requires Valid(fb, cells) && 1 <= |fb| <= 2 && iFree == fb[0].off && iFree2 == OffsetOf(fb, 1)
      modifies aData
      ensures rc.Ok? && sz2 == SizeOf(fb, 1) && sz == fb[0].size + sz2 && cbrk == old(Top(aData[..], hdrOffset)) + sz
      ensures SlidBytes(old(aData[..]), aData[..], old(Top(aData[..], hdrOffset)), fb)
      ensures forall x :: 0 <= x < old(Top(aData[..], hdrOffset)) ==> aData[x] == old(aData[x])
    {
      hide Tidy, Total, Top, Get2, Moved, SlidBytes, SizeOf, OffsetOf;
      ghost var d := aData[..];
      TidyBounds(d, hdrOffset, CellFirst(), usableSize, fb, cells);
      TwoBlocks(d, hdrOffset, CellFirst(), usableSize, fb, cells);
      ghost var d1 := d;
      sz2 := 0;
      sz := Read2(iFree + 2);
      var top := Read2(hdrOffset + 5);
      cbrk := top;
      if iFree2 != 0 {
        rc, sz2 := CloseSecond(iFree, iFree2, sz, fb, cells);
        sz := sz + sz2;
        d1 := aData[..];
      }
      cbrk := top + sz;
      assert sz == fb[0].size + SizeOf(fb, 1) && cbrk == top + fb[0].size + SizeOf(fb, 1);
      MoveBytes(cbrk, top, iFree - top);
      MovesSlide(d, d1, aData[..], top, fb);
      rc := Ok;
    }

    /** Add to each cell pointer how far its cell has moved. */
    method ShiftPointers(iFree: nat, iFree2: nat, sz: nat, sz2: nat, ghost fb: seq<Span>, ghost cells: seq<Span>)
      requires 1 <= |fb| <= 2 && iFree == fb[0].off && iFree2 == OffsetOf(fb, 1)
      requires sz2 == SizeOf(fb, 1) && sz == fb[0].size + sz2
      requires |cells| == nCell && hdrOffset + 8 <= cellOffset && Pointed(aData[..], cellOffset, cells)
      requires forall i :: 0 <= i < |cells| ==> cells[i].off + Shift(fb, cells[i].off) < 65536
      modifies aData
      ensures Pointed(aData[..], cellOffset, Slid(fb, cells))
      ensures forall x :: 0 <= x < aData.Length && !(cellOffset <= x < CellFirst()) ==> aData[x] == old(aData[x])
    {
      hide Slid, Put2;
      ghost var d := aData[..];
      var pAddr := cellOffset;
      ghost var i := 0;
      while pAddr < cellOffset + 2 * nCell
        invariant i <= nCell && pAddr == cellOffset + 2 * i
        invariant forall x :: 0 <= x < aData.Length && !(cellOffset <= x < pAddr) ==> aData[x] == d[x]
        invariant forall j :: 0 <= j < i ==> Get2(aData[..], cellOffset + 2 * j) == Slid(fb, cells)[j].off
      {
        ghost var d1 := aData[..];
        GetSame(d, d1, pAddr);
        var pc := Read2(pAddr);
        assert pc == Get2(d, cellOffset + 2 * i) == cells[i].off;
        if pc < iFree {
          Write2(pAddr, pc + sz);
        } else if pc < iFree2 {
          Write2(pAddr, pc + sz2);
        }
        PointerWritten(d1, aData[..], pAddr, Slid(fb, cells)[i].off);
        pAddr := pAddr + 2;
        i := i + 1;
      }
    }

    /** The fast way, for one free block (iFree2 is 0) or two. */
    method SlideCells(iFree: nat, iFree2: nat, ghost fb: seq<Span>, ghost cells: seq<Span>)
      returns (rc: Rc)
      requires ValidCells(fb, cells) && 1 <= |fb| <= 2 && iFree == fb[0].off && iFree2 == OffsetOf(fb, 1)
      modifies aData
      ensures rc.Ok? && ValidCells([], Slid(fb, cells))
      ensures aData[hdrOffset + 7] == old(aData[hdrOffset + 7])
      ensures SameCells(old(aData[..]), cells, aData[..], Slid(fb, cells))
    {
      hide Tidy, Total, SlidBytes, Tiled, Slid, SameCells;
      ghost var d, top := aData[..], Top(aData[..], hdrOffset);
      TidyBounds(d, hdrOffset, CellFirst(), usableSize, fb, cells);
      TidyTiled(d, hdrOffset, CellFirst(), usableSize, fb, cells);
      var sz, sz2, cbrk;
      rc, sz, sz2, cbrk := MoveAreas(iFree, iFree2, fb, cells);
      ghost var d1 := aData[..];
      SlidPlaces(d, hdrOffset, CellFirst(), usableSize, fb, cells);
      ShiftPointers(iFree, iFree2, sz, sz2, fb, cells);
      ghost var d2 := aData[..];
      SlidCells(d, d1, top, usableSize, d[hdrOffset + 7] as nat, fb, cells);
      SameCellsUpTo(d, cells, d1, d2, top, Slid(fb, cells));
      rc := FinishDefragment(cbrk, Slid(fb, cells));
      SameCellsChain(d, cells, d2, Slid(fb, cells), aData[..], Slid(fb, cells));
    }

    /** A buffer with a copy of the bytes [from, to). */
    method CopyOut(from: nat, to: nat) returns (temp: array<byte>)
      requires from <= to <= aData.Length
      ensures fresh(temp) && temp.Length == aData.Length
      ensures forall x :: from <= x < to ==> temp[x] == aData[x]
    {
      temp := new byte[aData.Length];
      for x := from to to
        invariant forall y :: from <= y < x ==> temp[y] == aData[y]
      {
        temp[x] := aData[x];
      }
    }

    method CopyIn(to: nat, src: array<byte>, from: nat, n: nat)
      requires to + n <= aData.Length && from + n <= src.Length && src != aData
      modifies aData
      ensures aData[to..to + n] == old(src[from..from + n])
      ensures forall x :: 0 <= x < aData.Length && !(to <= x < to + n) ==> aData[x] == old(aData[x])
    {
      for k := 0 to n
        invariant forall x :: 0 <= x < aData.Length && !(to <= x < to + k) ==> aData[x] == old(aData[x])
        invariant aData[to..to + k] == src[from..from + k]
      {
        aData[to + k] := src[from + k];
      }
    }

    /** Copy cell i from the buffer to cbrk; its pointer has been written already. */
    method PlaceCell(
        i: nat, cbrk: nat, pc: nat, size: nat, src: array<byte>,
        ghost d: seq<byte>, ghost cur: seq<byte>, ghost cells: seq<Span>)
      requires i < |cells| && hdrOffset + 8 <= cellOffset && src != aData && src.Length == aData.Length
      requires Rebuilt(d, cur, cellOffset, usableSize, cells, i) && Readable(d, src[..], cells, i)
      requires |cur| == aData.Length
      requires cells[i] == Span(pc, size) && pc + size <= src.Length
      requires PackedAt(cells, usableSize, i) == Span(cbrk, size)
      requires cellOffset + 2 * i + 1 < cbrk && cbrk + size <= aData.Length
      requires Get2(aData[..], cellOffset + 2 * i) == cbrk
      requires forall x :: 0 <= x < |cur| && x != cellOffset + 2 * i && x != cellOffset + 2 * i + 1 ==>
        aData[x] == cur[x]
      modifies aData
      ensures Rebuilt(d, aData[..], cellOffset, usableSize, cells, i + 1)
      ensures Get2(aData[..], hdrOffset + 5) == old(Get2(aData[..], hdrOffset + 5))
    {
      hide Rebuilt, Readable, PackedAt, Total, Get2;
      ghost var cur1 := aData[..];
      CopyIn(cbrk, src, pc, size);
      GetSame(cur1, aData[..], hdrOffset + 5);
      GetSame(cur1, aData[..], cellOffset + 2 * i);
      RebuildStep(d, cur, src[..], aData[..], cellOffset, usableSize, cells, i);
    }

    /** One round of the rebuild: cell i goes right below cbrk.  The first cell that is not there already
        makes a copy of the bytes below cbrk, from which all others are then read. */
    method MoveCell(
        i: nat, end: nat, buffer: array?<byte>, ghost d: seq<byte>, ghost top: nat, ghost cells: seq<Span>)
      returns (rc: Rc, cbrk: nat, temp: array?<byte>)
      requires i < nCell == |cells| && hdrOffset + 8 <= cellOffset && CellFirst() <= top <= usableSize <= aData.Length
      requires usableSize <= 65536
      requires Used(cells, top, usableSize) && Total(cells) <= usableSize - top
      requires SizeIsLocal(xCellSize) && SizesKnown(xCellSize, d, cells)
      requires end == usableSize - Taking(cells, i) && hdrOffset + 8 <= |d| && Get2(aData[..], hdrOffset + 5) == top
      requires buffer != aData && (buffer != null ==> buffer.Length == aData.Length)
      requires Rebuilt(d, aData[..], cellOffset, usableSize, cells, i)
      requires buffer == null ==> InPlace(cells, usableSize, i)
      requires Readable(d, if buffer == null then aData[..] else buffer[..], cells, i)
      modifies aData
      ensures rc.Ok? && cbrk == usableSize - Taking(cells, i + 1) && Get2(aData[..], hdrOffset + 5) == top
      ensures temp != aData && (temp != null ==> temp.Length == aData.Length)
      ensures temp != null ==> temp == buffer || fresh(temp)
      ensures Rebuilt(d, aData[..], cellOffset, usableSize, cells, i + 1)
      ensures temp == null ==> InPlace(cells, usableSize, i + 1)
      ensures Readable(d, if temp == null then aData[..] else temp[..], cells, i + 1)
    {
      hide Total, Taking, Rebuilt, Readable, SizesKnown, SizeIsLocal, InPlace, PackedAt, Used, Put2, Get2, Has;
      temp, cbrk := buffer, end;
      ghost var cur := aData[..];
      ghost var p := PackedAt(cells, usableSize, i);
      CellInRange(xCellSize, d, cur, if temp == null then cur else temp[..], cellOffset, top, usableSize, cells, i);
      NextReadable(d, if temp == null then cur else temp[..], cells, i);
      var pAddr := cellOffset + 2 * i;
      var pc := Read2(pAddr);
      if pc < CellFirst() || pc > usableSize - 4 {
        assert false;
        return Corrupt, cbrk, temp;
      }
      var size := xCellSize(if temp == null then aData[pc..] else temp[pc..]);
      if cbrk < CellFirst() + size || pc + size > usableSize {
        assert false;
        return Corrupt, cbrk, temp;
      }
      cbrk := cbrk - size;
      Write2(pAddr, cbrk);
      ghost var cur1 := aData[..];
      PointerWritten(cur, cur1, pAddr, cbrk);
      GetSame(cur, cur1, hdrOffset + 5);
      if temp == null && cbrk == pc {
        KeepInPlace(d, cur, cur1, cellOffset, top, usableSize, cells, i);
      } else {
        if temp == null {
          temp := CopyOut(Read2(hdrOffset + 5), cbrk + size);
          ReadableBelow(d, cur, temp[..], cellOffset, top, usableSize, cells, i);
          NextReadable(d, temp[..], cells, i);
        }
        PlaceCell(i, cbrk, pc, size, temp, d, cur, cells);
      }
      rc := Ok;
    }

    /** The slow way: copy the cells, in the order of their pointers, to the end of the page. */
    method RebuildCells(ghost fb: seq<Span>, ghost cells: seq<Span>)
      returns (rc: Rc)
      requires ValidCells(fb, cells) && SizeIsLocal(xCellSize) && SizesKnown(xCellSize, aData[..], cells)
      modifies aData
      ensures rc.Ok? && Total(cells) <= usableSize && ValidCells([], Repacked(cells, usableSize))
      ensures aData[hdrOffset + 7] == 0
      ensures SameCells(old(aData[..]), cells, aData[..], Repacked(cells, usableSize))
    {
      hide Tidy, Total, Taking, Rebuilt, Readable, SizesKnown, SizeIsLocal, InPlace, PackedAt, Tiled, SameCells;
      ghost var d, top := aData[..], Top(aData[..], hdrOffset);
      RebuildStarts(d, hdrOffset, cellOffset, CellFirst(), usableSize, fb, cells);
      TidyTiled(d, hdrOffset, CellFirst(), usableSize, fb, cells);
      TidyBounds(d, hdrOffset, CellFirst(), usableSize, fb, cells);
      RepackedTiled(top, usableSize, d[hdrOffset + 7] as nat, fb, cells);
      RepackedUsed(cells, top, usableSize);
      assert nCell > 0 ==> top <= cells[0].off && cells[0].size >= 4;
      var temp: array?<byte> := null;
      var cbrk := usableSize;
      var i := 0;
      while i < nCell
        invariant 0 <= i <= nCell && cbrk == usableSize - Taking(cells, i)
        invariant nCell > 0 ==> Get2(aData[..], hdrOffset + 5) == top
        invariant temp == null || (fresh(temp) && temp.Length == aData.Length)
        invariant Rebuilt(d, aData[..], cellOffset, usableSize, cells, i)
        invariant temp == null ==> InPlace(cells, usableSize, i)
        invariant Readable(d, if temp == null then aData[..] else temp[..], cells, i)
      {
        rc, cbrk, temp := MoveCell(i, cbrk, temp, d, top, cells);
        i := i + 1;
      }
      ghost var d0 := aData[..];
      RebuildEnds(d, d0, cellOffset, usableSize, cells);
      aData[hdrOffset + 7] := 0;
      ghost var d1 := aData[..];
      PointedUpTo(d0, d1, cellOffset, Repacked(cells, usableSize), hdrOffset + 7);
      SameCellsUpTo(d, cells, d0, d1, hdrOffset + 8, Repacked(cells, usableSize));
      rc := FinishDefragment(cbrk, Repacked(cells, usableSize));
      SameCellsChain(d, cells, d1, Repacked(cells, usableSize), aData[..], Repacked(cells, usableSize));
    }

    /** Bring all free bytes but at most nMaxFrag together in front of the cells. */
    method DefragmentPage(nMaxFrag: int, ghost fb: seq<Span>, ghost cells: seq<Span>)
      returns (rc: Rc, ghost cells': seq<Span>)
      requires ValidCells(fb, cells) && SizeIsLocal(xCellSize) && SizesKnown(xCellSize, aData[..], cells)
      modifies aData
      ensures rc.Ok? && ValidCells([], cells') && SizesKnown(xCellSize, aData[..], cells')
      ensures SameCells(old(aData[..]), cells, aData[..], cells')
      ensures aData[hdrOffset + 7] as int <= nMaxFrag || aData[hdrOffset + 7] == 0
      ensures old(aData[hdrOffset + 7]) as int > nMaxFrag || !(1 <= |fb| <= 2) ==> aData[hdrOffset + 7] == 0
      ensures cells' == if old(aData[hdrOffset + 7]) as int <= nMaxFrag && 1 <= |fb| <= 2 then Slid(fb, cells)
                        else Repacked(cells, usableSize)
    {
      hide Tidy, Total, Tiled, SizesKnown, SizeIsLocal, SameCells, Pointed;
      ghost var d := aData[..];
      TidyBounds(d, hdrOffset, CellFirst(), usableSize, fb, cells);
      ListHead(d, hdrOffset, CellFirst(), usableSize, fb, cells);
      if aData[hdrOffset + 7] as int <= nMaxFrag {
        var iFree := Read2(hdrOffset + 1);
        if iFree != 0 {
          var iFree2 := Read2(iFree);
          if iFree2 == 0 || (aData[iFree2] == 0 && aData[iFree2 + 1] == 0) {
            rc := SlideCells(iFree, iFree2, fb, cells);
            cells' := Slid(fb, cells);
            SameSizesKnown(xCellSize, d, cells, aData[..], cells');
            return;
          }
        }
      }
      rc := RebuildCells(fb, cells);
      cells' := Repacked(cells, usableSize);
      SameSizesKnown(xCellSize, d, cells, aData[..], cells');
    }

    /** Defragment the page; all free bytes but at most nMaxFrag are then in front of the cells. */
    method WidenGap(nMaxFrag: nat, ghost fb: seq<Span>, ghost cells: seq<Span>)
      returns (rc: Rc, top: nat, ghost cells': seq<Span>)
      requires ValidCells(fb, cells) && SizeIsLocal(xCellSize) && SizesKnown(xCellSize, aData[..], cells)
      requires hdrOffset + 8 <= aData.Length
      modifies aData
      ensures rc.Ok? && ValidCells([], cells') && top == Top(aData[..], hdrOffset)
      ensures SameCells(old(aData[..]), cells, aData[..], cells')
      ensures aData[hdrOffset + 7] as int <= nMaxFrag && CellFirst() + nFree == top + aData[hdrOffset + 7] as int
    {
      hide Tidy, Total, Tiled, SizesKnown, SizeIsLocal, SameCells, Pointed, Slid, Repacked;
      rc, cells' := DefragmentPage(nMaxFrag, fb, cells);
      top := Read2(hdrOffset + 5);
      if top == 0 { top := 65536; }
      GapAfter(aData[..], hdrOffset, CellFirst(), usableSize, cells');
    }

    /** Take nByte bytes from the gap, defragmenting the page first if it is too small. */
    method AllocateFromGap(nByte: nat, start: nat, ghost fb: seq<Span>, ghost cells: seq<Span>)
      returns (rc: Rc, idx: nat, ghost fb': seq<Span>, ghost cells': seq<Span>)
      requires ValidCells(fb, cells) && SizeIsLocal(xCellSize) && SizesKnown(xCellSize, aData[..], cells)
      requires 4 <= nByte && nByte + 2 <= nFree && hdrOffset + 8 <= aData.Length && start == Top(aData[..], hdrOffset)
      modifies aData
      ensures rc.Ok?
      ensures Tidy(aData[..], hdrOffset, CellFirst(), usableSize, fb', cells' + [Span(idx, nByte)])
      ensures Pointed(aData[..], cellOffset, cells') && CellFirst() + 2 <= Top(aData[..], hdrOffset)
      ensures SameCells(old(aData[..]), cells, aData[..], cells')
      ensures if old(CellFirst() + 2 + nByte <= Top(aData[..], hdrOffset))
              then idx == old(Top(aData[..], hdrOffset)) - nByte && fb' == fb && cells' == cells
              else fb' == [] && aData[hdrOffset + 7] as int <= 4
    {
      hide Tidy, Total, Tiled, SizesKnown, SizeIsLocal, SameCells, Pointed, Put2;
      ghost var d := aData[..];
      TidyBounds(d, hdrOffset, CellFirst(), usableSize, fb, cells);
      ListHead(d, hdrOffset, CellFirst(), usableSize, fb, cells);
      SameCellsRefl(d, cells);
      var gap, top := cellOffset + 2 * nCell, start;
      fb', cells' := fb, cells;
      if gap + 2 + nByte > top {
        rc, top, cells' := WidenGap(if 4 < nFree - (2 + nByte) then 4 else nFree - (2 + nByte), fb, cells);
        fb' := [];
      }
      top := top - nByte;
      ghost var d1 := aData[..];
      Write2(hdrOffset + 5, top);
      ByteStays(d1, hdrOffset + 5, top, hdrOffset + 7);
      GapTaken(d1, hdrOffset, cellOffset, CellFirst(), usableSize, fb', cells', nByte);
      SameCellsChain(d, cells, d1, cells', aData[..], cells');
      return Ok, top, fb', cells';
    }

    /** Find nByte bytes for a new cell, without using the 2 bytes its cell pointer will need. */
    method AllocateSpace(nByte: nat, ghost fb: seq<Span>, ghost cells: seq<Span>)
      returns (rc: Rc, idx: nat, ghost fb': seq<Span>, ghost cells': seq<Span>)
      requires ValidCells(fb, cells) && SizeIsLocal(xCellSize) && SizesKnown(xCellSize, aData[..], cells)
      requires 4 <= nByte && nByte + 2 <= nFree
      modifies aData
      ensures rc.Ok?
      ensures Tidy(aData[..], hdrOffset, CellFirst(), usableSize, fb', cells' + [Span(idx, nByte)])
      ensures Pointed(aData[..], cellOffset, cells') && CellFirst() + 2 <= Top(aData[..], hdrOffset)
      ensures SameCells(old(aData[..]), cells, aData[..], cells')
      ensures var d := old(aData[..]); var top, slot := Top(d, hdrOffset), SlotIn(fb, nByte, d[hdrOffset + 7] as nat);
        if CellFirst() + 2 <= top && slot.Some? then idx == slot.value && cells' == cells
        else if CellFirst() + 2 + nByte <= top then idx == top - nByte && fb' == fb && cells' == cells
        else fb' == [] && aData[hdrOffset + 7] as int <= 4
    {
      hide Tidy, Total, Tiled, SizesKnown, SizeIsLocal, SameCells, Pointed, OutOfList, SlotIn;
      ghost var d := aData[..];
      TidyBounds(d, hdrOffset, CellFirst(), usableSize, fb, cells);
      NoSlot(nByte, d[hdrOffset + 7] as nat);
      ListHead(d, hdrOffset, CellFirst(), usableSize, fb, cells);
      idx, fb', cells' := 0, fb, cells;
      var gap := cellOffset + 2 * nCell;
      var top := Read2(hdrOffset + 5);
      if gap > top {
        if top == 0 && usableSize == 65536 {
          top := 65536;
        } else {
          assert false;
          rc := Corrupt;
          return;
        }
      }
      if (aData[hdrOffset + 2] != 0 || aData[hdrOffset + 1] != 0) && gap + 2 <= top {
        var slot;
        rc, slot, fb' := FindSlot(nByte, fb, cells);
        if slot.Some? {
          SlotKeepsCells(d, aData[..], hdrOffset, cellOffset, CellFirst(), usableSize, fb, cells);
          return Ok, slot.value, fb', cells;
        }
      }
      rc, idx, fb', cells' := AllocateFromGap(nByte, top, fb, cells);
    }
  }
}
