/**
  Moving the cells of a page together at its end: the two ways in which defragmentPage does that.
 */
module PageDefragment {
  import opened PageSpace
  import opened PageFreeSpace
  import opened PageFindSlot

  /** The cell pointer array lists exactly the spans in use. */
  ghost predicate Pointed(d: seq<byte>, cellOffset: nat, used: seq<Span>) {
    && cellOffset + 2 * |used| <= |d|
    && forall i :: 0 <= i < |used| ==> Get2(d, cellOffset + 2 * i) == used[i].off
  }

  ghost predicate InBytes(d: seq<byte>, used: seq<Span>) {
    forall i :: 0 <= i < |used| ==> used[i].End() <= |d|
  }

  /** The i-th cell has the same bytes before and after, wherever it lies. */
  ghost predicate SameCells(d: seq<byte>, used: seq<Span>, d': seq<byte>, used': seq<Span>) {
    && |used'| == |used| && InBytes(d, used) && InBytes(d', used')
    && forall i :: 0 <= i < |used| ==> SameCell(d, used[i], d', used'[i])
  }

  ghost predicate SameCell(d: seq<byte>, s: Span, d': seq<byte>, s': Span)
    requires s.End() <= |d| && s'.End() <= |d'|
  {
    s'.size == s.size && d'[s'.off..s'.End()] == d[s.off..s.End()]
  }

  // ---- one or two free blocks: slide the cells before them over them ----

  function SizeOf(fb: seq<Span>, k: nat): nat { if k < |fb| then fb[k].size else 0 }

  /** How far a cell at offset off moves when the free blocks fb, one or two, are closed. */
  function Shift(fb: seq<Span>, off: nat): nat
    requires 1 <= |fb| <= 2
  {
    if off < fb[0].off then fb[0].size + SizeOf(fb, 1)
    else if |fb| == 2 && off < fb[1].off then fb[1].size
    else 0
  }

  function Slid(fb: seq<Span>, used: seq<Span>): (r: seq<Span>)
    requires 1 <= |fb| <= 2
    ensures |r| == |used|
    ensures forall i :: 0 <= i < |used| ==> r[i] == Span(used[i].off + Shift(fb, used[i].off), used[i].size)
  {
    seq(|used|, i requires 0 <= i < |used| => Span(used[i].off + Shift(fb, used[i].off), used[i].size))
  }

  lemma {:induction false} TotalSameSizes(s: seq<Span>, t: seq<Span>)
    requires |s| == |t| && forall i :: 0 <= i < |s| ==> s[i].size == t[i].size
    ensures Total(s) == Total(t)
  {
    if s != [] { TotalSameSizes(s[..|s| - 1], t[..|t| - 1]); }
  }

  /** What one cell's place is relative to the free blocks. */
  lemma SlidOne(top: nat, usable: nat, frag: nat, fb: seq<Span>, used: seq<Span>, i: nat)
    requires Tiled(top, usable, frag, fb, used) && 1 <= |fb| <= 2 && i < |used|
    ensures var s := used[i];
      && s.size >= 4 && top <= s.off && s.End() <= usable
      && (s.off < fb[0].off ==> s.End() <= fb[0].off)
      && (fb[0].off <= s.off ==> fb[0].End() <= s.off)
      && (|fb| == 2 && s.off < fb[1].off ==> s.End() <= fb[1].off)
      && (|fb| == 2 && fb[1].off <= s.off ==> fb[1].End() <= s.off)
    ensures top + fb[0].size + SizeOf(fb, 1) <= used[i].off + Shift(fb, used[i].off)
    ensures used[i].End() + Shift(fb, used[i].off) <= usable
    ensures fb[0].End() <= usable && fb[0].End() + SizeOf(fb, 1) <= fb[|fb| - 1].End() <= usable
  {
    assert Apart(fb[0], used[i]);
    if |fb| == 2 {
      assert Apart(fb[1], used[i]);
      assert fb[0].End() + 3 < fb[1].off;
    }
  }

  lemma SlidTwo(top: nat, usable: nat, frag: nat, fb: seq<Span>, used: seq<Span>, i: nat, j: nat)
    requires Tiled(top, usable, frag, fb, used) && 1 <= |fb| <= 2 && i < j < |used|
    ensures Apart(Slid(fb, used)[i], Slid(fb, used)[j])
  {
    SlidOne(top, usable, frag, fb, used, i);
    SlidOne(top, usable, frag, fb, used, j);
    assert Apart(used[i], used[j]);
    if |fb| == 2 { assert fb[0].End() + 3 < fb[1].off; }
  }

  lemma TotalOfBlocks(fb: seq<Span>)
    requires 1 <= |fb| <= 2
    ensures Total(fb) == fb[0].size + SizeOf(fb, 1)
  {
    TotalSingle(fb[0]);
    if |fb| == 1 {
      assert fb == [fb[0]];
    } else {
      assert fb == [fb[0]] + [fb[1]];
      TotalAppend([fb[0]], [fb[1]]);
      TotalSingle(fb[1]);
    }
  }

  lemma SlidTiled(top: nat, usable: nat, frag: nat, fb: seq<Span>, used: seq<Span>)
    requires Tiled(top, usable, frag, fb, used) && 1 <= |fb| <= 2
    ensures Total(fb) == fb[0].size + SizeOf(fb, 1)
    ensures Tiled(top + Total(fb), usable, frag, [], Slid(fb, used))
  {
    hide Slid, ClearOf, Apart, Total, Shift;
    var used' := Slid(fb, used);
    TotalOfBlocks(fb);
    TotalSameSizes(used, used');
    forall i, j | 0 <= i < j < |used'| ensures Apart(used'[i], used'[j]) {
      SlidTwo(top, usable, frag, fb, used, i, j);
    }
    forall i | 0 <= i < |used'|
      ensures top + Total(fb) <= used'[i].off && used'[i].End() <= usable && used'[i].size >= 4
    {
      SlidOne(top, usable, frag, fb, used, i);
    }
    NothingFree(top + Total(fb), usable, frag, used');
  }

  lemma NothingFree(top: nat, usable: nat, frag: nat, used: seq<Span>)
    requires Used(used, top, usable) && frag + Total(used) == usable - top
    ensures Tiled(top, usable, frag, [], used)
  {
    assert Total([]) == 0;
  }

  /** The content area after the cells have slid. */
  ghost predicate SlidBytes(d: seq<byte>, d': seq<byte>, top: nat, fb: seq<Span>)
    requires 1 <= |fb| <= 2
  {
    var both := fb[0].size + SizeOf(fb, 1);
    && |d'| == |d| && fb[0].off + both <= |d|
    && (forall x :: top <= x < fb[0].off ==> d'[x + both] == d[x])
    && (|fb| == 2 ==> fb[1].End() <= |d| && forall x :: fb[0].End() <= x < fb[1].off ==> d'[x + fb[1].size] == d[x])
    && (forall x :: fb[|fb| - 1].End() <= x < |d| ==> d'[x] == d[x])
  }

  lemma SlidCells(d: seq<byte>, d': seq<byte>, top: nat, usable: nat, frag: nat, fb: seq<Span>, used: seq<Span>)
    requires Tiled(top, usable, frag, fb, used) && 1 <= |fb| <= 2 && usable <= |d| && SlidBytes(d, d', top, fb)
    ensures SameCells(d, used, d', Slid(fb, used))
  {
    hide Sorted, Used, ClearOf, Total;
    var used' := Slid(fb, used);
    forall i | 0 <= i < |used|
      ensures used[i].End() <= |d| && used'[i].End() <= |d'| && SameCell(d, used[i], d', used'[i])
    {
      var s, s' := used[i], used'[i];
      SlidOne(top, usable, frag, fb, used, i);
      forall y | 0 <= y < s.size ensures d'[s'.off..s'.End()][y] == d[s.off..s.End()][y] {
        assert d[s.off + y] == d'[s'.off + y];
      }
    }
  }

  lemma NothingFreeTotal(top: nat, usable: nat, frag: nat, used: seq<Span>)
    requires Tiled(top, usable, frag, [], used)
    ensures frag + Total(used) == usable - top
  {
    assert Total([]) == 0;
  }

  /** Header written, gap cleared: the page is well-formed, without free blocks. */
  lemma DefragmentedTidy(
      d: seq<byte>, d': seq<byte>, hdr: nat, cellOffset: nat, first: nat, usable: nat, cbrk: nat, cells: seq<Span>)
    requires hdr + 8 <= cellOffset && first == cellOffset + 2 * |cells| && first <= cbrk <= usable <= |d| == |d'|
    requires usable <= 65536 && d[hdr + 7] as int <= 60
    requires Tiled(cbrk, usable, d[hdr + 7] as nat, [], cells) && Pointed(d, cellOffset, cells)
    requires d'[hdr + 1] == 0 && d'[hdr + 2] == 0 && Top(d', hdr) == cbrk
    requires forall x ::
      0 <= x < |d| && !(hdr + 1 <= x < hdr + 3) && !(hdr + 5 <= x < hdr + 7) && !(first <= x < cbrk) ==> d'[x] == d[x]
    ensures Tidy(d', hdr, first, usable, [], cells) && Pointed(d', cellOffset, cells)
    ensures SameCells(d, cells, d', cells)
  {
    hide Total;
    forall i | 0 <= i < |cells| ensures Get2(d', cellOffset + 2 * i) == cells[i].off {
      assert Get2(d, cellOffset + 2 * i) == cells[i].off;
    }
    forall i | 0 <= i < |cells| ensures cells[i].End() <= |d| && SameCell(d, cells[i], d', cells[i]) {
      assert cbrk <= cells[i].off && cells[i].End() <= usable;
    }
  }

  lemma TidyTiled(d: seq<byte>, hdr: nat, first: nat, usable: nat, fb: seq<Span>, used: seq<Span>)
    requires Tidy(d, hdr, first, usable, fb, used)
    ensures Tiled(Top(d, hdr), usable, d[hdr + 7] as nat, fb, used)
  {
  }

  lemma TwoBlocks(d: seq<byte>, hdr: nat, first: nat, usable: nat, fb: seq<Span>, used: seq<Span>)
    requires Tidy(d, hdr, first, usable, fb, used) && 1 <= |fb| <= 2
    ensures Top(d, hdr) == Get2(d, hdr + 5) < fb[0].off && fb[0].off + 3 < |d|
    ensures Get2(d, fb[0].off + 2) == fb[0].size && fb[0].End() <= usable
    ensures |fb| == 2 ==> fb[0].End() < fb[1].off && Get2(d, fb[1].off + 2) == fb[1].size && fb[1].End() <= usable
    ensures |fb| == 2 ==> fb[1].off > 0 && fb[1].off + 3 < |d|
    ensures SizeOf(fb, 1) == if |fb| == 2 then fb[1].size else 0
    ensures OffsetOf(fb, 1) == if |fb| == 2 then fb[1].off else 0
  {
    TidyHeaders(d, hdr, first, usable, fb, used, 0);
    if |fb| == 2 {
      TidyHeaders(d, hdr, first, usable, fb, used, 1);
      assert fb[0].End() + 3 < fb[1].off;
    }
  }

  lemma PointerWritten(d: seq<byte>, d': seq<byte>, i: nat, v: nat)
    requires i + 1 < |d| == |d'| && v < 65536
    requires (d' == d && Get2(d, i) == v) || d' == Put2(d, i, v)
    ensures Get2(d', i) == v && forall x :: 0 <= x < |d| && x != i && x != i + 1 ==> d'[x] == d[x]
  {
  }

  lemma SlidPlaces(d: seq<byte>, hdr: nat, first: nat, usable: nat, fb: seq<Span>, used: seq<Span>)
    requires Tidy(d, hdr, first, usable, fb, used) && 1 <= |fb| <= 2
    ensures forall i :: 0 <= i < |used| ==> used[i].off + Shift(fb, used[i].off) < 65536
    ensures Total(Slid(fb, used)) == Total(used) && Top(d, hdr) + fb[0].size + SizeOf(fb, 1) <= usable
    ensures Tiled(Top(d, hdr) + fb[0].size + SizeOf(fb, 1), usable, d[hdr + 7] as nat, [], Slid(fb, used))
  {
    hide Linked, Total;
    forall i | 0 <= i < |used| ensures used[i].off + Shift(fb, used[i].off) < 65536 {
      SlidOne(Top(d, hdr), usable, d[hdr + 7] as nat, fb, used, i);
    }
    TotalSameSizes(used, Slid(fb, used));
    SlidTiled(Top(d, hdr), usable, d[hdr + 7] as nat, fb, used);
  }

  /** Bytes below the content area do not matter to the cells. */
  lemma SameCellsUpTo(d: seq<byte>, used: seq<Span>, d1: seq<byte>, d2: seq<byte>, top: nat, used': seq<Span>)
    requires SameCells(d, used, d1, used') && |d2| == |d1|
    requires forall i :: 0 <= i < |used'| ==> top <= used'[i].off
    requires forall x :: top <= x < |d1| ==> d2[x] == d1[x]
    ensures SameCells(d, used, d2, used')
  {
    forall i | 0 <= i < |used|
      ensures used[i].End() <= |d| && used'[i].End() <= |d2| && SameCell(d, used[i], d2, used'[i])
    {
      assert SameCell(d, used[i], d1, used'[i]);
      assert d2[used'[i].off..used'[i].End()] == d1[used'[i].off..used'[i].End()];
    }
  }

  lemma SameCellsChain(d: seq<byte>, used: seq<Span>, d1: seq<byte>, used1: seq<Span>, d2: seq<byte>, used2: seq<Span>)
    requires SameCells(d, used, d1, used1) && SameCells(d1, used1, d2, used2)
    ensures SameCells(d, used, d2, used2)
  {
    forall i | 0 <= i < |used|
      ensures used[i].End() <= |d| && used2[i].End() <= |d2| && SameCell(d, used[i], d2, used2[i])
    {
      assert SameCell(d, used[i], d1, used1[i]) && SameCell(d1, used1[i], d2, used2[i]);
    }
  }

  // ---- otherwise: rebuild the content area, cell by cell, from the end of the page ----

  /** The cell sizes a page type computes depend on the bytes of the cell alone. */
  ghost predicate SizeIsLocal(cellSize: seq<byte> -> nat) {
    forall s, t :: cellSize(s) <= |s| && cellSize(s) <= |t| && s[..cellSize(s)] == t[..cellSize(s)] ==>
      cellSize(t) == cellSize(s)
  }

  ghost predicate SizesKnown(cellSize: seq<byte> -> nat, d: seq<byte>, cells: seq<Span>) {
    forall i :: 0 <= i < |cells| ==> cells[i].End() <= |d| && cellSize(d[cells[i].off..]) == cells[i].size
  }

  /** Bytes taken by the first n cells. */
  function Taking(cells: seq<Span>, n: nat): nat
    requires n <= |cells|
  {
    Total(cells[..n])
  }

  lemma TakingStep(cells: seq<Span>, n: nat)
    requires n < |cells|
    ensures Taking(cells, n + 1) == Taking(cells, n) + cells[n].size
    ensures Taking(cells, n + 1) <= Total(cells)
  {
    hide Total;
    assert cells[..n + 1] == cells[..n] + [cells[n]];
    TotalAppend(cells[..n], [cells[n]]);
    TotalSingle(cells[n]);
    assert cells == cells[..n + 1] + cells[n + 1..];
    TotalAppend(cells[..n + 1], cells[n + 1..]);
  }

  lemma {:induction false} TakingMonotone(cells: seq<Span>, m: nat, n: nat)
    requires m <= n <= |cells|
    ensures Taking(cells, m) <= Taking(cells, n)
    decreases n
  {
    if m < n {
      TakingMonotone(cells, m, n - 1);
      TakingStep(cells, n - 1);
    }
  }

  /** Where the i-th cell goes. */
  function PackedAt(cells: seq<Span>, usable: nat, i: nat): Span
    requires i < |cells| && Total(cells) <= usable
  {
    TakingStep(cells, i);
    Span(usable - Taking(cells, i + 1), cells[i].size)
  }

  function Repacked(cells: seq<Span>, usable: nat): (r: seq<Span>)
    requires Total(cells) <= usable
    ensures |r| == |cells|
    ensures forall i :: 0 <= i < |cells| ==> r[i] == PackedAt(cells, usable, i)
  {
    seq(|cells|, i requires 0 <= i < |cells| => PackedAt(cells, usable, i))
  }

  lemma PackedPlace(cells: seq<Span>, usable: nat, i: nat)
    requires i < |cells| && Total(cells) <= usable
    ensures usable - Total(cells) <= PackedAt(cells, usable, i).off
    ensures PackedAt(cells, usable, i).End() == usable - Taking(cells, i) <= usable
  {
    TakingStep(cells, i);
  }

  lemma PackedApart(cells: seq<Span>, usable: nat, i: nat, j: nat)
    requires i < j < |cells| && Total(cells) <= usable
    ensures PackedAt(cells, usable, j).End() <= PackedAt(cells, usable, i).off
  {
    TakingMonotone(cells, i + 1, j);
    PackedPlace(cells, usable, j);
  }

  lemma RepackedUsed(cells: seq<Span>, lo: nat, usable: nat)
    requires Used(cells, lo, usable) && Total(cells) <= usable
    ensures Used(Repacked(cells, usable), usable - Total(cells), usable)
  {
    hide Total, Taking, Repacked, PackedAt;
    var r := Repacked(cells, usable);
    forall i, j | 0 <= i < j < |r| ensures Apart(r[i], r[j]) { PackedApart(cells, usable, i, j); }
    forall i | 0 <= i < |r| ensures usable - Total(cells) <= r[i].off && r[i].End() <= usable && r[i].size >= 4 {
      PackedPlace(cells, usable, i);
      SizePacked(cells, usable, i);
    }
  }

  lemma SizePacked(cells: seq<Span>, usable: nat, i: nat)
    requires i < |cells| && Total(cells) <= usable
    ensures PackedAt(cells, usable, i).size == cells[i].size
  {
  }

  lemma RepackedTiled(top: nat, usable: nat, frag: nat, fb: seq<Span>, cells: seq<Span>)
    requires Tiled(top, usable, frag, fb, cells)
    ensures Total(cells) <= usable - top
    ensures Total(Repacked(cells, usable)) == Total(cells)
    ensures Tiled(usable - Total(cells), usable, 0, [], Repacked(cells, usable))
  {
    hide Total, Sorted, ClearOf, Repacked, Taking, Used, PackedAt;
    forall i | 0 <= i < |cells|
      ensures PackedAt(cells, usable, i).size == cells[i].size
    {
      SizePacked(cells, usable, i);
    }
    TotalSameSizes(cells, Repacked(cells, usable));
    RepackedUsed(cells, top, usable);
    NothingFree(usable - Total(cells), usable, 0, Repacked(cells, usable));
  }

  /** The first i cells are in their new places; below them only their pointers have been changed. */
  ghost predicate Rebuilt(d: seq<byte>, cur: seq<byte>, cellOffset: nat, usable: nat, cells: seq<Span>, i: nat) {
    && |cur| == |d| && Total(cells) <= usable <= |d| && i <= |cells|
    && cellOffset + 2 * |cells| + Total(cells) <= usable
    && (forall j :: 0 <= j < i ==> Get2(cur, cellOffset + 2 * j) == PackedAt(cells, usable, j).off)
    && (forall j :: i <= j < |cells| ==> Get2(cur, cellOffset + 2 * j) == cells[j].off)
    && (forall j :: 0 <= j < i ==> cells[j].End() <= |d| && Placed(d, cur, cells, usable, j))
    && (forall x :: 0 <= x < usable - Taking(cells, i) && !(cellOffset <= x < cellOffset + 2 * |cells|) ==>
         cur[x] == d[x])
  }

  ghost predicate Placed(d: seq<byte>, cur: seq<byte>, cells: seq<Span>, usable: nat, j: nat)
    requires j < |cells| && Total(cells) <= usable <= |cur| && cells[j].End() <= |d|
  {
    PackedPlace(cells, usable, j);
    SameCell(d, cells[j], cur, PackedAt(cells, usable, j))
  }

  /** The cells still to be moved can be read from src. */
  ghost predicate Readable(d: seq<byte>, src: seq<byte>, cells: seq<Span>, i: nat) {
    forall j :: i <= j < |cells| ==>
      && cells[j].End() <= |d| && cells[j].End() <= |src|
      && src[cells[j].off..cells[j].End()] == d[cells[j].off..cells[j].End()]
  }

  /** One cell has been moved. */
  lemma RebuildStep(
      d: seq<byte>, cur: seq<byte>, src: seq<byte>, cur': seq<byte>, cellOffset: nat, usable: nat, cells: seq<Span>,
      i: nat)
    requires Rebuilt(d, cur, cellOffset, usable, cells, i) && Readable(d, src, cells, i) && i < |cells|
    requires |cur'| == |cur|
    requires var p := PackedAt(cells, usable, i);
      && p.End() <= |cur| && cells[i].End() <= |src|
      && Get2(cur', cellOffset + 2 * i) == p.off
      && cur'[p.off..p.End()] == src[cells[i].off..cells[i].End()]
      && forall x :: 0 <= x < |cur| && !Has(p, x) && !(cellOffset + 2 * i <= x < cellOffset + 2 * i + 2) ==>
           cur'[x] == cur[x]
    ensures Rebuilt(d, cur', cellOffset, usable, cells, i + 1)
  {
    hide Total, Taking, Readable, PackedAt;
    var p := PackedAt(cells, usable, i);
    PackedPlace(cells, usable, i);
    SizePacked(cells, usable, i);
    TakingStep(cells, i);
    forall j | 0 <= j <= i ensures cells[j].End() <= |d| && Placed(d, cur', cells, usable, j) {
      if j < i {
        assert Placed(d, cur, cells, usable, j);
        PackedPlace(cells, usable, j);
        SizePacked(cells, usable, j);
        PackedApart(cells, usable, j, i);
        var q := PackedAt(cells, usable, j);
        assert cur'[q.off..q.End()] == cur[q.off..q.End()];
      } else {
        NextReadable(d, src, cells, i);
      }
    }
    forall j | 0 <= j < |cells| && j != i ensures Get2(cur', cellOffset + 2 * j) == Get2(cur, cellOffset + 2 * j) {
    }
  }

  lemma NextReadable(d: seq<byte>, src: seq<byte>, cells: seq<Span>, i: nat)
    requires Readable(d, src, cells, i) && i < |cells|
    ensures cells[i].End() <= |d| && cells[i].End() <= |src|
    ensures src[cells[i].off..cells[i].End()] == d[cells[i].off..cells[i].End()]
    ensures Readable(d, src, cells, i + 1)
  {
  }

  lemma SizeFromCopy(cellSize: seq<byte> -> nat, d: seq<byte>, src: seq<byte>, cells: seq<Span>, i: nat)
    requires SizeIsLocal(cellSize) && SizesKnown(cellSize, d, cells) && Readable(d, src, cells, i) && i < |cells|
    ensures cells[i].End() <= |src| && cellSize(src[cells[i].off..]) == cells[i].size
  {
    var s, t := d[cells[i].off..], src[cells[i].off..];
    var n := cellSize(s);
    assert s[..n] == d[cells[i].off..cells[i].End()] && t[..n] == src[cells[i].off..cells[i].End()];
  }

  /** As long as every cell was in place already, the rest lies below the ones passed. */
  ghost predicate InPlace(cells: seq<Span>, usable: nat, i: nat)
    requires Total(cells) <= usable && i <= |cells|
  {
    TakingMonotone(cells, i, |cells|);
    assert cells[..|cells|] == cells;
    forall j :: i <= j < |cells| ==> cells[j].End() <= usable - Taking(cells, i)
  }

  lemma InPlaceStep(cells: seq<Span>, lo: nat, usable: nat, i: nat)
    requires Used(cells, lo, usable) && Total(cells) <= usable && i < |cells| && InPlace(cells, usable, i)
    requires PackedAt(cells, usable, i) == cells[i]
    ensures InPlace(cells, usable, i + 1)
  {
    PackedPlace(cells, usable, i);
    TakingStep(cells, i);
    forall j | i < j < |cells| ensures cells[j].End() <= usable - Taking(cells, i + 1) {
      assert Apart(cells[i], cells[j]);
    }
  }

  /** What has not been overwritten can be read where it was. */
  lemma ReadableBelow(
      d: seq<byte>, cur: seq<byte>, src: seq<byte>, cellOffset: nat, top: nat, usable: nat, cells: seq<Span>, i: nat)
    requires Rebuilt(d, cur, cellOffset, usable, cells, i) && Used(cells, top, usable)
    requires cellOffset + 2 * |cells| <= top
    requires InPlace(cells, usable, i) && |src| == |cur|
    requires forall x :: top <= x < usable - Taking(cells, i) ==> src[x] == cur[x]
    ensures Readable(d, src, cells, i)
  {
    forall j | i <= j < |cells|
      ensures cells[j].End() <= |d| && src[cells[j].off..cells[j].End()] == d[cells[j].off..cells[j].End()]
    {
      assert cells[j].End() <= usable - Taking(cells, i);
    }
  }

  lemma RebuildStarts(d: seq<byte>, hdr: nat, cellOffset: nat, first: nat, usable: nat, fb: seq<Span>, cells: seq<Span>)
    requires Tidy(d, hdr, first, usable, fb, cells) && Pointed(d, cellOffset, cells)
    requires first == cellOffset + 2 * |cells|
    ensures Total(cells) <= usable && InPlace(cells, usable, 0) && Rebuilt(d, d, cellOffset, usable, cells, 0)
    ensures Taking(cells, 0) == 0 && Used(cells, Top(d, hdr), usable) && first <= Top(d, hdr)
    ensures Readable(d, d, cells, 0)
  {
    assert cells[..0] == [];
    RepackedTiled(Top(d, hdr), usable, d[hdr + 7] as nat, fb, cells);
  }

  lemma RebuildEnds(d: seq<byte>, cur: seq<byte>, cellOffset: nat, usable: nat, cells: seq<Span>)
    requires Rebuilt(d, cur, cellOffset, usable, cells, |cells|)
    ensures Pointed(cur, cellOffset, Repacked(cells, usable)) && SameCells(d, cells, cur, Repacked(cells, usable))
    ensures Taking(cells, |cells|) == Total(cells)
  {
    hide Total, Taking;
    var r := Repacked(cells, usable);
    forall j | 0 <= j < |cells|
      ensures cells[j].End() <= |d| && r[j].End() <= |cur| && SameCell(d, cells[j], cur, r[j])
    {
      assert Placed(d, cur, cells, usable, j);
      PackedPlace(cells, usable, j);
    }
    TakingAll(cells);
  }

  lemma TakingAll(cells: seq<Span>)
    ensures Taking(cells, |cells|) == Total(cells)
  {
    assert cells[..|cells|] == cells;
  }

  lemma PointedUpTo(d: seq<byte>, d': seq<byte>, cellOffset: nat, cells: seq<Span>, x: nat)
    requires Pointed(d, cellOffset, cells) && |d'| == |d| && x < cellOffset
    requires forall y :: 0 <= y < |d| && y != x ==> d'[y] == d[y]
    ensures Pointed(d', cellOffset, cells)
  {
    forall i | 0 <= i < |cells| ensures Get2(d', cellOffset + 2 * i) == cells[i].off {
      assert Get2(d, cellOffset + 2 * i) == cells[i].off;
    }
  }

  /** What is known of cell i and of its new place when its turn comes. */
  lemma CellInRange(
      cellSize: seq<byte> -> nat, d: seq<byte>, cur: seq<byte>, src: seq<byte>, cellOffset: nat, top: nat, usable: nat,
      cells: seq<Span>, i: nat)
    requires Rebuilt(d, cur, cellOffset, usable, cells, i) && Readable(d, src, cells, i) && i < |cells|
    requires Used(cells, top, usable) && cellOffset + 2 * |cells| <= top && usable - Total(cells) >= top
    requires SizeIsLocal(cellSize) && SizesKnown(cellSize, d, cells)
    ensures cellOffset + 2 * i + 1 < |cur| && Get2(cur, cellOffset + 2 * i) == cells[i].off
    ensures top <= cells[i].off && cells[i].off + 4 <= cells[i].End() <= usable && cells[i].End() <= |src|
    ensures cellSize(src[cells[i].off..]) == cells[i].size
    ensures PackedAt(cells, usable, i).off == usable - Taking(cells, i) - cells[i].size >= top
    ensures PackedAt(cells, usable, i).End() == usable - Taking(cells, i) <= usable <= |cur|
    ensures usable - Taking(cells, i + 1) == PackedAt(cells, usable, i).off
    ensures PackedAt(cells, usable, i).size == cells[i].size
  {
    SizeFromCopy(cellSize, d, src, cells, i);
    PackedPlace(cells, usable, i);
    TakingStep(cells, i);
  }

  lemma SameSizesKnown(cellSize: seq<byte> -> nat, d: seq<byte>, cells: seq<Span>, d': seq<byte>, cells': seq<Span>)
    requires SizeIsLocal(cellSize) && SizesKnown(cellSize, d, cells) && SameCells(d, cells, d', cells')
    ensures SizesKnown(cellSize, d', cells')
  {
    hide SizeIsLocal;
    forall i | 0 <= i < |cells| ensures cellSize(d'[cells'[i].off..]) == cells'[i].size {
      assert SameCell(d, cells[i], d', cells'[i]);
      SameSize(cellSize, d, cells[i], d', cells'[i]);
    }
  }

  lemma SameSize(cellSize: seq<byte> -> nat, d: seq<byte>, c: Span, d': seq<byte>, c': Span)
    requires SizeIsLocal(cellSize) && c.End() <= |d| && c'.End() <= |d'| && SameCell(d, c, d', c')
    requires cellSize(d[c.off..]) == c.size
    ensures cellSize(d'[c'.off..]) == c'.size
  {
    var s, t := d[c.off..], d'[c'.off..];
    assert s[..c.size] == d[c.off..c.End()] && t[..c.size] == d'[c'.off..c'.End()];
  }

  lemma SameCellsRefl(d: seq<byte>, cells: seq<Span>)
    requires InBytes(d, cells)
    ensures SameCells(d, cells, d, cells)
  {
  }

  /** The first pointers of the free list. */
  lemma ListHead(d: seq<byte>, hdr: nat, first: nat, usable: nat, fb: seq<Span>, used: seq<Span>)
    requires Tidy(d, hdr, first, usable, fb, used)
    ensures Get2(d, hdr + 1) == OffsetOf(fb, 0) && (fb == [] <==> Get2(d, hdr + 1) == 0)
    ensures |fb| > 0 ==> fb[0].off + 3 < |d| && Get2(d, fb[0].off) == OffsetOf(fb, 1)
    ensures |fb| > 1 ==> fb[1].off + 3 < |d| && OffsetOf(fb, 1) != 0 && (Get2(d, fb[1].off) == 0 <==> |fb| == 2)
    ensures InBytes(d, used)
  {
    assert PtrAddr(hdr, fb, 0) == hdr + 1;
    if |fb| > 0 { TidyHeaders(d, hdr, first, usable, fb, used, 0); }
    if |fb| > 1 { TidyHeaders(d, hdr, first, usable, fb, used, 1); }
  }

  /** Taking a slot out of the free list changes no cell and no cell pointer. */
  lemma SlotKeepsCells(
      d: seq<byte>, d': seq<byte>, hdr: nat, cellOffset: nat, first: nat, usable: nat, fb: seq<Span>, cells: seq<Span>)
    requires Tidy(d, hdr, first, usable, fb, cells) && Pointed(d, cellOffset, cells) && |d'| == |d|
    requires hdr + 8 <= cellOffset && first == cellOffset + 2 * |cells|
    requires forall x :: 0 <= x < |d| && OutOfList(hdr, fb, x) ==> d'[x] == d[x]
    ensures Pointed(d', cellOffset, cells) && SameCells(d, cells, d', cells)
  {
    hide Linked, Total;
    forall j | 0 <= j < |cells| ensures Get2(d', cellOffset + 2 * j) == cells[j].off {
      assert Get2(d, cellOffset + 2 * j) == cells[j].off;
    }
    forall j | 0 <= j < |cells| ensures cells[j].End() <= |d| && SameCell(d, cells[j], d', cells[j]) {
      forall x | cells[j].off <= x < cells[j].End() ensures d'[x] == d[x] {
        forall i | 0 <= i < |fb| ensures !Has(fb[i], x) { assert Apart(fb[i], cells[j]); }
      }
    }
  }

  /** Without free blocks, what is free and no fragment is the gap. */
  lemma GapAfter(d: seq<byte>, hdr: nat, first: nat, usable: nat, cells: seq<Span>)
    requires Tidy(d, hdr, first, usable, [], cells)
    ensures d[hdr + 7] as nat + Total(cells) == usable - Top(d, hdr)
  {
    NothingFreeTotal(Top(d, hdr), usable, d[hdr + 7] as nat, cells);
  }

  /** A new span right in front of the content area, taken from the gap. */
  lemma GapTaken(
      d: seq<byte>, hdr: nat, cellOffset: nat, first: nat, usable: nat, fb: seq<Span>, cells: seq<Span>, nByte: nat)
    requires Tidy(d, hdr, first, usable, fb, cells) && Pointed(d, cellOffset, cells)
    requires hdr + 8 <= cellOffset && first == cellOffset + 2 * |cells| && 4 <= nByte && first + nByte <= Top(d, hdr)
    ensures var d' := Put2(d, hdr + 5, Top(d, hdr) - nByte);
      && Top(d', hdr) == Top(d, hdr) - nByte
      && Tidy(d', hdr, first, usable, fb, cells + [Span(Top(d, hdr) - nByte, nByte)])
      && Pointed(d', cellOffset, cells) && SameCells(d, cells, d', cells)
  {
    hide Total;
    var top := Top(d, hdr) - nByte;
    var d' := Put2(d, hdr + 5, top);
    GetPut(d, hdr + 5, top, hdr + 5);
    GapTiled(Top(d, hdr), usable, d[hdr + 7] as nat, fb, cells, nByte);
    forall k | 0 <= k <= |fb| ensures Get2(d', PtrAddr(hdr, fb, k)) == OffsetOf(fb, k) {
      assert Get2(d, PtrAddr(hdr, fb, k)) == OffsetOf(fb, k);
    }
    forall j | 0 <= j < |cells| ensures Get2(d', cellOffset + 2 * j) == cells[j].off {
      assert Get2(d, cellOffset + 2 * j) == cells[j].off;
    }
    forall j | 0 <= j < |cells| ensures cells[j].End() <= |d| && SameCell(d, cells[j], d', cells[j]) {
    }
  }

  lemma GapTiled(top: nat, usable: nat, frag: nat, fb: seq<Span>, used: seq<Span>, nByte: nat)
    requires Tiled(top, usable, frag, fb, used) && 4 <= nByte <= top
    ensures Tiled(top - nByte, usable, frag, fb, used + [Span(top - nByte, nByte)])
  {
    hide Total;
    TotalAppend(used, [Span(top - nByte, nByte)]);
    TotalSingle(Span(top - nByte, nByte));
  }

  /** A cell that is in its new place already stays there. */
  lemma KeepInPlace(
      d: seq<byte>, cur: seq<byte>, cur': seq<byte>, cellOffset: nat, top: nat, usable: nat, cells: seq<Span>, i: nat)
    requires Rebuilt(d, cur, cellOffset, usable, cells, i) && Readable(d, cur, cells, i) && i < |cells|
    requires |cur'| == |cur|
    requires Used(cells, top, usable) && cellOffset + 2 * |cells| <= top && Total(cells) <= usable
    requires InPlace(cells, usable, i) && PackedAt(cells, usable, i) == cells[i]
    requires Get2(cur', cellOffset + 2 * i) == cells[i].off
    requires forall x :: 0 <= x < |cur| && x != cellOffset + 2 * i && x != cellOffset + 2 * i + 1 ==> cur'[x] == cur[x]
    ensures Rebuilt(d, cur', cellOffset, usable, cells, i + 1)
    ensures InPlace(cells, usable, i + 1) && Readable(d, cur', cells, i + 1)
  {
    hide Rebuilt, Readable, Total, Taking, InPlace, PackedAt, Get2;
    NextReadable(d, cur, cells, i);
    assert top <= cells[i].off && cells[i].End() <= usable;
    RebuiltBounds(d, cur, cellOffset, usable, cells, i);
    assert cur'[cells[i].off..cells[i].End()] == cur[cells[i].off..cells[i].End()];
    RebuildStep(d, cur, cur, cur', cellOffset, usable, cells, i);
    InPlaceStep(cells, top, usable, i);
    ReadableBelow(d, cur', cur', cellOffset, top, usable, cells, i + 1);
  }

  lemma RebuiltBounds(d: seq<byte>, cur: seq<byte>, cellOffset: nat, usable: nat, cells: seq<Span>, i: nat)
    requires Rebuilt(d, cur, cellOffset, usable, cells, i)
    ensures |cur| == |d| && usable <= |d|
  {
  }

  /** memmove on a page. */
  ghost predicate Moved(d: seq<byte>, d': seq<byte>, to: nat, from: nat, n: nat)
    requires to + n <= |d| && from + n <= |d|
  {
    && |d'| == |d|
    && forall x {:trigger d'[x]} :: 0 <= x < |d| ==> d'[x] == if to <= x < to + n then d[from + x - to] else d[x]
  }

  /** The two moves together slide the cells over the free blocks. */
  lemma MovesSlide(d: seq<byte>, d1: seq<byte>, d2: seq<byte>, top: nat, fb: seq<Span>)
    requires 1 <= |fb| <= 2 && top < fb[0].off && fb[|fb| - 1].End() <= |d|
    requires |fb| == 1 ==> d1 == d
    requires |fb| == 2 ==>
      fb[0].End() <= fb[1].off && Moved(d, d1, fb[0].End() + fb[1].size, fb[0].End(), fb[1].off - fb[0].End())
    requires Moved(d1, d2, top + fb[0].size + SizeOf(fb, 1), top, fb[0].off - top)
    ensures SlidBytes(d, d2, top, fb) && forall x :: 0 <= x < top ==> d2[x] == d[x]
  {
    var both := fb[0].size + SizeOf(fb, 1);
    forall x | top <= x < fb[0].off ensures d2[x + both] == d[x] {
      assert d2[x + both] == d1[top + (x + both) - (top + both)];
    }
    if |fb| == 2 {
      forall x | fb[0].End() <= x < fb[1].off ensures d2[x + fb[1].size] == d[x] {
        assert d1[x + fb[1].size] == d[x];
      }
    }
  }
}
