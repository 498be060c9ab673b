/**
  Taking a span out of the free list: what pageFindSlot does with a free block that is large enough.
 */
module PageFindSlot {
  import opened PageSpace
  import opened PageFreeSpace

  /** The list after nByte bytes have been taken from the end of block k.  A rest of less than 4 bytes
      is no block any more but a fragment. */
  function Taken(fb: seq<Span>, k: nat, nByte: nat): seq<Span>
    requires k < |fb| && nByte <= fb[k].size
  {
    var x := fb[k].size - nByte;
    if x < 4 then Without(fb, k, k + 1) else fb[k := Span(fb[k].off, x)]
  }

  function FragTaken(fb: seq<Span>, k: nat, nByte: nat): nat
    requires k < |fb| && nByte <= fb[k].size
  {
    if fb[k].size - nByte < 4 then fb[k].size - nByte else 0
  }

  lemma TakenTotal(fb: seq<Span>, k: nat, nByte: nat)
    requires k < |fb| && nByte <= fb[k].size
    ensures Total(Taken(fb, k, nByte)) + nByte + FragTaken(fb, k, nByte) == Total(fb)
  {
    hide Total;
    var x := fb[k].size - nByte;
    TotalAfterFree(fb, k);
    if x >= 4 {
      var fb' := fb[k := Span(fb[k].off, x)];
      TotalAfterFree(fb', k);
      assert Without(fb', k, k + 1) == Without(fb, k, k + 1);
    }
  }

  lemma TakenSorted(fb: seq<Span>, k: nat, nByte: nat, lo: nat, hi: nat)
    requires Sorted(fb, lo, hi) && k < |fb| && nByte <= fb[k].size
    ensures Sorted(Taken(fb, k, nByte), lo, hi)
  {
    var fb' := Taken(fb, k, nByte);
    if fb[k].size - nByte < 4 {
      forall i, j | 0 <= i < j < |fb'| ensures fb'[i].End() + 3 < fb'[j].off {
        var i', j' := if i < k then i else i + 1, if j < k then j else j + 1;
        assert fb'[i] == fb[i'] && fb'[j] == fb[j'];
      }
    }
  }

  /** A used span given out of a free block is apart from all others. */
  lemma TakenClear(fb: seq<Span>, used: seq<Span>, k: nat, nByte: nat, lo: nat, hi: nat)
    requires Sorted(fb, lo, hi) && Used(used, lo, hi) && ClearOf(fb, used)
    requires k < |fb| && 4 <= nByte <= fb[k].size
    ensures var s := Span(fb[k].End() - nByte, nByte);
      Used(used + [s], lo, hi) && ClearOf(Taken(fb, k, nByte), used + [s])
  {
    var s := Span(fb[k].End() - nByte, nByte);
    forall i | 0 <= i < |used| ensures Apart(used[i], s) && Apart(s, used[i]) { assert Apart(fb[k], used[i]); }
    var fb' := Taken(fb, k, nByte);
    forall i, j | 0 <= i < |fb'| && 0 <= j < |used + [s]| ensures Apart(fb'[i], (used + [s])[j]) {
      if fb[k].size - nByte < 4 {
        var i' := if i < k then i else i + 1;
        assert fb'[i] == fb[i'];
        assert if i' < k then fb[i'].End() + 3 < fb[k].off else fb[k].End() + 3 < fb[i'].off;
        if j < |used| { assert Apart(fb[i'], used[j]); }
      } else {
        if j < |used| { assert Apart(fb[i], used[j]); }
        if i < k { assert fb[i].End() + 3 < fb[k].off; }
        if k < i { assert fb[k].End() + 3 < fb[i].off; }
      }
    }
  }

  lemma TakenTiled(top: nat, usable: nat, frag: nat, fb: seq<Span>, used: seq<Span>, k: nat, nByte: nat)
    requires Tiled(top, usable, frag, fb, used) && k < |fb| && 4 <= nByte <= fb[k].size
    ensures Tiled(top, usable, frag + FragTaken(fb, k, nByte), Taken(fb, k, nByte),
                  used + [Span(fb[k].End() - nByte, nByte)])
  {
    hide Sorted, Used, ClearOf, Total, Taken, FragTaken;
    TakenTotal(fb, k, nByte);
    TakenSorted(fb, k, nByte, top, usable);
    TakenClear(fb, used, k, nByte, top, usable);
    TotalAppend(used, [Span(fb[k].End() - nByte, nByte)]);
    TotalSingle(Span(fb[k].End() - nByte, nByte));
  }

  /** The page bytes when block k leaves the list, or only shrinks. */
  function TakenBytes(d: seq<byte>, hdr: nat, fb: seq<Span>, k: nat, nByte: nat): (r: seq<byte>)
    requires k < |fb| && nByte <= fb[k].size
    requires PtrAddr(hdr, fb, k) + 1 < |d| && fb[k].off + 3 < |d| && hdr + 7 < |d|
    requires d[hdr + 7] as int + FragTaken(fb, k, nByte) < 256
    ensures |r| == |d|
  {
    var x := fb[k].size - nByte;
    if x < 4 then Put2(d, PtrAddr(hdr, fb, k), Get2(d, fb[k].off))[hdr + 7 := d[hdr + 7] + x]
    else Put2(d, fb[k].off + 2, x)
  }

  lemma TakenIs(d: seq<byte>, hdr: nat, fb: seq<Span>, k: nat, nByte: nat)
    requires k < |fb| && nByte <= fb[k].size
    requires PtrAddr(hdr, fb, k) + 1 < |d| && fb[k].off + 3 < |d| && hdr + 7 < |d|
    requires d[hdr + 7] as int + FragTaken(fb, k, nByte) < 256
    ensures var x := fb[k].size - nByte;
      TakenBytes(d, hdr, fb, k, nByte) ==
      if x < 4 then Put2(d, PtrAddr(hdr, fb, k), Get2(d, fb[k].off))[hdr + 7 := d[hdr + 7] + x]
      else Put2(d, fb[k].off + 2, x)
  {
  }

  lemma Headers(d: seq<byte>, hdr: nat, top: nat, usable: nat, fb: seq<Span>, k: nat)
    requires Linked(d, hdr, fb) && Sorted(fb, top, usable) && hdr + 8 <= top <= usable <= |d| && k < |fb|
    ensures PtrAddr(hdr, fb, k) + 1 < |d| && Get2(d, PtrAddr(hdr, fb, k)) == fb[k].off && fb[k].off + 3 < |d|
    ensures Get2(d, fb[k].off) == OffsetOf(fb, k + 1) && Get2(d, fb[k].off + 2) == fb[k].size
    ensures PtrAddr(hdr, fb, k) == hdr + 1 || PtrAddr(hdr, fb, k) >= hdr + 8
    ensures PtrAddr(hdr, fb, k) + 4 <= fb[k].off && hdr + 8 <= fb[k].off
  {
    assert PtrAddr(hdr, fb, k + 1) == fb[k].off;
    assert k > 0 ==> fb[k - 1].End() + 3 < fb[k].off;
  }

  /** Address a holds a 2-byte integer that is not written. */
  predicate Untouched(hdr: nat, fb: seq<Span>, k: nat, nByte: nat, a: nat)
    requires k < |fb| && nByte <= fb[k].size
  {
    if fb[k].size - nByte < 4 then
      (a + 1 < PtrAddr(hdr, fb, k) || PtrAddr(hdr, fb, k) + 1 < a) && (a + 1 < hdr + 7 || hdr + 7 < a)
    else
      a + 1 < fb[k].off + 2 || fb[k].off + 3 < a
  }

  lemma TakenReads(d: seq<byte>, hdr: nat, top: nat, usable: nat, fb: seq<Span>, k: nat, nByte: nat, a: nat)
    requires Linked(d, hdr, fb) && Sorted(fb, top, usable) && hdr + 8 <= top <= usable <= |d|
    requires k < |fb| && 0 < nByte <= fb[k].size && usable <= 65536 && a + 1 < |d|
    requires PtrAddr(hdr, fb, k) + 1 < |d| && fb[k].off + 3 < |d| && d[hdr + 7] as int + FragTaken(fb, k, nByte) < 256
    ensures Untouched(hdr, fb, k, nByte, a) ==> Get2(TakenBytes(d, hdr, fb, k, nByte), a) == Get2(d, a)
    ensures fb[k].size - nByte < 4 ==>
      Get2(TakenBytes(d, hdr, fb, k, nByte), PtrAddr(hdr, fb, k)) == OffsetOf(fb, k + 1)
    ensures fb[k].size - nByte >= 4 ==> Get2(TakenBytes(d, hdr, fb, k, nByte), fb[k].off + 2) == fb[k].size - nByte
  {
    hide Linked, Sorted;
    Headers(d, hdr, top, usable, fb, k);
  }

  /** Block i of the old list, with i != k, lies away from what is written. */
  lemma OthersUntouched(hdr: nat, top: nat, usable: nat, fb: seq<Span>, k: nat, nByte: nat, i: nat)
    requires Sorted(fb, top, usable) && hdr + 8 <= top && k < |fb| && nByte <= fb[k].size && i < |fb| && i != k
    ensures Untouched(hdr, fb, k, nByte, fb[i].off + 2)
    ensures i + 1 != k || fb[k].size - nByte >= 4 ==> Untouched(hdr, fb, k, nByte, fb[i].off)
  {
    assert if i < k then fb[i].End() + 3 < fb[k].off else fb[k].End() + 3 < fb[i].off;
    if k > 0 && i < k - 1 { assert fb[i].End() + 3 < fb[k - 1].off; }
    if i > k > 0 { assert fb[k - 1].End() + 3 < fb[i].off; }
  }

  lemma HeaderUntouched(hdr: nat, top: nat, usable: nat, fb: seq<Span>, k: nat, nByte: nat)
    requires Sorted(fb, top, usable) && hdr + 8 <= top && k < |fb| && nByte <= fb[k].size
    ensures k > 0 || fb[k].size - nByte >= 4 ==> Untouched(hdr, fb, k, nByte, hdr + 1)
    ensures fb[k].size - nByte >= 4 ==> Untouched(hdr, fb, k, nByte, fb[k].off)
    ensures Untouched(hdr, fb, k, nByte, hdr + 5)
  {
  }

  lemma TakenLinked(d: seq<byte>, hdr: nat, top: nat, usable: nat, fb: seq<Span>, k: nat, nByte: nat)
    requires Linked(d, hdr, fb) && Sorted(fb, top, usable) && hdr + 8 <= top <= usable <= |d|
    requires k < |fb| && 0 < nByte <= fb[k].size && usable <= 65536
    requires PtrAddr(hdr, fb, k) + 1 < |d| && fb[k].off + 3 < |d| && d[hdr + 7] as int + FragTaken(fb, k, nByte) < 256
    ensures Linked(TakenBytes(d, hdr, fb, k, nByte), hdr, Taken(fb, k, nByte))
  {
    hide TakenBytes, Get2, Taken, Sorted, OffsetOf;
    var d', fb' := TakenBytes(d, hdr, fb, k, nByte), Taken(fb, k, nByte);
    forall i | 0 <= i < |fb'| ensures fb'[i].off + 3 < |d'| && Get2(d', fb'[i].off + 2) == fb'[i].size {
      TakenSize(d, hdr, top, usable, fb, k, nByte, i);
    }
    forall i | 0 <= i <= |fb'|
      ensures PtrAddr(hdr, fb', i) + 1 < |d'| && Get2(d', PtrAddr(hdr, fb', i)) == OffsetOf(fb', i)
    {
      TakenPointer(d, hdr, top, usable, fb, k, nByte, i);
    }
  }

  lemma TakenSize(d: seq<byte>, hdr: nat, top: nat, usable: nat, fb: seq<Span>, k: nat, nByte: nat, i: nat)
    requires Linked(d, hdr, fb) && Sorted(fb, top, usable) && hdr + 8 <= top <= usable <= |d|
    requires k < |fb| && 0 < nByte <= fb[k].size && usable <= 65536
    requires PtrAddr(hdr, fb, k) + 1 < |d| && fb[k].off + 3 < |d| && d[hdr + 7] as int + FragTaken(fb, k, nByte) < 256
    requires i < |Taken(fb, k, nByte)|
    ensures var b := Taken(fb, k, nByte)[i];
      b.off + 3 < |d| && Get2(TakenBytes(d, hdr, fb, k, nByte), b.off + 2) == b.size
  {
    hide TakenBytes, Get2, Untouched, Linked;
    var o := if fb[k].size - nByte < 4 && k <= i then i + 1 else i;
    Headers(d, hdr, top, usable, fb, o);
    if o != k { OthersUntouched(hdr, top, usable, fb, k, nByte, o); }
    TakenReads(d, hdr, top, usable, fb, k, nByte, fb[o].off + 2);
  }

  lemma TakenPointer(d: seq<byte>, hdr: nat, top: nat, usable: nat, fb: seq<Span>, k: nat, nByte: nat, i: nat)
    requires Linked(d, hdr, fb) && Sorted(fb, top, usable) && hdr + 8 <= top <= usable <= |d|
    requires k < |fb| && 0 < nByte <= fb[k].size && usable <= 65536
    requires PtrAddr(hdr, fb, k) + 1 < |d| && fb[k].off + 3 < |d| && d[hdr + 7] as int + FragTaken(fb, k, nByte) < 256
    requires i <= |Taken(fb, k, nByte)|
    ensures var fb' := Taken(fb, k, nByte);
      && PtrAddr(hdr, fb', i) + 1 < |d|
      && Get2(TakenBytes(d, hdr, fb, k, nByte), PtrAddr(hdr, fb', i)) == OffsetOf(fb', i)
  {
    hide TakenBytes, Get2, Untouched, Sorted;
    var fb' := Taken(fb, k, nByte);
    var o := if fb[k].size - nByte < 4 && k < i then i + 1 else i;
    assert PtrAddr(hdr, fb', i) == PtrAddr(hdr, fb, o);
    assert Get2(d, PtrAddr(hdr, fb, o)) == OffsetOf(fb, o);
    if o > 0 && o - 1 != k { OthersUntouched(hdr, top, usable, fb, k, nByte, o - 1); }
    HeaderUntouched(hdr, top, usable, fb, k, nByte);
    TakenReads(d, hdr, top, usable, fb, k, nByte, PtrAddr(hdr, fb, o));
  }

  /** After a slot has been taken the page is well-formed, with one more span in use. */
  lemma TakenTidy(d: seq<byte>, hdr: nat, first: nat, usable: nat, fb: seq<Span>, used: seq<Span>, k: nat, nByte: nat)
    requires Tidy(d, hdr, first, usable, fb, used) && k < |fb| && 4 <= nByte <= fb[k].size
    requires d[hdr + 7] as int + FragTaken(fb, k, nByte) <= 60
    ensures PtrAddr(hdr, fb, k) + 1 < |d| && fb[k].off + 3 < |d|
    ensures Tidy(TakenBytes(d, hdr, fb, k, nByte), hdr, first, usable, Taken(fb, k, nByte),
                 used + [Span(fb[k].End() - nByte, nByte)])
    ensures Top(TakenBytes(d, hdr, fb, k, nByte), hdr) == Top(d, hdr)
  {
    hide Linked, Sorted, Used, ClearOf, Total, Taken, Untouched, Get2;
    var top := Top(d, hdr);
    Headers(d, hdr, top, usable, fb, k);
    TakenLinked(d, hdr, top, usable, fb, k, nByte);
    TakenTiled(top, usable, d[hdr + 7] as nat, fb, used, k, nByte);
    HeaderUntouched(hdr, top, usable, fb, k, nByte);
    TakenReads(d, hdr, top, usable, fb, k, nByte, hdr + 5);
  }

  /** Byte x belongs neither to the page header nor to a free block. */
  ghost predicate OutOfList(hdr: nat, fb: seq<Span>, x: int) {
    !(hdr + 1 <= x < hdr + 8) && forall i :: 0 <= i < |fb| ==> !Has(fb[i], x)
  }

  /** Only free blocks and the page header are written. */
  lemma TakenKeeps(d: seq<byte>, hdr: nat, first: nat, usable: nat, fb: seq<Span>, used: seq<Span>, k: nat, nByte: nat,
                   x: nat)
    requires Tidy(d, hdr, first, usable, fb, used) && k < |fb| && 4 <= nByte <= fb[k].size
    requires PtrAddr(hdr, fb, k) + 1 < |d| && fb[k].off + 3 < |d|
    requires d[hdr + 7] as int + FragTaken(fb, k, nByte) <= 60
    requires x < |d| && OutOfList(hdr, fb, x)
    ensures TakenBytes(d, hdr, fb, k, nByte)[x] == d[x]
  {
    hide Linked, Used, ClearOf, Total;
    assert !Has(fb[k], x);
    if k > 0 { assert !Has(fb[k - 1], x); }
  }

  /** What the bytes at free block k and the pointer to it say. */
  lemma TidyHeaders(d: seq<byte>, hdr: nat, first: nat, usable: nat, fb: seq<Span>, used: seq<Span>, k: nat)
    requires Tidy(d, hdr, first, usable, fb, used) && k < |fb|
    ensures PtrAddr(hdr, fb, k) + 1 < |d| && Get2(d, PtrAddr(hdr, fb, k)) == fb[k].off && fb[k].off + 3 < |d|
    ensures Get2(d, fb[k].off) == OffsetOf(fb, k + 1) && Get2(d, fb[k].off + 2) == fb[k].size
    ensures PtrAddr(hdr, fb, k) == hdr + 1 || PtrAddr(hdr, fb, k) >= hdr + 8
    ensures PtrAddr(hdr, fb, k) + 4 <= fb[k].off && first <= fb[k].off && fb[k].End() <= usable && fb[k].size >= 4
    ensures OffsetOf(fb, k + 1) == 0 <==> k + 1 == |fb|
  {
    Headers(d, hdr, Top(d, hdr), usable, fb, k);
  }
}
