/**
  The free list of a page and freeSpace, which returns a run of bytes to it.
 */
module PageFreeSpace {
  import opened Basics
  import opened PageSpace

  /** Where the pointer to the k-th free block is stored. */
  function PtrAddr(hdr: nat, fb: seq<Span>, k: nat): nat
    requires k <= |fb|
  {
    if k == 0 then hdr + 1 else fb[k - 1].off
  }

  function OffsetOf(fb: seq<Span>, k: nat): nat { if k < |fb| then fb[k].off else 0 }

  /** The pointers and sizes stored in the page spell out the list fb. */
  ghost predicate Linked(d: seq<byte>, hdr: nat, fb: seq<Span>) {
    && (forall k {:trigger PtrAddr(hdr, fb, k)} :: 0 <= k <= |fb| ==>
         PtrAddr(hdr, fb, k) + 1 < |d| && Get2(d, PtrAddr(hdr, fb, k)) == OffsetOf(fb, k))
    && (forall k :: 0 <= k < |fb| ==> fb[k].off + 3 < |d| && Get2(d, fb[k].off + 2) == fb[k].size)
  }

  /** Free blocks in order, of at least 4 bytes, with gaps over 3 bytes, and none at lo itself. */
  ghost predicate Sorted(fb: seq<Span>, lo: nat, hi: nat) {
    && (forall k :: 0 <= k < |fb| ==> lo < fb[k].off && fb[k].size >= 4 && fb[k].End() <= hi)
    && (forall i, j :: 0 <= i < j < |fb| ==> fb[i].End() + 3 < fb[j].off)
  }

  ghost predicate ClearOf(fb: seq<Span>, used: seq<Span>) {
    forall i, j :: 0 <= i < |fb| && 0 <= j < |used| ==> Apart(fb[i], used[j])
  }

  ghost predicate Used(used: seq<Span>, lo: nat, hi: nat) {
    && AllApart(used) && Within(used, lo, hi)
    && forall i :: 0 <= i < |used| ==> used[i].size >= 4
  }

  /** The content area [top, usable) consists of spans in use, free blocks and frag fragment bytes. */
  ghost predicate Tiled(top: nat, usable: nat, frag: nat, fb: seq<Span>, used: seq<Span>) {
    && top <= usable
    && Sorted(fb, top, usable) && Used(used, top, usable) && ClearOf(fb, used)
    && frag + Total(fb) + Total(used) == usable - top
  }

  function Top(d: seq<byte>, hdr: nat): nat
    requires hdr + 6 < |d|
  {
    var t := Get2(d, hdr + 5);
    if t == 0 then 65536 else t
  }

  /** A well-formed page whose cell pointer array ends at first. */
  ghost predicate Tidy(d: seq<byte>, hdr: nat, first: nat, usable: nat, fb: seq<Span>, used: seq<Span>) {
    && hdr + 8 <= first <= usable <= |d| && usable <= 65536
    && first <= Top(d, hdr) && d[hdr + 7] as int <= 60
    && Linked(d, hdr, fb)
    && Tiled(Top(d, hdr), usable, d[hdr + 7] as nat, fb, used)
  }

  /** Position in the list of the first free block to the right of offset x. */
  ghost predicate At(fb: seq<Span>, k: nat, x: nat) {
    && k <= |fb|
    && (forall i :: 0 <= i < k ==> fb[i].off < x)
    && (forall i :: k <= i < |fb| ==> x < fb[i].off)
  }

  predicate JoinsRight(fb: seq<Span>, s: Span, k: nat) { k < |fb| && s.End() + 3 >= fb[k].off }

  predicate JoinsLeft(fb: seq<Span>, s: Span, k: nat)
    requires k <= |fb|
  {
    k > 0 && fb[k - 1].End() + 3 >= s.off
  }

  /** The free block that freeing s makes, neighbours and the fragments between them included. */
  function Joined(fb: seq<Span>, s: Span, k: nat): (m: Span)
    requires k <= |fb| && (k < |fb| ==> s.off < fb[k].off) && (k > 0 ==> fb[k - 1].off < s.off)
  {
    var off := if JoinsLeft(fb, s, k) then fb[k - 1].off else s.off;
    var end := if JoinsRight(fb, s, k) then fb[k].End() else s.End();
    Span(off, end - off)
  }

  /** The list of the other free blocks is split here. */
  function Lower(fb: seq<Span>, s: Span, k: nat): nat
    requires k <= |fb|
  {
    if JoinsLeft(fb, s, k) then k - 1 else k
  }

  function Upper(fb: seq<Span>, s: Span, k: nat): nat
    requires k <= |fb|
  {
    if JoinsRight(fb, s, k) then k + 1 else k
  }

  /** Fragment bytes that become part of the new free block. */
  function FragJoined(fb: seq<Span>, s: Span, k: nat): int
    requires k <= |fb|
  {
    (if JoinsRight(fb, s, k) then fb[k].off - s.End() else 0) +
    (if JoinsLeft(fb, s, k) then s.off - fb[k - 1].End() else 0)
  }

  lemma ApartEitherWay(s: seq<Span>, i: nat, j: nat)
    requires AllApart(s) && i < |s| && j < |s| && i != j
    ensures Apart(s[i], s[j])
  {
    assert if i < j then Apart(s[i], s[j]) else Apart(s[j], s[i]);
  }

  /** Fewer than 4 bytes between two spans are no room for a third. */
  lemma NoRoomBetween(u: Span, a: Span, b: Span)
    requires u.size >= 4 && a.size >= 4 && b.size >= 4
    requires Apart(u, a) && Apart(u, b) && a.End() <= b.off <= a.End() + 3
    ensures Apart(u, Span(a.End(), b.off - a.End()))
  {
  }

  /** Fragment bytes between s and the free block to its right, if that is close enough to join. */
  function GapRight(fb: seq<Span>, s: Span, k: nat): Span
  {
    if JoinsRight(fb, s, k) && s.End() <= fb[k].off then Span(s.End(), fb[k].off - s.End()) else Span(s.End(), 0)
  }

  function GapLeft(fb: seq<Span>, s: Span, k: nat): Span
    requires k <= |fb|
  {
    if JoinsLeft(fb, s, k) && fb[k - 1].End() <= s.off then Span(fb[k - 1].End(), s.off - fb[k - 1].End())
    else Span(s.off, 0)
  }

  lemma UsedClearOfGaps(top: nat, usable: nat, frag: nat, fb: seq<Span>, used: seq<Span>, j: nat, k: nat, a: nat)
    requires Tiled(top, usable, frag, fb, used) && j < |used| && At(fb, k, used[j].off) && a < |used|
    ensures Apart(used[a], GapLeft(fb, used[j], k)) && Apart(used[a], GapRight(fb, used[j], k))
  {
    if a != j {
      ApartEitherWay(used, a, j);
      if k < |fb| {
        assert Apart(fb[k], used[a]) && Apart(fb[k], used[j]);
        if JoinsRight(fb, used[j], k) { NoRoomBetween(used[a], used[j], fb[k]); }
      }
      if k > 0 {
        assert Apart(fb[k - 1], used[a]) && Apart(fb[k - 1], used[j]);
        if JoinsLeft(fb, used[j], k) { NoRoomBetween(used[a], fb[k - 1], used[j]); }
      }
    }
  }

  lemma FreeClearOfGaps(top: nat, usable: nat, frag: nat, fb: seq<Span>, used: seq<Span>, j: nat, k: nat, a: nat)
    requires Tiled(top, usable, frag, fb, used) && j < |used| && At(fb, k, used[j].off) && a < |fb|
    ensures Apart(fb[a], GapLeft(fb, used[j], k)) && Apart(fb[a], GapRight(fb, used[j], k))
  {
    assert Apart(fb[a], used[j]);
    if k > 0 && a < k - 1 { assert fb[a].End() + 3 < fb[k - 1].off; }
    if k < a { assert fb[k].End() + 3 < fb[a].off; }
  }

  lemma FourListsApart(fb: seq<Span>, used: seq<Span>, left: Span, right: Span)
    requires AllApart(fb) && AllApart(used) && ClearOf(fb, used) && Apart(left, right)
    requires forall a :: 0 <= a < |used| ==> Apart(used[a], left) && Apart(used[a], right)
    requires forall a :: 0 <= a < |fb| ==> Apart(fb[a], left) && Apart(fb[a], right)
    ensures AllApart(used + fb + [left, right])
  {
    forall a, b | 0 <= a < |used| && 0 <= b < |fb| ensures Apart(used[a], fb[b]) {
      assert Apart(fb[b], used[a]);
    }
  }

  /** The bytes between a freed span and a free block within 3 bytes of it are fragments, so the
      count of fragments covers them. */
  lemma FragmentsCounted(top: nat, usable: nat, frag: nat, fb: seq<Span>, used: seq<Span>, j: nat, k: nat)
    requires Tiled(top, usable, frag, fb, used) && j < |used| && At(fb, k, used[j].off)
    ensures 0 <= FragJoined(fb, used[j], k) <= frag
    ensures JoinsRight(fb, used[j], k) ==> used[j].End() <= fb[k].off
    ensures JoinsLeft(fb, used[j], k) ==> fb[k - 1].End() <= used[j].off
  {
    var s := used[j];
    assert k < |fb| ==> Apart(fb[k], s);
    assert k > 0 ==> Apart(fb[k - 1], s);
    var left, right := GapLeft(fb, s, k), GapRight(fb, s, k);
    forall a | 0 <= a < |used| ensures Apart(used[a], left) && Apart(used[a], right) {
      UsedClearOfGaps(top, usable, frag, fb, used, j, k, a);
    }
    forall a | 0 <= a < |fb| ensures Apart(fb[a], left) && Apart(fb[a], right) {
      FreeClearOfGaps(top, usable, frag, fb, used, j, k, a);
    }
    FourListsApart(fb, used, left, right);
    var all := used + fb + [left, right];
    Capacity(all, top, usable);
    TotalAppend(used + fb, [left, right]);
    TotalAppend(used, fb);
    TotalAppend([left], [right]);
    assert [left, right] == [left] + [right];
    TotalSingle(left);
    TotalSingle(right);
  }

  lemma UsedClearOfJoined(top: nat, usable: nat, frag: nat, fb: seq<Span>, used: seq<Span>, j: nat, k: nat, a: nat)
    requires Tiled(top, usable, frag, fb, used) && j < |used| && At(fb, k, used[j].off) && a < |used| && a != j
    ensures Apart(used[a], Joined(fb, used[j], k))
  {
    var s := used[j];
    UsedClearOfGaps(top, usable, frag, fb, used, j, k, a);
    ApartEitherWay(used, a, j);
    if k < |fb| { assert Apart(fb[k], used[a]) && Apart(fb[k], s); }
    if k > 0 { assert Apart(fb[k - 1], used[a]) && Apart(fb[k - 1], s); }
  }

  lemma TotalFew(fb: seq<Span>, lo: nat, up: nat)
    requires lo <= up <= |fb| && up <= lo + 2
    ensures Total(fb[lo..up]) == (if lo < up then fb[lo].size else 0) + (if lo + 1 < up then fb[lo + 1].size else 0)
  {
    if lo + 1 == up {
      assert fb[lo..up] == [fb[lo]];
      TotalSingle(fb[lo]);
    } else if lo + 2 == up {
      assert fb[lo..up] == [fb[lo]] + [fb[lo + 1]];
      TotalAppend([fb[lo]], [fb[lo + 1]]);
      TotalSingle(fb[lo]);
      TotalSingle(fb[lo + 1]);
    }
  }

  /** The new free block keeps its distance from the blocks that stay. */
  lemma JoinedInOrder(top: nat, usable: nat, frag: nat, fb: seq<Span>, used: seq<Span>, j: nat, k: nat)
    requires Tiled(top, usable, frag, fb, used) && j < |used| && At(fb, k, used[j].off)
    ensures var s := used[j]; var m := Joined(fb, s, k);
      && Lower(fb, s, k) <= Upper(fb, s, k) <= |fb|
      && top <= m.off <= s.off && s.End() <= m.End() <= usable && m.size >= 4
      && m.size == s.size + FragJoined(fb, s, k) + Total(fb[Lower(fb, s, k)..Upper(fb, s, k)])
      && (forall i :: 0 <= i < Lower(fb, s, k) ==> fb[i].End() + 3 < m.off)
      && (forall i :: Upper(fb, s, k) <= i < |fb| ==> m.End() + 3 < fb[i].off)
      && (m.off == top ==> s.off == top && k == 0 && Lower(fb, s, k) == 0)
  {
    var s := used[j];
    FragmentsCounted(top, usable, frag, fb, used, j, k);
    var lo, up := Lower(fb, s, k), Upper(fb, s, k);
    hide Total, Used, ClearOf;
    TotalFew(fb, lo, up);
    if k > 0 { assert top < fb[k - 1].off; }
  }

  /** The list of free blocks after s has been freed. */
  function FreedList(fb: seq<Span>, s: Span, k: nat, asBlock: bool): seq<Span>
    requires k <= |fb| && (k < |fb| ==> s.off < fb[k].off) && (k > 0 ==> fb[k - 1].off < s.off)
  {
    fb[..Lower(fb, s, k)] + (if asBlock then [Joined(fb, s, k)] else []) + fb[Upper(fb, s, k)..]
  }

  lemma FreedTotals(fb: seq<Span>, s: Span, k: nat, asBlock: bool)
    requires k <= |fb| && (k < |fb| ==> s.off < fb[k].off) && (k > 0 ==> fb[k - 1].off < s.off)
    ensures Total(FreedList(fb, s, k, asBlock)) + Total(fb[Lower(fb, s, k)..Upper(fb, s, k)]) ==
      Total(fb) + (if asBlock then Joined(fb, s, k).size else 0)
  {
    hide Total, Joined;
    var lo, up := Lower(fb, s, k), Upper(fb, s, k);
    TotalWithout(fb, lo, up);
    TotalAppend(fb[..lo], fb[up..]);
    if asBlock {
      TotalAppend(fb[..lo] + [Joined(fb, s, k)], fb[up..]);
      TotalAppend(fb[..lo], [Joined(fb, s, k)]);
      TotalSingle(Joined(fb, s, k));
    } else {
      assert fb[..lo] + [] + fb[up..] == fb[..lo] + fb[up..];
    }
  }

  lemma UsedWithout(used: seq<Span>, j: nat, lo: nat, lo': nat, hi: nat)
    requires Used(used, lo, hi) && j < |used|
    requires forall a :: 0 <= a < |used| && a != j ==> lo' <= used[a].off
    ensures Used(Without(used, j, j + 1), lo', hi)
    ensures Total(Without(used, j, j + 1)) == Total(used) - used[j].size
  {
    TotalAfterFree(used, j);
  }

  /** Where the content area starts after s has been freed. */
  function TopAfter(top: nat, m: Span): nat { if m.off != top then top else m.End() }

  lemma FreedUsed(top: nat, usable: nat, frag: nat, fb: seq<Span>, used: seq<Span>, j: nat, k: nat)
    requires Tiled(top, usable, frag, fb, used) && j < |used| && At(fb, k, used[j].off)
    ensures Used(Without(used, j, j + 1), TopAfter(top, Joined(fb, used[j], k)), usable)
    ensures ClearOf(FreedList(fb, used[j], k, Joined(fb, used[j], k).off != top), Without(used, j, j + 1))
  {
    var m := Joined(fb, used[j], k);
    forall a | 0 <= a < |used| && a != j ensures Apart(used[a], m) {
      UsedClearOfJoined(top, usable, frag, fb, used, j, k, a);
    }
    FreedClear(fb, used, j, k, m.off != top);
    UsedWithout(used, j, top, TopAfter(top, m), usable);
  }

  lemma FreedSorted(top: nat, usable: nat, frag: nat, fb: seq<Span>, used: seq<Span>, j: nat, k: nat)
    requires Tiled(top, usable, frag, fb, used) && j < |used| && At(fb, k, used[j].off)
    ensures var m := Joined(fb, used[j], k); Sorted(FreedList(fb, used[j], k, m.off != top), TopAfter(top, m), usable)
  {
    hide Used, ClearOf, Total, JoinsLeft, JoinsRight, Joined;
    var s, m := used[j], Joined(fb, used[j], k);
    JoinedInOrder(top, usable, frag, fb, used, j, k);
    var lo, up := Lower(fb, s, k), Upper(fb, s, k);
    if m.off != top {
      SortedWith(fb, lo, up, m, top, usable);
    } else {
      SortedFrom(fb, up, top, m.End(), usable);
      assert FreedList(fb, s, k, false) == fb[up..];
    }
  }

  /** Freeing a span leaves the content area tiled; a span at its start is given to the gap instead. */
  lemma FreedTiled(top: nat, usable: nat, frag: nat, fb: seq<Span>, used: seq<Span>, j: nat, k: nat)
    requires Tiled(top, usable, frag, fb, used) && j < |used| && At(fb, k, used[j].off)
    ensures var s := used[j]; var m := Joined(fb, s, k);
      && 0 <= FragJoined(fb, s, k) <= frag
      && Tiled(TopAfter(top, m), usable, frag - FragJoined(fb, s, k),
               FreedList(fb, s, k, m.off != top), Without(used, j, j + 1))
  {
    hide Used, ClearOf, Sorted, Total, JoinsLeft, JoinsRight, Joined, FragJoined, FreedList, Without;
    var s, m := used[j], Joined(fb, used[j], k);
    FragmentsCounted(top, usable, frag, fb, used, j, k);
    JoinedInOrder(top, usable, frag, fb, used, j, k);
    FreedTotals(fb, s, k, m.off != top);
    TotalAfterFree(used, j);
    FreedUsed(top, usable, frag, fb, used, j, k);
    FreedSorted(top, usable, frag, fb, used, j, k);
  }

  lemma SortedWith(fb: seq<Span>, lo: nat, up: nat, m: Span, top: nat, hi: nat)
    requires Sorted(fb, top, hi) && lo <= up <= |fb|
    requires top < m.off && m.End() <= hi && m.size >= 4
    requires forall i :: 0 <= i < lo ==> fb[i].End() + 3 < m.off
    requires forall i :: up <= i < |fb| ==> m.End() + 3 < fb[i].off
    ensures Sorted(fb[..lo] + [m] + fb[up..], top, hi)
  {
    var fb' := fb[..lo] + [m] + fb[up..];
    forall i, j | 0 <= i < j < |fb'| ensures fb'[i].End() + 3 < fb'[j].off {
      if i < lo && j > lo { assert fb[i].End() + 3 < m.off; }
    }
  }

  lemma SortedFrom(fb: seq<Span>, up: nat, top: nat, top': nat, hi: nat)
    requires Sorted(fb, top, hi) && up <= |fb|
    requires forall i :: up <= i < |fb| ==> top' < fb[i].off
    ensures Sorted(fb[up..], top', hi)
  {
    var fb' := fb[up..];
    forall i, j | 0 <= i < j < |fb'| ensures fb'[i].End() + 3 < fb'[j].off {
      assert fb[up + i].End() + 3 < fb[up + j].off;
    }
  }

  lemma FreedClear(fb: seq<Span>, used: seq<Span>, j: nat, k: nat, asBlock: bool)
    requires ClearOf(fb, used) && j < |used| && At(fb, k, used[j].off)
    requires forall a :: 0 <= a < |used| && a != j ==> Apart(used[a], Joined(fb, used[j], k))
    ensures ClearOf(FreedList(fb, used[j], k, asBlock), Without(used, j, j + 1))
  {
    var fb', used' := FreedList(fb, used[j], k, asBlock), Without(used, j, j + 1);
    forall i, b | 0 <= i < |fb'| && 0 <= b < |used'| ensures Apart(fb'[i], used'[b]) {
      var a := if b < j then b else b + 1;
      assert used'[b] == used[a];
      var lo, up := Lower(fb, used[j], k), Upper(fb, used[j], k);
      if i < lo {
        assert fb'[i] == fb[i];
      } else if asBlock && i == lo {
        assert fb'[i] == Joined(fb, used[j], k);
      } else {
        assert fb'[i] == fb[i - lo - (if asBlock then 1 else 0) + up];
      }
    }
  }

  /** Byte x of the page does not change when block m is linked in after the first lo blocks. */
  predicate Elsewhere(hdr: nat, fb: seq<Span>, lo: nat, m: Span, x: nat)
    requires lo <= |fb|
  {
    !(PtrAddr(hdr, fb, lo) <= x < PtrAddr(hdr, fb, lo) + 2) && !Has(m, x) && x != hdr + 7
  }

  /** Writing one pointer and the header of the new block m splices m into the list. */
  lemma LinkedSplice(d: seq<byte>, d': seq<byte>, hdr: nat, top: nat, usable: nat, fb: seq<Span>, lo: nat, up: nat,
                     m: Span)
    requires Linked(d, hdr, fb) && hdr + 8 <= top <= usable <= |d| == |d'| && lo <= up <= |fb|
    requires Sorted(fb, top, usable) && Sorted(fb[..lo] + [m] + fb[up..], top, usable)
    requires m.size >= 4 && m.End() <= usable && PtrAddr(hdr, fb, lo) + 1 < |d|
    requires forall x :: 0 <= x < |d| && Elsewhere(hdr, fb, lo, m, x) ==> d'[x] == d[x]
    requires Get2(d', PtrAddr(hdr, fb, lo)) == m.off
    requires Get2(d', m.off) == OffsetOf(fb, up) && Get2(d', m.off + 2) == m.size
    ensures Linked(d', hdr, fb[..lo] + [m] + fb[up..])
  {
    var fb' := fb[..lo] + [m] + fb[up..];
    forall i | 0 <= i < |fb'| ensures fb'[i].off + 3 < |d'| && Get2(d', fb'[i].off + 2) == fb'[i].size {
      SplicedSize(d, d', hdr, top, usable, fb, lo, up, m, i);
    }
    forall k | 0 <= k <= |fb'|
      ensures PtrAddr(hdr, fb', k) + 1 < |d'| && Get2(d', PtrAddr(hdr, fb', k)) == OffsetOf(fb', k)
    {
      SplicedPointer(d, d', hdr, top, usable, fb, lo, up, m, k);
    }
  }

  lemma SplicedSize(d: seq<byte>, d': seq<byte>, hdr: nat, top: nat, usable: nat, fb: seq<Span>, lo: nat, up: nat,
                    m: Span, i: nat)
    requires Linked(d, hdr, fb) && hdr + 8 <= top <= usable <= |d| == |d'| && lo <= up <= |fb|
    requires Sorted(fb, top, usable) && Sorted(fb[..lo] + [m] + fb[up..], top, usable)
    requires m.size >= 4 && m.End() <= usable && PtrAddr(hdr, fb, lo) + 1 < |d|
    requires forall x :: 0 <= x < |d| && Elsewhere(hdr, fb, lo, m, x) ==> d'[x] == d[x]
    requires Get2(d', PtrAddr(hdr, fb, lo)) == m.off
    requires Get2(d', m.off) == OffsetOf(fb, up) && Get2(d', m.off + 2) == m.size
    requires i < |fb[..lo] + [m] + fb[up..]|
    ensures var b := (fb[..lo] + [m] + fb[up..])[i]; b.off + 3 < |d'| && Get2(d', b.off + 2) == b.size
  {
    var fb' := fb[..lo] + [m] + fb[up..];
    if i != lo {
      var o := if i < lo then i else i - lo - 1 + up;
      assert fb'[i] == fb[o] && fb'[lo] == m;
      assert if i < lo then fb'[i].End() + 3 < fb'[lo].off else fb'[lo].End() + 3 < fb'[i].off;
      if lo > 0 && i < lo - 1 { assert fb[i].End() + 3 < fb[lo - 1].off; }
      if lo > 0 && i > lo { assert fb[lo - 1].End() + 3 < fb[o].off; }
      SameNumber(d, d', hdr, fb, lo, m, fb[o].off + 2);
    }
  }

  lemma SplicedPointer(d: seq<byte>, d': seq<byte>, hdr: nat, top: nat, usable: nat, fb: seq<Span>, lo: nat, up: nat,
                       m: Span, k: nat)
    requires Linked(d, hdr, fb) && hdr + 8 <= top <= usable <= |d| == |d'| && lo <= up <= |fb|
    requires Sorted(fb, top, usable) && Sorted(fb[..lo] + [m] + fb[up..], top, usable)
    requires m.size >= 4 && m.End() <= usable && PtrAddr(hdr, fb, lo) + 1 < |d|
    requires forall x :: 0 <= x < |d| && Elsewhere(hdr, fb, lo, m, x) ==> d'[x] == d[x]
    requires Get2(d', PtrAddr(hdr, fb, lo)) == m.off
    requires Get2(d', m.off) == OffsetOf(fb, up) && Get2(d', m.off + 2) == m.size
    requires k <= |fb[..lo] + [m] + fb[up..]|
    ensures var fb' := fb[..lo] + [m] + fb[up..];
      PtrAddr(hdr, fb', k) + 1 < |d'| && Get2(d', PtrAddr(hdr, fb', k)) == OffsetOf(fb', k)
  {
    hide Get2;
    var fb' := fb[..lo] + [m] + fb[up..];
    assert fb'[lo] == m;
    if k < lo {
      assert PtrAddr(hdr, fb', k) == PtrAddr(hdr, fb, k);
      assert k > 0 ==> fb'[k - 1].End() + 3 < fb'[lo].off;
      assert k > 0 ==> fb'[k - 1].End() + 3 < fb'[lo - 1].off;
      SameNumber(d, d', hdr, fb, lo, m, PtrAddr(hdr, fb, k));
    } else if k == lo {
      assert PtrAddr(hdr, fb', k) == PtrAddr(hdr, fb, lo);
    } else if k > lo + 1 {
      var o := k - lo - 1 + up;
      assert PtrAddr(hdr, fb', k) == PtrAddr(hdr, fb, o) == fb[o - 1].off;
      assert fb'[lo].End() + 3 < fb'[k - 1].off;
      if lo > 0 { assert fb[lo - 1].End() + 3 < fb[o - 1].off; }
      SameNumber(d, d', hdr, fb, lo, m, fb[o - 1].off);
    }
  }

  lemma SameNumber(d: seq<byte>, d': seq<byte>, hdr: nat, fb: seq<Span>, lo: nat, m: Span, i: nat)
    requires |d| == |d'| && lo <= |fb| && i + 1 < |d|
    requires forall x :: 0 <= x < |d| && Elsewhere(hdr, fb, lo, m, x) ==> d'[x] == d[x]
    requires Elsewhere(hdr, fb, lo, m, i) && Elsewhere(hdr, fb, lo, m, i + 1)
    ensures Get2(d', i) == Get2(d, i)
  {
  }

  /** Writing the pointer in the page header drops the first up blocks from the list. */
  lemma LinkedFrom(d: seq<byte>, d': seq<byte>, hdr: nat, top: nat, usable: nat, fb: seq<Span>, up: nat)
    requires Linked(d, hdr, fb) && Sorted(fb, top, usable) && hdr + 8 <= top <= usable <= |d| == |d'| && up <= |fb|
    requires forall x, i :: 0 <= x < |d| && up <= i < |fb| && Has(fb[i], x) ==> d'[x] == d[x]
    requires Get2(d', hdr + 1) == OffsetOf(fb, up)
    ensures Linked(d', hdr, fb[up..])
  {
    var fb' := fb[up..];
    forall i | 0 <= i < |fb'|
      ensures fb'[i].off + 3 < |d'| && Get2(d', fb'[i].off + 2) == fb'[i].size
      ensures Get2(d', fb'[i].off) == OffsetOf(fb', i + 1)
    {
      assert fb'[i] == fb[up + i];
      assert PtrAddr(hdr, fb, up + i + 1) == fb[up + i].off;
      assert Has(fb[up + i], fb[up + i].off) && Has(fb[up + i], fb[up + i].off + 1);
      assert Has(fb[up + i], fb[up + i].off + 2) && Has(fb[up + i], fb[up + i].off + 3);
    }
    forall k | 0 <= k <= |fb'|
      ensures PtrAddr(hdr, fb', k) + 1 < |d'| && Get2(d', PtrAddr(hdr, fb', k)) == OffsetOf(fb', k)
    {
      if k > 0 { assert Get2(d', fb'[k - 1].off) == OffsetOf(fb', k - 1 + 1); }
    }
  }

  /** What freeSpace writes to the page when it frees s, which lies before the k-th free block. */
  ghost predicate FreedBytes(d: seq<byte>, d': seq<byte>, hdr: nat, usable: nat, fb: seq<Span>, s: Span, k: nat)
    requires hdr + 8 <= usable <= |d| && At(fb, k, s.off)
  {
    var m := Joined(fb, s, k);
    var lo, up := Lower(fb, s, k), Upper(fb, s, k);
    && |d'| == |d| && d'[hdr + 7] as int == d[hdr + 7] as int - FragJoined(fb, s, k)
    && if m.off != Top(d, hdr) then
         && PtrAddr(hdr, fb, lo) + 1 < |d| && m.off + 3 < |d|
         && Get2(d', PtrAddr(hdr, fb, lo)) == m.off
         && Get2(d', m.off) == OffsetOf(fb, up) && Get2(d', m.off + 2) == m.size
         && forall x :: 0 <= x < |d| && Elsewhere(hdr, fb, lo, m, x) ==> d'[x] == d[x]
       else
         && Get2(d', hdr + 1) == OffsetOf(fb, up) && Top(d', hdr) == m.End()
         && forall x :: 0 <= x < |d| && !(hdr + 1 <= x < hdr + 3) && !(hdr + 5 <= x < hdr + 8) ==> d'[x] == d[x]
  }

  /** After freeSpace the page is well-formed, with s free and everything else as it was. */
  lemma FreedTidy(d: seq<byte>, d': seq<byte>, hdr: nat, first: nat, usable: nat, fb: seq<Span>, used: seq<Span>,
                  j: nat, k: nat)
    requires Tidy(d, hdr, first, usable, fb, used) && j < |used| && At(fb, k, used[j].off)
    requires FreedBytes(d, d', hdr, usable, fb, used[j], k)
    ensures var asBlock := Joined(fb, used[j], k).off != Top(d, hdr);
      Tidy(d', hdr, first, usable, FreedList(fb, used[j], k, asBlock), Without(used, j, j + 1))
  {
    hide Used, ClearOf, Joined, FragJoined, Linked, Total, Without;
    var s, m, top := used[j], Joined(fb, used[j], k), Top(d, hdr);
    var lo, up := Lower(fb, s, k), Upper(fb, s, k);
    FreedTiled(top, usable, d[hdr + 7] as nat, fb, used, j, k);
    JoinedInOrder(top, usable, d[hdr + 7] as nat, fb, used, j, k);
    if m.off != top {
      assert Sorted(fb[..lo] + [m] + fb[up..], top, usable);
      LinkedSplice(d, d', hdr, top, usable, fb, lo, up, m);
      assert lo > 0 ==> top < fb[lo - 1].off;
      assert Elsewhere(hdr, fb, lo, m, hdr + 5) && Elsewhere(hdr, fb, lo, m, hdr + 6);
    } else {
      LinkedFrom(d, d', hdr, top, usable, fb, up);
      assert FreedList(fb, s, k, false) == fb[up..];
    }
  }

  /** The bytes of a span in use are neither header nor free block, so they may be overwritten. */
  lemma ClearedTidy(d: seq<byte>, d': seq<byte>, hdr: nat, first: nat, usable: nat, fb: seq<Span>, used: seq<Span>,
                    j: nat)
    requires Tidy(d, hdr, first, usable, fb, used) && j < |used| && |d'| == |d|
    requires forall x :: 0 <= x < |d| && !Has(used[j], x) ==> d'[x] == d[x]
    ensures Tidy(d', hdr, first, usable, fb, used)
  {
    forall k | 0 <= k <= |fb|
      ensures PtrAddr(hdr, fb, k) + 1 < |d| && Get2(d', PtrAddr(hdr, fb, k)) == OffsetOf(fb, k)
    {
      if k > 0 { assert Apart(fb[k - 1], used[j]); }
      assert Get2(d, PtrAddr(hdr, fb, k)) == OffsetOf(fb, k);
    }
    forall k | 0 <= k < |fb| ensures Get2(d', fb[k].off + 2) == fb[k].size {
      assert Apart(fb[k], used[j]);
    }
  }

  /** The pointer before the place of s is in the header or in the block before s, away from s and from
      the blocks after it. */
  lemma PlaceOfPointer(d: seq<byte>, hdr: nat, first: nat, usable: nat, fb: seq<Span>, used: seq<Span>, j: nat, k: nat)
    requires Tidy(d, hdr, first, usable, fb, used) && j < |used| && At(fb, k, used[j].off)
    ensures var s := used[j]; var lo := Lower(fb, s, k);
      && s.size >= 4 && PtrAddr(hdr, fb, k) + 1 < |d| && PtrAddr(hdr, fb, lo) + 1 < |d|
      && (k == 0 <==> PtrAddr(hdr, fb, k) == hdr + 1)
      && (lo < k ==> Get2(d, PtrAddr(hdr, fb, lo)) == fb[k - 1].off && PtrAddr(hdr, fb, lo) + 3 < fb[k - 1].off)
      && (lo == k ==> PtrAddr(hdr, fb, k) + 3 < s.off)
      && Joined(fb, s, k).off == (if lo < k then PtrAddr(hdr, fb, k) else s.off)
      && Upper(fb, s, k) <= |fb| && lo <= k
  {
    var s := used[j];
    assert Get2(d, PtrAddr(hdr, fb, Lower(fb, s, k))) == OffsetOf(fb, Lower(fb, s, k));
    if k > 0 { assert Apart(fb[k - 1], s); }
    if k > 1 { assert fb[k - 2].End() + 3 < fb[k - 1].off; }
  }

  /** The page after a free block header has been written at start and a pointer to it at iPtr. */
  function WithBlock(d: seq<byte>, iPtr: nat, start: nat, next: nat, size: nat): (d': seq<byte>)
    requires iPtr + 1 < |d| && start + 3 < |d|
    ensures |d'| == |d|
  {
    Put2(Put2(Put2(d, iPtr, start), start, next), start + 2, size)
  }

  lemma BlockWritten(d: seq<byte>, iPtr: nat, start: nat, next: nat, size: nat)
    requires iPtr + 1 < |d| && start + 3 < |d| && start < 65536 && next < 65536 && size < 65536
    requires iPtr == start || iPtr + 1 < start
    ensures var d' := WithBlock(d, iPtr, start, next, size);
      && Get2(d', start) == next && Get2(d', start + 2) == size
      && (iPtr + 1 < start ==> Get2(d', iPtr) == start)
      && forall x :: 0 <= x < |d| && !(iPtr <= x < iPtr + 2) && !(start <= x < start + 4) ==> d'[x] == d[x]
  {
    var d1 := Put2(d, iPtr, start);
    var d2 := Put2(d1, start, next);
    GetPut(d, iPtr, start, iPtr);
    GetPut(d1, start, next, iPtr);
    GetPut(d1, start, next, start);
    GetPut(d2, start + 2, size, start);
    GetPut(d2, start + 2, size, start + 2);
    GetPut(d2, start + 2, size, iPtr);
  }

  function WithTop(d: seq<byte>, hdr: nat, next: nat, top: nat): (d': seq<byte>)
    requires hdr + 8 <= |d|
    ensures |d'| == |d|
  {
    Put2(Put2(d, hdr + 1, next), hdr + 5, top)
  }

  lemma TopWritten(d: seq<byte>, hdr: nat, next: nat, top: nat)
    requires hdr + 8 <= |d| && next < 65536 && 0 < top <= 65536
    ensures var d' := WithTop(d, hdr, next, top);
      && Get2(d', hdr + 1) == next && Top(d', hdr) == top
      && forall x :: 0 <= x < |d| && !(hdr + 1 <= x < hdr + 3) && !(hdr + 5 <= x < hdr + 7) ==> d'[x] == d[x]
  {
    var d1 := Put2(d, hdr + 1, next);
    GetPut(d, hdr + 1, next, hdr + 1);
    GetPut(d1, hdr + 5, top, hdr + 5);
    GetPut(d1, hdr + 5, top, hdr + 1);
  }

  /** The bytes freeSpace leaves alone: all but part of the header, the free blocks and the span freed. */
  ghost predicate Kept(hdr: nat, fb: seq<Span>, s: Span, x: int) {
    && !(hdr + 1 <= x < hdr + 3) && !(hdr + 5 <= x < hdr + 8)
    && !Has(s, x) && forall i :: 0 <= i < |fb| ==> !Has(fb[i], x)
  }

  lemma LinkedInAsBlock(
      d: seq<byte>, d': seq<byte>, hdr: nat, first: nat, usable: nat, fb: seq<Span>, used: seq<Span>, j: nat, k: nat)
    requires Tidy(d, hdr, first, usable, fb, used) && j < |used| && At(fb, k, used[j].off) && |d'| == |d|
    requires var s := used[j]; var m := Joined(fb, s, k); m.off != Top(d, hdr)
    requires var s := used[j]; var m := Joined(fb, s, k);
      && 0 <= FragJoined(fb, s, k) <= d[hdr + 7] as int && PtrAddr(hdr, fb, k) + 1 < |d| && m.off + 3 < |d|
      && d' == WithBlock(d[hdr + 7 := d[hdr + 7] - FragJoined(fb, s, k)],
                         PtrAddr(hdr, fb, k), m.off, OffsetOf(fb, Upper(fb, s, k)), m.size)
    ensures FreedBytes(d, d', hdr, usable, fb, used[j], k)
  {
    hide Linked, Used, ClearOf, Total, FragJoined, WithBlock, Get2, Kept, Joined, Lower, Upper;
    var s, m := used[j], Joined(fb, used[j], k);
    JoinedInOrder(Top(d, hdr), usable, d[hdr + 7] as nat, fb, used, j, k);
    PlaceOfPointer(d, hdr, first, usable, fb, used, j, k);
    var d1 := d[hdr + 7 := d[hdr + 7] - FragJoined(fb, s, k)];
    BlockWritten(d1, PtrAddr(hdr, fb, k), m.off, OffsetOf(fb, Upper(fb, s, k)), m.size);
    GetSame(d, d', PtrAddr(hdr, fb, Lower(fb, s, k)));
  }

  lemma BlockKeepsRest(
      d: seq<byte>, d': seq<byte>, hdr: nat, first: nat, usable: nat, fb: seq<Span>, used: seq<Span>, j: nat, k: nat)
    requires Tidy(d, hdr, first, usable, fb, used) && j < |used| && At(fb, k, used[j].off) && |d'| == |d|
    requires var s := used[j]; var m := Joined(fb, s, k); m.off != Top(d, hdr)
    requires var s := used[j]; var m := Joined(fb, s, k);
      && 0 <= FragJoined(fb, s, k) <= d[hdr + 7] as int && PtrAddr(hdr, fb, k) + 1 < |d| && m.off + 3 < |d|
      && d' == WithBlock(d[hdr + 7 := d[hdr + 7] - FragJoined(fb, s, k)],
                         PtrAddr(hdr, fb, k), m.off, OffsetOf(fb, Upper(fb, s, k)), m.size)
    ensures forall x :: 0 <= x < |d| && Kept(hdr, fb, used[j], x) ==> d'[x] == d[x]
  {
    hide Linked, Used, ClearOf, Total, FragJoined, WithBlock, Get2, Kept, Joined, Lower, Upper;
    var s, m := used[j], Joined(fb, used[j], k);
    JoinedInOrder(Top(d, hdr), usable, d[hdr + 7] as nat, fb, used, j, k);
    PlaceOfPointer(d, hdr, first, usable, fb, used, j, k);
    var d1 := d[hdr + 7 := d[hdr + 7] - FragJoined(fb, s, k)];
    BlockWritten(d1, PtrAddr(hdr, fb, k), m.off, OffsetOf(fb, Upper(fb, s, k)), m.size);
    WrittenNotKept(hdr, Top(d, hdr), usable, fb, s, k);
  }

  /** Byte x is in the header of a free block. */
  predicate InHead(fb: seq<Span>, x: int) {
    exists i :: 0 <= i < |fb| && fb[i].off <= x < fb[i].off + 4
  }

  /** The bytes given back change only where the free block begins that they are part of. */
  lemma BlockKeepsSpan(
      d: seq<byte>, d': seq<byte>, hdr: nat, first: nat, usable: nat, fb: seq<Span>, used: seq<Span>, j: nat, k: nat)
    requires Tidy(d, hdr, first, usable, fb, used) && j < |used| && At(fb, k, used[j].off) && |d'| == |d|
    requires var s := used[j]; var m := Joined(fb, s, k);
      && 0 <= FragJoined(fb, s, k) <= d[hdr + 7] as int && PtrAddr(hdr, fb, k) + 1 < |d| && m.off + 3 < |d|
      && d' == WithBlock(d[hdr + 7 := d[hdr + 7] - FragJoined(fb, s, k)],
                         PtrAddr(hdr, fb, k), m.off, OffsetOf(fb, Upper(fb, s, k)), m.size)
    ensures forall x :: 0 <= x < |d| && Has(used[j], x) && !InHeadOf(Joined(fb, used[j], k), x) ==> d'[x] == d[x]
  {
    hide Linked, Used, ClearOf, Total, FragJoined, WithBlock, Get2, Joined, Lower, Upper;
    var s, m := used[j], Joined(fb, used[j], k);
    JoinedInOrder(Top(d, hdr), usable, d[hdr + 7] as nat, fb, used, j, k);
    PlaceOfPointer(d, hdr, first, usable, fb, used, j, k);
    PointerBefore(d, hdr, first, usable, fb, used, j, k);
    BlockWritten(d[hdr + 7 := d[hdr + 7] - FragJoined(fb, s, k)], PtrAddr(hdr, fb, k), m.off,
                 OffsetOf(fb, Upper(fb, s, k)), m.size);
  }

  lemma GapKeepsSpan(
      d: seq<byte>, d1: seq<byte>, d2: seq<byte>, hdr: nat, first: nat, usable: nat, fb: seq<Span>, used: seq<Span>,
      j: nat, k: nat, v: byte, next: nat, end: nat)
    requires Tidy(d, hdr, first, usable, fb, used) && j < |used| && At(fb, k, used[j].off)
    requires d1 == d[hdr + 7 := v] && d2 == Put2(Put2(d1, hdr + 1, next), hdr + 5, end)
    ensures forall x :: 0 <= x < |d| && Has(used[j], x) ==> d2[x] == d[x]
  {
    PointerBefore(d, hdr, first, usable, fb, used, j, k);
    hide Tidy, At;
  }

  predicate InHeadOf(m: Span, x: int) {
    m.off <= x < m.off + 4
  }

  lemma JoinedInList(fb: seq<Span>, s: Span, k: nat, x: int)
    requires k <= |fb| && (k < |fb| ==> s.off < fb[k].off) && (k > 0 ==> fb[k - 1].off < s.off)
    ensures InHeadOf(Joined(fb, s, k), x) ==> InHead(FreedList(fb, s, k, true), x)
  {
    hide Joined;
    assert FreedList(fb, s, k, true)[Lower(fb, s, k)] == Joined(fb, s, k);
  }

  lemma PointerBefore(d: seq<byte>, hdr: nat, first: nat, usable: nat, fb: seq<Span>, used: seq<Span>, j: nat, k: nat)
    requires Tidy(d, hdr, first, usable, fb, used) && j < |used| && At(fb, k, used[j].off)
    ensures PtrAddr(hdr, fb, k) + 1 < used[j].off && hdr + 8 <= used[j].off
  {
    hide Total, Linked;
    if k > 0 { assert Apart(fb[k - 1], used[j]); }
  }

  lemma GetSame(d: seq<byte>, d': seq<byte>, i: nat)
    requires i + 1 < |d| == |d'|
    ensures d'[i] == d[i] && d'[i + 1] == d[i + 1] ==> Get2(d', i) == Get2(d, i)
  {
  }

  /** The places a new free block is written to belong to the span freed, to a free block, or to the header. */
  lemma WrittenNotKept(hdr: nat, top: nat, usable: nat, fb: seq<Span>, s: Span, k: nat)
    requires Sorted(fb, top, usable) && At(fb, k, s.off) && s.size >= 4
    ensures forall x :: Joined(fb, s, k).off <= x < Joined(fb, s, k).off + 4 ==> !Kept(hdr, fb, s, x)
    ensures forall x :: PtrAddr(hdr, fb, k) <= x < PtrAddr(hdr, fb, k) + 2 ==> !Kept(hdr, fb, s, x)
    ensures !Kept(hdr, fb, s, hdr + 7)
  {
    forall x | Joined(fb, s, k).off <= x < Joined(fb, s, k).off + 4 ensures !Kept(hdr, fb, s, x) {
      assert Has(s, x) || (k > 0 && Has(fb[k - 1], x));
    }
    if k > 0 {
      forall x | fb[k - 1].off <= x < fb[k - 1].off + 2 ensures !Kept(hdr, fb, s, x) { assert Has(fb[k - 1], x); }
    }
  }

  lemma LinkedInAsGap(
      d: seq<byte>, d': seq<byte>, hdr: nat, first: nat, usable: nat, fb: seq<Span>, used: seq<Span>, j: nat, k: nat)
    requires Tidy(d, hdr, first, usable, fb, used) && j < |used| && At(fb, k, used[j].off) && |d'| == |d|
    requires var s := used[j]; var m := Joined(fb, s, k);
      && m.off == Top(d, hdr) && 0 <= FragJoined(fb, s, k) <= d[hdr + 7] as int
      && d' == WithTop(d[hdr + 7 := d[hdr + 7] - FragJoined(fb, s, k)], hdr, OffsetOf(fb, Upper(fb, s, k)), m.End())
    ensures FreedBytes(d, d', hdr, usable, fb, used[j], k)
    ensures forall x :: 0 <= x < |d| && Kept(hdr, fb, used[j], x) ==> d'[x] == d[x]
  {
    hide Linked, Used, ClearOf, Total, FragJoined, WithTop;
    var s, m := used[j], Joined(fb, used[j], k);
    JoinedInOrder(Top(d, hdr), usable, d[hdr + 7] as nat, fb, used, j, k);
    TopWritten(d[hdr + 7 := d[hdr + 7] - FragJoined(fb, s, k)], hdr, OffsetOf(fb, Upper(fb, s, k)), m.End());
  }

  lemma ByteStays(d: seq<byte>, i: nat, v: nat, j: nat)
    requires i + 1 < |d| && j < |d| && j != i && j != i + 1
    ensures Put2(d, i, v)[j] == d[j]
  {
  }

  lemma TidyBounds(d: seq<byte>, hdr: nat, first: nat, usable: nat, fb: seq<Span>, used: seq<Span>)
    requires Tidy(d, hdr, first, usable, fb, used)
    ensures hdr + 8 <= first <= Top(d, hdr) <= usable <= |d| && usable <= 65536 && d[hdr + 7] as int <= 60
    ensures forall i :: 0 <= i < |used| ==> Top(d, hdr) <= used[i].off && used[i].End() <= usable
  {
  }

  /** The list is empty just when the pointer in the page header is 0. */
  lemma EmptyList(d: seq<byte>, hdr: nat, first: nat, usable: nat, fb: seq<Span>, used: seq<Span>, j: nat)
    requires Tidy(d, hdr, first, usable, fb, used) && j < |used| && d[hdr + 1] == 0 && d[hdr + 2] == 0
    ensures fb == [] && At(fb, 0, used[j].off) && Joined(fb, used[j], 0) == used[j] && FragJoined(fb, used[j], 0) == 0
  {
    assert PtrAddr(hdr, fb, 0) == hdr + 1;
  }

  lemma TotalAfterFree(used: seq<Span>, j: nat)
    requires j < |used|
    ensures Total(Without(used, j, j + 1)) == Total(used) - used[j].size
  {
    TotalWithout(used, j, j + 1);
    assert used[j..j + 1] == [used[j]];
    TotalSingle(used[j]);
  }

  /** The free bytes of a page: the gap, the free blocks and the fragments. */
  lemma FreeBytesAddUp(d: seq<byte>, hdr: nat, first: nat, usable: nat, fb: seq<Span>, used: seq<Span>)
    requires Tidy(d, hdr, first, usable, fb, used)
    ensures usable - first - Total(used) == (Top(d, hdr) - first) + Total(fb) + d[hdr + 7] as int
  {
  }

  /** The fragment count is the number of bytes of the content area in no span in use and in no free block. */
  lemma FragmentsAreTheRest(top: nat, usable: nat, frag: nat, fb: seq<Span>, used: seq<Span>)
    requires Tiled(top, usable, frag, fb, used)
    ensures |Range(top, usable) - BytesOf(used + fb)| == frag
  {
    var s := used + fb;
    forall i, j | 0 <= i < j < |s| ensures Apart(s[i], s[j]) {
      if i < |used| <= j { assert Apart(fb[j - |used|], used[i]); }
    }
    CountBytes(s);
    RangeSize(top, usable);
    TotalAppend(used, fb);
    forall x | x in BytesOf(s) ensures x in Range(top, usable) { InBytesOf(s, x); }
  }
}
