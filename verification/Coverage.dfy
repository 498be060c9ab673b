/**
  The coverage check of a b-tree page: the spans of all cells and free blocks go into a min-heap, and come
  out in order.  No two may share a byte, none may start in front of the content area, and the bytes of
  the content area in no span are the fragments.
 */
module Coverage {

  import opened Basics
  import opened PageSpace
  import opened CoverageHeap

  /** A cell, or a free block, which may be empty. */
  predicate Fits(x: Span, usable: nat) {
    x.off < usable && 0 < x.End() <= usable <= 0x1_0000
  }

  /** The heap entry of a span: the first byte in the upper 16 bits, the last in the lower. */
  function Entry(x: Span): (e: nat) {
    x.off * 0x1_0000 + (x.End() - 1) % U32
  }

  function First(e: nat): nat {
    e / 0x1_0000
  }

  function Last(e: nat): nat {
    e % 0x1_0000
  }

  lemma EntryParts(x: Span, usable: nat)
    requires Fits(x, usable)
    ensures First(Entry(x)) == x.off && Last(Entry(x)) == x.End() - 1 && Entry(x) <= SENTINEL
  {
  }

  function Entries(xs: seq<Span>): multiset<nat> {
    if xs == [] then multiset{} else multiset{Entry(xs[0])} + Entries(xs[1..])
  }

  /**
    No byte has two uses: the spans share none with each other or with what is in front of the content area.  An
    empty block is apart from a span unless it lies inside of it.
   */
  ghost predicate Clean(xs: seq<Span>, content: nat) {
    AllApart(xs) && forall i :: 0 <= i < |xs| ==> content <= xs[i].off
  }

  /** The bytes of the content area that are in no span. */
  function Uncovered(xs: seq<Span>, content: nat, usable: nat): set<nat> {
    set b: nat | content <= b < usable && Bare(xs, b)
  }

  predicate Bare(xs: seq<Span>, b: nat) {
    forall i :: 0 <= i < |xs| ==> !Has(xs[i], b)
  }

  // ---- the same, of entries

  predicate EntriesApart(e: nat, f: nat) {
    Last(e) < First(f) || Last(f) < First(e)
  }

  predicate CleanEntries(m: multiset<nat>, content: nat) {
    && (forall e :: e in m ==> content <= First(e) && (m[e] == 1 || EntriesApart(e, e)))
    && (forall e, f :: e in m && f in m && e != f ==> EntriesApart(e, f))
  }

  function Gaps(m: multiset<nat>, lo: nat, hi: nat): set<nat> {
    set b: nat | lo <= b < hi && InNone(m, b)
  }

  predicate InNone(m: multiset<nat>, b: nat) {
    forall e :: e in m ==> !(First(e) <= b <= Last(e))
  }

  predicate AllFit(xs: seq<Span>, usable: nat) {
    forall i :: 0 <= i < |xs| ==> Fits(xs[i], usable)
  }

  lemma {:induction false} EntriesOf(xs: seq<Span>, e: nat)
    ensures e in Entries(xs) <==> exists i :: 0 <= i < |xs| && Entry(xs[i]) == e
  {
    if xs != [] {
      EntriesOf(xs[1..], e);
      if e in Entries(xs[1..]) {
        var i :| 0 <= i < |xs[1..]| && Entry(xs[1..][i]) == e;
        assert Entry(xs[i + 1]) == e;
      }
      if i :| 0 <= i < |xs| && Entry(xs[i]) == e {
        assert i > 0 ==> Entry(xs[1..][i - 1]) == e;
      }
    }
  }

  lemma {:induction false} EntriesCat(xs: seq<Span>, ys: seq<Span>)
    ensures Entries(xs + ys) == Entries(xs) + Entries(ys)
  {
    if xs == [] {
      assert xs + ys == ys;
    } else {
      assert (xs + ys)[1..] == xs[1..] + ys;
      EntriesCat(xs[1..], ys);
    }
  }

  lemma ApartIsApart(x: Span, y: Span, usable: nat)
    requires Fits(x, usable) && Fits(y, usable)
    ensures EntriesApart(Entry(x), Entry(y)) <==> Apart(x, y)
  {
    EntryParts(x, usable);
    EntryParts(y, usable);
  }

  lemma {:induction false} CleanIsCleanEntries(xs: seq<Span>, content: nat, usable: nat)
    requires AllFit(xs, usable)
    ensures Clean(xs, content) <==> CleanEntries(Entries(xs), content)
  {
    hide Clean, CleanEntries, EntriesApart, Apart, Entry, First;
    if xs == [] {
      CleanNone(content);
    } else {
      var x, ys := xs[0], xs[1..];
      assert xs == [x] + ys;
      CleanIsCleanEntries(ys, content, usable);
      EntryParts(x, usable);
      CleanCons(x, ys, content);
      CleanAdd(Entries(ys), Entry(x), content);
      ApartFromAll(x, ys, usable);
    }
  }

  lemma CleanNone(content: nat)
    ensures Clean([], content) && CleanEntries(multiset{}, content)
  {
  }

  lemma ApartFromAll(x: Span, ys: seq<Span>, usable: nat)
    requires Fits(x, usable) && AllFit(ys, usable)
    ensures (forall i :: 0 <= i < |ys| ==> Apart(x, ys[i])) <==>
      forall f :: f in Entries(ys) ==> EntriesApart(Entry(x), f)
  {
    hide Apart, EntriesApart, Entry;
    if forall i :: 0 <= i < |ys| ==> Apart(x, ys[i]) {
      forall f | f in Entries(ys) ensures EntriesApart(Entry(x), f) {
        EntriesOf(ys, f);
        var i :| 0 <= i < |ys| && Entry(ys[i]) == f;
        ApartIsApart(x, ys[i], usable);
      }
    }
    if forall f :: f in Entries(ys) ==> EntriesApart(Entry(x), f) {
      forall i | 0 <= i < |ys| ensures Apart(x, ys[i]) {
        EntriesOf(ys, Entry(ys[i]));
        ApartIsApart(x, ys[i], usable);
      }
    }
  }

  lemma CleanCons(x: Span, ys: seq<Span>, content: nat)
    ensures Clean([x] + ys, content) <==>
      Clean(ys, content) && content <= x.off && forall i :: 0 <= i < |ys| ==> Apart(x, ys[i])
  {
    hide Apart;
    var xs := [x] + ys;
    assert forall k :: 0 < k < |xs| ==> xs[k] == ys[k - 1];
    forall i | 0 <= i < |ys|
      ensures Clean(xs, content) ==> content <= ys[i].off && Apart(x, ys[i])
    {
      assert xs[0] == x && xs[i + 1] == ys[i];
    }
    forall i, j | 0 <= i < j < |ys| ensures Clean(xs, content) ==> Apart(ys[i], ys[j]) {
      assert xs[i + 1] == ys[i] && xs[j + 1] == ys[j];
    }
  }

  lemma CleanAdd(m: multiset<nat>, e: nat, content: nat)
    ensures CleanEntries(multiset{e} + m, content) <==>
      CleanEntries(m, content) && content <= First(e) && forall f :: f in m ==> EntriesApart(e, f)
  {
    var n := multiset{e} + m;
    assert forall f :: f in m ==> f in n;
    assert forall f :: f in n <==> f in m || f == e;
    assert forall f :: f in n ==> n[f] == m[f] + if f == e then 1 else 0;
  }

  // ---- counting gaps

  /** Behind the end of all entries, the next entry leaves the bytes up to it as a gap. */
  lemma GapsGrow(m: multiset<nat>, lo: nat, hi: nat, e: nat)
    requires lo <= hi <= First(e) <= Last(e) + 1 && forall f :: f in m ==> Last(f) < hi
    ensures |Gaps(m + multiset{e}, lo, Last(e) + 1)| == |Gaps(m, lo, hi)| + First(e) - hi
  {
    var n := m + multiset{e};
    assert forall f :: f in n <==> f in m || f == e;
    GapsSplit(m, lo, hi, First(e));
    forall b: nat | lo <= b < First(e) ensures InNone(n, b) <==> InNone(m, b) {
    }
    forall b: nat | First(e) <= b <= Last(e) ensures !InNone(n, b) {
      assert e in n;
    }
    assert Gaps(n, lo, Last(e) + 1) == Gaps(m, lo, First(e));
  }

  /** Behind the end of all entries everything is a gap. */
  lemma GapsSplit(m: multiset<nat>, lo: nat, hi: nat, end: nat)
    requires lo <= hi <= end && forall f :: f in m ==> Last(f) < hi
    ensures |Gaps(m, lo, end)| == |Gaps(m, lo, hi)| + end - hi
  {
    forall b: nat | hi <= b < end ensures InNone(m, b) {
    }
    assert Gaps(m, lo, end) == Gaps(m, lo, hi) + Range(hi, end);
    assert Gaps(m, lo, hi) !! Range(hi, end);
    RangeSize(hi, end);
  }

  lemma GapsAreUncovered(xs: seq<Span>, lo: nat, hi: nat, usable: nat)
    requires AllFit(xs, usable)
    ensures Gaps(Entries(xs), lo, hi) == Uncovered(xs, lo, hi)
  {
    forall b: nat ensures InNone(Entries(xs), b) <==> Bare(xs, b) {
      if InNone(Entries(xs), b) {
        forall i | 0 <= i < |xs| ensures !Has(xs[i], b) {
          EntriesOf(xs, Entry(xs[i]));
          EntryParts(xs[i], usable);
        }
      }
      if Bare(xs, b) {
        forall e | e in Entries(xs) ensures !(First(e) <= b <= Last(e)) {
          EntriesOf(xs, e);
          var i :| 0 <= i < |xs| && Entry(xs[i]) == e;
          EntryParts(xs[i], usable);
        }
      }
    }
  }

  // ---- the sweep

  /** What the sweep has done: entries q are out of the heap, they are clean, and end before byte end. */
  ghost predicate Swept(q: multiset<nat>, r: multiset<nat>, content: nat, end: nat, prev: nat) {
    && CleanEntries(q, content) && content <= end == Last(prev) + 1
    && (forall f :: f in q ==> Last(f) < end)
    && (prev in q || (q == multiset{} && end == content))
    && (prev in q ==> forall x :: x in r ==> prev <= x)
  }

  lemma SweepOn(q: multiset<nat>, r: multiset<nat>, content: nat, end: nat, prev: nat, x: nat)
    requires Swept(q, r, content, end, prev) && x in r && forall y :: y in r ==> x <= y
    requires end <= First(x) <= Last(x) + 1
    ensures Swept(q + multiset{x}, r - multiset{x}, content, Last(x) + 1, x)
  {
    CleanAdd(q, x, content);
    assert q + multiset{x} == multiset{x} + q;
  }

  lemma InOrder(e: nat, f: nat)
    requires e <= f
    ensures First(e) < First(f) || (First(e) == First(f) && Last(e) <= Last(f))
  {
  }

  /** The next entry starts before the end of what was swept: some byte has two uses, its first one for instance. */
  lemma SweepStops(q: multiset<nat>, r: multiset<nat>, content: nat, end: nat, prev: nat, x: nat)
    requires Swept(q, r, content, end, prev) && x in r && First(x) < end && First(x) <= Last(x) + 1
    ensures !CleanEntries(q + r, content)
    ensures UsedTwice(q + r, content, First(x))
  {
    var m := q + r;
    assert x in m && (prev in q ==> prev in m - multiset{x});
    if prev in q {
      assert prev <= x && prev in m;
      InOrder(prev, x);
      assert prev == x ==> m[x] >= 2;
    }
  }

  /** Byte b is the first of an entry, and lies in front of the content area or in another entry. */
  ghost predicate UsedTwice(m: multiset<nat>, content: nat, b: int) {
    exists x :: x in m && First(x) == b && (b < content || exists y :: y in m - multiset{x} && First(y) <= b <= Last(y))
  }

  /**
    Pull all entries out of the heap and look for overlaps and gaps.  multi is the byte that is reported as
    having multiple uses, if any.
   */
  method Sweep(heap: array<nat>, content: nat, usable: nat) returns (multi: int, nFrag: nat)
    requires IsHeap(heap[..]) && 1 <= content <= usable <= 0x1_0000
    requires forall e :: e in Items(heap[..], heap[0]) ==> First(e) <= Last(e) + 1 <= usable
    modifies heap
    ensures multi == -1 <==> CleanEntries(Items(old(heap[..]), old(heap[0])), content)
    ensures multi == -1 ==> heap[0] == 0 && nFrag == |Gaps(Items(old(heap[..]), old(heap[0])), content, usable)|
    ensures multi != -1 ==> UsedTwice(Items(old(heap[..]), old(heap[0])), content, multi)
  {
    hide Ordered, Items, Swept, Gaps, CleanEntries, First, Last;
    ghost var all := Items(heap[..], heap[0]);
    ghost var q, end: nat := multiset{}, content;
    nFrag := 0;
    var pv: nat := content - 1;
    multi := -1;
    SweepStart(all, content);
    while true
      invariant IsHeap(heap[..]) && q + Items(heap[..], heap[0]) == all && content <= end <= usable
      invariant Swept(q, Items(heap[..], heap[0]), content, end, pv) && end == Last(pv) + 1
      invariant nFrag == |Gaps(q, content, end)| && multi == -1
      decreases heap[0]
    {
      ghost var r := Items(heap[..], heap[0]);
      var ok, x := Pull(heap);
      if !ok {
        NoItems(heap[..]);
        assert q == all;
        SweptEnds(q, r, content, end, pv);
        GapsSplit(all, content, end, usable);
        break;
      }
      assert x in all;
      if Last(pv) >= First(x) {
        SweepStops(q, r, content, end, pv, x);
        multi := First(x);
        break;
      }
      SweepNext(q, r, content, end, pv, x);
      nFrag := nFrag + (First(x) - Last(pv) - 1);
      q, end := q + multiset{x}, Last(x) + 1;
      pv := x;
    }
    nFrag := nFrag + (usable - Last(pv) - 1);
  }

  lemma SweepStart(all: multiset<nat>, content: nat)
    requires 1 <= content <= 0x1_0000
    ensures Swept(multiset{}, all, content, content, content - 1) && Last(content - 1) + 1 == content
    ensures |Gaps(multiset{}, content, content)| == 0
  {
    assert Gaps(multiset{}, content, content) == {};
  }

  /** One more entry is swept, and the gap in front of it counted. */
  lemma SweepNext(q: multiset<nat>, r: multiset<nat>, content: nat, end: nat, prev: nat, x: nat)
    requires Swept(q, r, content, end, prev) && x in r && forall y :: y in r ==> x <= y
    requires end <= First(x) <= Last(x) + 1
    ensures Swept(q + multiset{x}, r - multiset{x}, content, Last(x) + 1, x)
    ensures |Gaps(q + multiset{x}, content, Last(x) + 1)| == |Gaps(q, content, end)| + First(x) - Last(prev) - 1
  {
    SweptEnds(q, r, content, end, prev);
    SweepOn(q, r, content, end, prev, x);
    hide Swept;
    GapsGrow(q, content, end, x);
  }

  lemma NoItems(s: seq<nat>)
    requires IsHeap(s) && s[0] == 0
    ensures Items(s, 0) == multiset{}
  {
  }

  lemma SweptEnds(q: multiset<nat>, r: multiset<nat>, content: nat, end: nat, prev: nat)
    requires Swept(q, r, content, end, prev)
    ensures CleanEntries(q, content) && forall f :: f in q ==> Last(f) < end
  {
  }

  /** Byte b is the first of a span, and lies in front of the content area or in another span. */
  predicate TwoUses(xs: seq<Span>, content: nat, b: int) {
    exists i :: 0 <= i < |xs| && xs[i].off == b && (b < content || InOther(xs, i, b))
  }

  predicate InOther(xs: seq<Span>, i: nat, b: nat) {
    exists j :: 0 <= j < |xs| && j != i && Has(xs[j], b)
  }

  lemma UsedTwiceIsTwoUses(xs: seq<Span>, content: nat, usable: nat, b: int)
    requires AllFit(xs, usable) && UsedTwice(Entries(xs), content, b)
    ensures TwoUses(xs, content, b)
  {
    var x :| x in Entries(xs) && First(x) == b &&
      (b < content || exists y :: y in Entries(xs) - multiset{x} && First(y) <= b <= Last(y));
    EntriesOf(xs, x);
    var i :| 0 <= i < |xs| && Entry(xs[i]) == x;
    EntryParts(xs[i], usable);
    if b >= content {
      var y :| y in Entries(xs) - multiset{x} && First(y) <= b <= Last(y);
      var j := OtherEntry(xs, i, y);
      EntryParts(xs[j], usable);
      assert Has(xs[j], b);
      assert InOther(xs, i, b);
    }
  }

  lemma EntriesFirst(x: Span, xs: seq<Span>)
    ensures Entries([x] + xs) == multiset{Entry(x)} + Entries(xs)
  {
    assert ([x] + xs)[1..] == xs;
  }

  lemma WithoutEntry(xs: seq<Span>, i: nat)
    requires i < |xs|
    ensures Entries(xs[..i] + xs[i + 1..]) == Entries(xs) - multiset{Entry(xs[i])}
  {
    hide Entry, Entries;
    assert xs == xs[..i] + ([xs[i]] + xs[i + 1..]);
    EntriesCat(xs[..i], [xs[i]] + xs[i + 1..]);
    EntriesFirst(xs[i], xs[i + 1..]);
    EntriesCat(xs[..i], xs[i + 1..]);
  }

  lemma OtherEntry(xs: seq<Span>, i: nat, y: nat) returns (j: nat)
    requires i < |xs| && y in Entries(xs) - multiset{Entry(xs[i])}
    ensures j < |xs| && j != i && Entry(xs[j]) == y
  {
    hide Entries, Entry;
    WithoutEntry(xs, i);
    EntriesOf(xs[..i] + xs[i + 1..], y);
    var k :| 0 <= k < |xs| - 1 && Entry((xs[..i] + xs[i + 1..])[k]) == y;
    j := if k < i then k else k + 1;
  }

  lemma EntryOrder(xs: seq<Span>, e: nat, usable: nat)
    requires AllFit(xs, usable) && e in Entries(xs)
    ensures First(e) <= Last(e) + 1 <= usable
  {
    EntriesOf(xs, e);
    var i :| 0 <= i < |xs| && Entry(xs[i]) == e;
    EntryParts(xs[i], usable);
  }
}
