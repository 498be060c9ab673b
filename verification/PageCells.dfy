/**
  The cells that a page is made to hold: where they lie before, and when bytes and cell pointers spell them out.
 */
module PageCells {

  import opened Basics
  import opened PageSpace
  import opened PageFreeSpace
  import opened PageDefragment

  /** A cell of the array: in the content area of the page itself, or anywhere else. */
  datatype Cell = Here(span: Span) | There(text: seq<byte>)

  function SizeOfCell(c: Cell): nat {
    match c
    case Here(s) => s.size
    case There(t) => |t|
  }

  /** The places of the cells that lie on the page. */
  function Heres(cs: seq<Cell>): seq<Span> {
    if cs == [] then [] else (if cs[0].Here? then [cs[0].span] else []) + Heres(cs[1..])
  }

  /** The cells that lie on the page. */
  function Only(cs: seq<Cell>): seq<Cell> {
    if cs == [] then [] else (if cs[0].Here? then [cs[0]] else []) + Only(cs[1..])
  }

  lemma {:induction false} HeresCat(a: seq<Cell>, b: seq<Cell>)
    ensures Heres(a + b) == Heres(a) + Heres(b) && Only(a + b) == Only(a) + Only(b)
  {
    if a == [] {
      assert a + b == b;
    } else {
      assert (a + b)[1..] == a[1..] + b;
      HeresCat(a[1..], b);
      Regroup(if a[0].Here? then [a[0].span] else [], Heres(a[1..]), Heres(b));
      Regroup(if a[0].Here? then [a[0]] else [], Only(a[1..]), Only(b));
    }
  }

  lemma Regroup<T>(x: seq<T>, y: seq<T>, z: seq<T>)
    ensures x + (y + z) == x + y + z
  {
  }

  lemma HeresFirst(c: Cell, cs: seq<Cell>)
    ensures Heres([c] + cs) == (if c.Here? then [c.span] else []) + Heres(cs)
    ensures Only([c] + cs) == (if c.Here? then [c] else []) + Only(cs)
  {
    assert ([c] + cs)[1..] == cs;
  }

  lemma {:induction false} OnlyHeres(cs: seq<Cell>)
    ensures |Only(cs)| == |Heres(cs)| <= |cs|
    ensures forall i :: 0 <= i < |Only(cs)| ==> Only(cs)[i] == Here(Heres(cs)[i])
  {
    if cs != [] {
      OnlyHeres(cs[1..]);
    }
  }

  lemma {:induction false} HeresNone(cs: seq<Cell>)
    requires forall i :: 0 <= i < |cs| ==> cs[i].There?
    ensures Heres(cs) == [] && Only(cs) == []
  {
    if cs != [] {
      HeresNone(cs[1..]);
    }
  }

  lemma {:induction false} OnlyAll(cs: seq<Cell>)
    requires forall i :: 0 <= i < |cs| ==> cs[i].Here?
    ensures Only(cs) == cs
  {
    if cs != [] {
      OnlyAll(cs[1..]);
      assert cs == [cs[0]] + cs[1..];
    }
  }

  lemma {:induction false} InHeres(cs: seq<Cell>, i: nat)
    requires i < |cs| && cs[i].Here?
    ensures cs[i].span in Heres(cs)
  {
    if i > 0 {
      InHeres(cs[1..], i - 1);
    }
  }

  // ---- texts

  function TextOf(d: seq<byte>, c: Cell): seq<byte> {
    match c
    case Here(s) => if s.End() <= |d| then d[s.off..s.End()] else []
    case There(t) => t
  }

  function Texts(d: seq<byte>, cs: seq<Cell>): (ts: seq<seq<byte>>)
    ensures |ts| == |cs| && forall i :: 0 <= i < |cs| ==> ts[i] == TextOf(d, cs[i])
  {
    seq(|cs|, i requires 0 <= i < |cs| => TextOf(d, cs[i]))
  }

  ghost predicate HoldsAt(d: seq<byte>, s: Span, t: seq<byte>) {
    s.End() <= |d| && d[s.off..s.End()] == t
  }

  /** The i-th place holds the i-th text. */
  ghost predicate Holds(d: seq<byte>, spans: seq<Span>, ts: seq<seq<byte>>) {
    |spans| == |ts| && forall i :: 0 <= i < |spans| ==> HoldsAt(d, spans[i], ts[i])
  }

  /**
    Byte x has to stay: it lies in front of begin, but neither among the fields of the header nor in [lo, hi), or it
    lies in a span.
   */
  predicate Steady(x: nat, begin: nat, lo: nat, hi: nat, spans: seq<Span>) {
    || (x < begin && !(1 <= x < 8) && !(lo <= x < hi))
    || exists i :: 0 <= i < |spans| && Has(spans[i], x)
  }

  ghost predicate Among(a: seq<Span>, b: seq<Span>) {
    forall s :: s in a ==> s in b
  }

  /** The same spans, in any order. */
  ghost predicate Perm(a: seq<Span>, b: seq<Span>) {
    multiset(a) == multiset(b)
  }

  lemma PermAmong(a: seq<Span>, b: seq<Span>)
    requires Perm(a, b)
    ensures Among(a, b) && Among(b, a)
  {
    forall s | s in b ensures s in a { assert s in multiset(b); }
    forall s | s in a ensures s in b { assert s in multiset(a); }
  }

  lemma AmongSelf(a: seq<Span>)
    ensures Among(a, a)
  {
  }

  ghost predicate Keeps(d: seq<byte>, d': seq<byte>, begin: nat, lo: nat, hi: nat, spans: seq<Span>) {
    |d'| == |d| && forall x {:trigger d'[x]} :: 0 <= x < |d| && Steady(x, begin, lo, hi, spans) ==> d'[x] == d[x]
  }

  lemma SteadyMore(x: nat, begin: nat, lo: nat, hi: nat, a: seq<Span>, lo': nat, hi': nat, b: seq<Span>)
    requires Steady(x, begin, lo, hi, a) && Among(a, b)
    requires hi' <= lo' || lo <= lo' <= hi' <= hi
    ensures Steady(x, begin, lo', hi', b)
  {
    if i :| 0 <= i < |a| && Has(a[i], x) {
      assert a[i] in b;
      var j :| 0 <= j < |b| && b[j] == a[i];
      assert Has(b[j], x);
    }
  }

  lemma KeepsOn(d: seq<byte>, d1: seq<byte>, d2: seq<byte>, begin: nat, lo: nat, hi: nat, a: seq<Span>,
                lo1: nat, hi1: nat, a1: seq<Span>, lo2: nat, hi2: nat, a2: seq<Span>)
    requires Keeps(d, d1, begin, lo1, hi1, a1) && Keeps(d1, d2, begin, lo2, hi2, a2)
    requires Among(a, a1) && Among(a, a2)
    requires (hi1 <= lo1 || lo <= lo1 <= hi1 <= hi) && (hi2 <= lo2 || lo <= lo2 <= hi2 <= hi)
    ensures Keeps(d, d2, begin, lo, hi, a)
  {
    hide Steady, Among;
    forall x | 0 <= x < |d| && Steady(x, begin, lo, hi, a) ensures d2[x] == d[x] {
      SteadyMore(x, begin, lo, hi, a, lo1, hi1, a1);
      SteadyMore(x, begin, lo, hi, a, lo2, hi2, a2);
      assert d1[x] == d[x];
    }
  }

  lemma HoldsKept(
      d: seq<byte>, d': seq<byte>, begin: nat, lo: nat, hi: nat, all: seq<Span>, spans: seq<Span>, ts: seq<seq<byte>>)
    requires Keeps(d, d', begin, lo, hi, all) && Holds(d, spans, ts) && Among(spans, all)
    ensures Holds(d', spans, ts)
  {
    forall i | 0 <= i < |spans| ensures HoldsAt(d', spans[i], ts[i]) {
      OneKept(d, d', begin, lo, hi, all, spans[i], ts[i]);
    }
  }

  lemma OneKept(d: seq<byte>, d': seq<byte>, begin: nat, lo: nat, hi: nat, all: seq<Span>, s: Span, t: seq<byte>)
    requires Keeps(d, d', begin, lo, hi, all) && HoldsAt(d, s, t) && s in all
    ensures HoldsAt(d', s, t)
  {
    var j :| 0 <= j < |all| && all[j] == s;
    forall x | s.off <= x < s.End() ensures d'[x] == d[x] {
      assert Has(all[j], x);
      assert Steady(x, begin, lo, hi, all);
    }
    assert d'[s.off..s.End()] == d[s.off..s.End()];
  }

  /** Pointers in front of begin and outside of the hole stay. */
  lemma PointedKept(
      d: seq<byte>, d': seq<byte>, begin: nat, lo: nat, hi: nat, all: seq<Span>, at: nat, spans: seq<Span>)
    requires Keeps(d, d', begin, lo, hi, all) && Pointed(d, at, spans)
    requires 8 <= at && at + 2 * |spans| <= begin && (at + 2 * |spans| <= lo || hi <= at)
    ensures Pointed(d', at, spans)
  {
    forall i | 0 <= i < |spans| ensures Get2(d', at + 2 * i) == spans[i].off {
      assert Get2(d, at + 2 * i) == spans[i].off;
      assert Steady(at + 2 * i, begin, lo, hi, all) && Steady(at + 2 * i + 1, begin, lo, hi, all);
    }
  }

  lemma PointedParts(d: seq<byte>, at: nat, a: seq<Span>, b: seq<Span>)
    ensures Pointed(d, at, a + b) <==> Pointed(d, at, a) && Pointed(d, at + 2 * |a|, b)
  {
    hide Get2;
    var ab := a + b;
    if Pointed(d, at, ab) {
      forall i | 0 <= i < |a| ensures Get2(d, at + 2 * i) == a[i].off { assert ab[i] == a[i]; }
      forall i | 0 <= i < |b| ensures Get2(d, at + 2 * |a| + 2 * i) == b[i].off {
        assert ab[|a| + i] == b[i] && at + 2 * |a| + 2 * i == at + 2 * (|a| + i);
      }
    }
    if Pointed(d, at, a) && Pointed(d, at + 2 * |a|, b) {
      forall i | 0 <= i < |ab| ensures Get2(d, at + 2 * i) == ab[i].off {
        if i >= |a| { assert at + 2 * |a| + 2 * (i - |a|) == at + 2 * i; }
      }
    }
  }

  /** Moving pointers moves what they point to. */
  lemma PointersMoved(d: seq<byte>, d': seq<byte>, to: nat, from: nat, n: nat, spans: seq<Span>)
    requires Pointed(d, from, spans) && |spans| <= n && to + 2 * n <= |d| && from + 2 * n <= |d|
    requires Moved(d, d', to, from, 2 * n)
    ensures Pointed(d', to, spans)
  {
    forall i | 0 <= i < |spans| ensures Get2(d', to + 2 * i) == spans[i].off {
      assert Get2(d, from + 2 * i) == spans[i].off;
      assert d'[to + 2 * i] == d[from + (to + 2 * i) - to] && d'[to + 2 * i + 1] == d[from + (to + 2 * i + 1) - to];
    }
  }

  // ---- the order of spans does not matter

  lemma Twice(s: seq<Span>, i: nat, j: nat)
    requires i < j < |s| && s[i] == s[j]
    ensures multiset(s)[s[i]] >= 2
  {
    assert s == s[..j] + [s[j]] + s[j + 1..];
    assert s[..j][i] == s[i];
  }

  lemma {:induction false} OnlyOnce(s: seq<Span>, x: Span)
    requires AllApart(s) && x.size > 0
    ensures multiset(s)[x] <= 1
  {
    if s != [] {
      var n := |s| - 1;
      assert s == s[..n] + [s[n]];
      OnlyOnce(s[..n], x);
      if s[n] == x {
        forall i | 0 <= i < n ensures s[..n][i] != x {
          assert Apart(s[i], s[n]);
        }
      }
    }
  }

  lemma UsedInAnyOrder(a: seq<Span>, b: seq<Span>, lo: nat, hi: nat)
    requires Used(a, lo, hi) && multiset(b) == multiset(a)
    ensures Used(b, lo, hi)
  {
    forall k | 0 <= k < |b| ensures lo <= b[k].off && b[k].End() <= hi && b[k].size >= 4 && b[k] in a {
      assert b[k] in multiset(b);
    }
    forall i, j | 0 <= i < j < |b| ensures Apart(b[i], b[j]) {
      OnlyOnce(a, b[i]);
      if b[i] == b[j] { Twice(b, i, j); }
      var p :| 0 <= p < |a| && a[p] == b[i];
      var q :| 0 <= q < |a| && a[q] == b[j];
      ApartEitherWay(a, p, q);
    }
  }

  lemma {:induction false} TotalInAnyOrder(a: seq<Span>, b: seq<Span>)
    requires multiset(b) == multiset(a)
    ensures Total(a) == Total(b)
    decreases |a|
  {
    if a == [] {
      assert |multiset(b)| == |b|;
    } else {
      hide Total, Without;
      var n := |a| - 1;
      TakenOut(a, n);
      assert a[n] in multiset(b);
      var i :| 0 <= i < |b| && b[i] == a[n];
      TakenOut(b, i);
      TotalInAnyOrder(Without(a, n, n + 1), Without(b, i, i + 1));
    }
  }

  lemma TakenOut(s: seq<Span>, i: nat)
    requires i < |s|
    ensures multiset(Without(s, i, i + 1)) == multiset(s) - multiset{s[i]}
    ensures Total(s) == Total(Without(s, i, i + 1)) + s[i].size && |Without(s, i, i + 1)| < |s|
  {
    hide Total;
    assert s == s[..i] + [s[i]] + s[i + 1..];
    TotalWithout(s, i, i + 1);
    assert s[i..i + 1] == [s[i]];
    TotalSingle(s[i]);
  }
}
