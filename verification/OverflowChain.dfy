/**
  Overflow pages: each begins with the number of the next in four bytes, 0 in the last, and then holds a
  part of the payload.  Section 1.7 "Cell Payload Overflow Pages" of the SQLite Database File Format.
 */
module OverflowChain {

  import opened Basics
  import opened PageSpace


  function Get4(d: seq<byte>, i: nat): (v: nat)
    requires i + 4 <= |d|
    ensures v < U32
  {
    d[i] as nat * 0x100_0000 + d[i + 1] as nat * 0x1_0000 + d[i + 2] as nat * 0x100 + d[i + 3] as nat
  }

  function Bytes4(v: nat): (r: seq<byte>)
    ensures |r| == 4
  {
    [v / 0x100_0000 % 256, v / 0x1_0000 % 256, v / 0x100 % 256, v % 256]
  }

  /** The bytes c over those of d from place i on. */
  function Patch<T>(d: seq<T>, i: nat, c: seq<T>): (r: seq<T>)
    requires i + |c| <= |d|
    ensures |r| == |d|
  {
    d[..i] + c + d[i + |c|..]
  }

  lemma PatchAt<T>(d: seq<T>, i: nat, c: seq<T>, j: nat)
    requires i + |c| <= |d| && j < |d|
    ensures Patch(d, i, c)[j] == if i <= j < i + |c| then c[j - i] else d[j]
  {
  }

  /** The bytes before the patch and the patch itself. */
  lemma PatchBehind<T>(d: seq<T>, i: nat, c: seq<T>, b: nat)
    requires b <= i && i + |c| <= |d|
    ensures Patch(d, i, c)[b..i + |c|] == d[b..i] + c
  {
    assert Patch(d, i, c)[..i + |c|] == d[..i] + c;
    assert Patch(d, i, c)[..i + |c|][b..] == d[..i][b..] + c;
  }

  lemma SliceOfTake<T>(d: seq<T>, n: nat, b: nat, e: nat)
    requires b <= e <= n <= |d|
    ensures d[..n][b..e] == d[b..e]
  {
  }

  lemma TakeMore<T>(d: seq<T>, w: nat, n: nat)
    requires w + n <= |d|
    ensures d[..w + n] == d[..w] + d[w..w + n]
  {
  }

  lemma Get4Put(d: seq<byte>, i: nat, v: nat)
    requires i + 4 <= |d| && v < U32
    ensures Get4(Patch(d, i, Bytes4(v)), i) == v
  {
    var r := Patch(d, i, Bytes4(v));
    PatchAt(d, i, Bytes4(v), i);
    PatchAt(d, i, Bytes4(v), i + 1);
    PatchAt(d, i, Bytes4(v), i + 2);
    PatchAt(d, i, Bytes4(v), i + 3);
    Digits4(v);
  }

  lemma Digits4(v: nat)
    requires v < U32
    ensures v == v / 0x100_0000 % 256 * 0x100_0000 + v / 0x1_0000 % 256 * 0x1_0000 + v / 0x100 % 256 * 0x100 + v % 256
  {
    assert v / 0x1_0000 == v / 0x100 / 0x100 && v / 0x100_0000 == v / 0x1_0000 / 0x100;
  }

  lemma Get4Other(d: seq<byte>, i: nat, c: seq<byte>, j: nat)
    requires i + |c| <= |d| && j + 4 <= |d| && (j + 4 <= i || i + |c| <= j)
    ensures Get4(Patch(d, i, c), j) == Get4(d, j)
  {
    PatchAt(d, i, c, j);
    PatchAt(d, i, c, j + 1);
    PatchAt(d, i, c, j + 2);
    PatchAt(d, i, c, j + 3);
  }

  // ---- a chain of pages that holds data

  type Pages = map<nat, seq<byte>>

  /** Where the part of page t begins and ends, for n bytes of data and u bytes a page. */
  function Begin(t: nat, u: nat): nat { t * u }

  function End(t: nat, u: nat, n: nat): nat { Min(Begin(t, u) + u, n) }

  /** Page p is the t-th page of the data. */
  predicate PageHolds(p: seq<byte>, data: seq<byte>, t: nat, u: nat) {
    && |p| >= u + 4 && Begin(t, u) <= |data|
    && p[4..4 + End(t, u, |data|) - Begin(t, u)] == data[Begin(t, u)..End(t, u, |data|)]
  }

  function No(list: seq<nat>, t: nat): nat {
    if t < |list| then list[t] else 0
  }

  ghost predicate Linked(pages: Pages, list: seq<nat>) {
    && (forall t :: 0 <= t < |list| ==>
         list[t] in pages && list[t] != 0 && |pages[list[t]]| >= 4 && Get4(pages[list[t]], 0) == No(list, t + 1))
    && (forall s, t :: 0 <= s < t < |list| ==> list[s] != list[t])
  }

  /** The number of pages that n bytes need. */
  function PagesFor(n: nat, u: nat): nat
    requires u > 0
  {
    (n + u - 1) / u
  }

  /** The chain of pages in the list holds the data, as far as the chain goes. */
  ghost predicate Chained(pages: Pages, list: seq<nat>, data: seq<byte>, u: nat) {
    && u > 0 && |list| <= PagesFor(|data|, u) && Linked(pages, list)
    && forall t :: 0 <= t < |list| ==> PageHolds(pages[list[t]], data, t, u)
  }

  /** The chain holds all of the data. */
  ghost predicate Spilled(pages: Pages, list: seq<nat>, data: seq<byte>, u: nat) {
    Chained(pages, list, data, u) && |list| == PagesFor(|data|, u)
  }

  lemma Bounds(n: nat, u: nat, t: nat)
    requires u > 0
    ensures t < PagesFor(n, u) <==> Begin(t, u) < n
  {
    var q, r := (n + u - 1) / u, (n + u - 1) % u;
    assert n + u - 1 == q * u + r;
    Monotone(t, q, u);
    Monotone(q, t, u);
    BeginStep(t, u);
    Monotone(t + 1, q, u);
  }

  lemma BeginStep(t: nat, u: nat)
    ensures Begin(t + 1, u) == Begin(t, u) + u && Begin(0, u) == 0
  {
  }

  /** Pages begin in order, a page apart. */
  lemma BeginOrder(s: nat, t: nat, u: nat)
    ensures s < t ==> Begin(s, u) + u <= Begin(t, u)
  {
    Monotone(s + 1, t, u);
    BeginStep(s, u);
  }

  /** Byte o of the data is on page t, at place o - t*u behind the link. */
  lemma HeldAt(p: seq<byte>, data: seq<byte>, t: nat, u: nat, lo: nat, n: nat)
    requires PageHolds(p, data, t, u) && lo + n <= u && Begin(t, u) + lo + n <= |data|
    ensures p[4 + lo..4 + lo + n] == data[Begin(t, u) + lo..Begin(t, u) + lo + n]
  {
    var b, e := Begin(t, u), End(t, u, |data|);
    SubSlice(p, 4, 4 + e - b, lo, n);
    SubSlice(data, b, e, lo, n);
  }

  lemma SubSlice(p: seq<byte>, a: nat, b: nat, lo: nat, n: nat)
    requires a <= b <= |p| && lo + n <= b - a
    ensures p[a..b][lo..lo + n] == p[a + lo..a + lo + n]
  {
    var x, y := p[a..b][lo..lo + n], p[a + lo..a + lo + n];
    forall k | 0 <= k < n ensures x[k] == y[k] {
      assert x[k] == p[a..b][lo + k] == p[a + lo + k] == y[k];
    }
  }

  lemma SliceKept(d: seq<byte>, i: nat, c: seq<byte>, b: nat, e: nat)
    requires i + |c| <= |d| && b <= e <= |d| && (e <= i || i + |c| <= b)
    ensures Patch(d, i, c)[b..e] == d[b..e]
  {
    forall j | b <= j < e ensures Patch(d, i, c)[j] == d[j] {
      PatchAt(d, i, c, j);
    }
  }

  /** Writing into the part of a page is writing into the data. */
  lemma PagePatched(p: seq<byte>, data: seq<byte>, t: nat, u: nat, lo: nat, c: seq<byte>)
    requires PageHolds(p, data, t, u) && lo + |c| <= u && Begin(t, u) + lo + |c| <= |data|
    ensures PageHolds(Patch(p, 4 + lo, c), Patch(data, Begin(t, u) + lo, c), t, u)
  {
    hide Begin, Patch;
    var b, e := Begin(t, u), End(t, u, |data|);
    SlicePatched(p, 4, e - b, lo, c);
    SlicePatched(data, b, e - b, lo, c);
  }

  /** A patch within a slice. */
  lemma SlicePatched<T>(d: seq<T>, x: nat, n: nat, lo: nat, c: seq<T>)
    requires x + n <= |d| && lo + |c| <= n
    ensures Patch(d, x + lo, c)[x..x + n] == Patch(d[x..x + n], lo, c)
  {
    assert Patch(d, x + lo, c)[x..x + n] == d[x..x + lo] + c + d[x + lo + |c|..x + n];
  }

  /** The other pages are as they were. */
  lemma OtherPatched(p: seq<byte>, data: seq<byte>, s: nat, t: nat, u: nat, lo: nat, c: seq<byte>)
    requires PageHolds(p, data, s, u) && s != t && lo + |c| <= u && Begin(t, u) + lo + |c| <= |data|
    ensures PageHolds(p, Patch(data, Begin(t, u) + lo, c), s, u)
  {
    BeginOrder(s, t, u);
    BeginOrder(t, s, u);
    hide Begin;
    SliceKept(data, Begin(t, u) + lo, c, Begin(s, u), End(s, u, |data|));
    hide Patch;
  }

  lemma ChainPatched(pages: Pages, list: seq<nat>, data: seq<byte>, u: nat, t: nat, lo: nat, c: seq<byte>)
    requires Chained(pages, list, data, u) && t < |list| && lo + |c| <= u && Begin(t, u) + lo + |c| <= |data|
    ensures |pages[list[t]]| >= u + 4
    ensures Chained(pages[list[t] := Patch(pages[list[t]], 4 + lo, c)], list, Patch(data, Begin(t, u) + lo, c), u)
  {
    var p := pages[list[t]];
    PagePatched(p, data, t, u, lo, c);
    Get4Other(p, 4 + lo, c, 0);
    hide PageHolds, Patch, Get4, Begin, PagesFor;
    LinkedKept(pages, list, t, Patch(p, 4 + lo, c));
    hide Linked;
    var ps := pages[list[t] := Patch(p, 4 + lo, c)];
    forall s | 0 <= s < |list|
      ensures PageHolds(ps[list[s]], Patch(data, Begin(t, u) + lo, c), s, u)
    {
      if s != t {
        OtherPatched(pages[list[s]], data, s, t, u, lo, c);
        Apart(pages, list, s, t);
      }
    }
  }

  lemma LinkedKept(pages: Pages, list: seq<nat>, t: nat, q: seq<byte>)
    requires Linked(pages, list) && t < |list| && |q| >= 4 && Get4(q, 0) == Get4(pages[list[t]], 0)
    ensures Linked(pages[list[t] := q], list)
  {
  }

  lemma Apart(pages: Pages, list: seq<nat>, s: nat, t: nat)
    requires Linked(pages, list) && s < |list| && t < |list| && s != t
    ensures list[s] != list[t]
  {
  }
}
