/**
  Variable-length integers: section 1.5 "Record Format" and section 1.6 of the SQLite Database File Format.
  A number is written in groups of 7 bits, the highest first, with the top bit set in all bytes but the
  last; a ninth byte, if it is needed, holds 8 bits.
 */
module Varint {

  import opened Basics
  import opened PageSpace

  const BITS56 := 0x100_0000_0000_0000

  /** The n lowest groups of v, each with the top bit set. */
  function Groups(v: nat, n: nat): (s: seq<byte>)
    ensures |s| == n && forall i :: 0 <= i < n ==> s[i] >= 128
  {
    if n == 0 then [] else Groups(v / 128, n - 1) + [v % 128 + 128]
  }

  /** The number of groups of v, at least one. */
  function Count(v: nat): (n: nat)
    ensures n >= 1
  {
    if v < 128 then 1 else 1 + Count(v / 128)
  }

  function Put(v: nat): (s: seq<byte>)
    requires v < U64
    ensures |s| >= 1
  {
    if v < BITS56 then Groups(v / 128, Count(v) - 1) + [v % 128]
    else Groups(v / 256, 8) + [v % 256]
  }

  /** sqlite3PutVarint. */
  method PutVarint(v: nat) returns (p: seq<byte>)
    requires v < U64
    ensures p == Put(v)
  {
    if v <= 0x7f {
      OneGroup(v);
      return [v % 128];
    }
    if v <= 0x3fff {
      TwoGroups(v);
      return [v / 128 % 128 + 128, v % 128];
    }
    p := PutVarint64(v);
  }

  /** The nine-byte form, and the loop that collects the groups from the lowest. */
  method PutVarint64(v0: nat) returns (p: seq<byte>)
    requires v0 < U64
    ensures p == Put(v0)
  {
    hide Groups, Count;
    var v: nat := v0;
    if v >= BITS56 {
      p := [v % 256];
      v := v / 256;
      var i: nat := 8;
      while i > 0
        invariant i <= 8 && Groups(v, i) + p == Put(v0)
      {
        GroupsStep(v, i, p);
        p := [v % 128 + 128] + p;
        v := v / 128;
        i := i - 1;
      }
      NoGroups(v, p);
      return p;
    }
    p := [v % 128];   // the last byte without, all others with the top bit
    CountStep(v);
    v := v / 128;
    NoGroups(v, p);
    while v != 0
      invariant (if v > 0 then Groups(v, Count(v)) else []) + p == Put(v0)
    {
      GroupsStep(v, Count(v), p);
      p := [v % 128 + 128] + p;
      CountStep(v);
      v := v / 128;
      NoGroups(v, p);
    }
    assert [] + p == p;
  }

  lemma GroupsStep(v: nat, n: nat, p: seq<byte>)
    requires n > 0
    ensures Groups(v, n) + p == Groups(v / 128, n - 1) + ([v % 128 + 128] + p)
  {
  }

  lemma NoGroups(v: nat, p: seq<byte>)
    ensures Groups(v, 0) + p == p
  {
  }

  lemma CountStep(v: nat)
    ensures Count(v) - 1 == if v / 128 > 0 then Count(v / 128) else 0
  {
  }

  lemma OneGroup(v: nat)
    requires v < 128
    ensures Put(v) == [v % 128]
  {
    assert Groups(0, 0) == [];
  }

  lemma TwoGroups(v: nat)
    requires 128 <= v <= 0x3fff
    ensures Put(v) == [v / 128 % 128 + 128, v % 128]
  {
    assert Count(v) == 2;
    assert Groups(v / 128, 1) == Groups(v / 128 / 128, 0) + [v / 128 % 128 + 128];
  }

  // ---- reading

  /** The byte at place i; the page has something behind the cell. */
  function At(s: seq<byte>, i: nat): (b: nat)
    ensures b < 256
  {
    if i < |s| then s[i] as nat else 0
  }

  /** How many bytes from place i on have the top bit set, at most m. */
  function Lead(s: seq<byte>, i: nat, m: nat): (c: nat)
    ensures c <= m && (forall j :: i <= j < i + c ==> At(s, j) >= 128) && (c < m ==> At(s, i + c) < 128)
    decreases m
  {
    if m == 0 || At(s, i) < 128 then 0 else 1 + Lead(s, i + 1, m - 1)
  }

  /** The value of n groups from place i on. */
  function Val(s: seq<byte>, i: nat, n: nat): nat {
    if n == 0 then 0 else Val(s, i, n - 1) * 128 + At(s, i + n - 1) % 128
  }

  /** The payload size at place i, as the cell parsers read it: up to 9 groups, in 32 bits. */
  function SizeLen(s: seq<byte>, i: nat): (n: nat)
    ensures 1 <= n <= 9
  {
    Lead(s, i, 8) + 1
  }

  function SizeVal(s: seq<byte>, i: nat): nat {
    Val(s, i, SizeLen(s, i)) % U32
  }

  /** The key at place i. */
  function KeyVal(s: seq<byte>, i: nat): nat {
    var c := Lead(s, i, 8);
    if c < 8 then Val(s, i, c + 1) else Val(s, i, 8) * 256 + At(s, i + 8)
  }

  /** The inlined getVarint32 of the cell parsers. */
  method GetSize(s: seq<byte>, i: nat) returns (v: nat, next: nat)
    ensures v == SizeVal(s, i) && next == i + SizeLen(s, i)
  {
    hide Lead, Val;
    var p := i;
    v := At(s, p);
    LeadHere(s, i, 8, 0);
    OneVal(s, i);
    if v >= 0x80 {
      var pEnd := i + 8;
      v := v % 128;
      var more := true;
      while more
        invariant i <= p <= pEnd && (more ==> p < pEnd && p - i < Lead(s, i, 8))
        invariant v == Val(s, i, p - i + 1) % U32 && (!more ==> p - i == Lead(s, i, 8))
        decreases more, pEnd - p
      {
        LeadStep(s, i, 8, p - i);
        p := p + 1;
        GroupAdded(s, i, p - i);
        v := (v * 128 + At(s, p) % 128) % U32;
        more := At(s, p) >= 0x80 && p < pEnd;
      }
    }
    next := p + 1;
  }

  /** One more group of a number that is kept in 32 bits. */
  lemma GroupAdded(s: seq<byte>, i: nat, k: nat)
    ensures (Val(s, i, k) % U32 * 128 + At(s, i + k) % 128) % U32 == Val(s, i, k + 1) % U32
  {
    ModStep(Val(s, i, k), 128, At(s, i + k) % 128);
  }

  lemma LeadStep(s: seq<byte>, i: nat, m: nat, k: nat)
    ensures k < Lead(s, i, m) && k + 1 < m && At(s, i + k + 1) >= 128 ==> k + 1 < Lead(s, i, m)
    ensures k < Lead(s, i, m) && At(s, i + k + 1) < 128 ==> k + 1 == Lead(s, i, m)
  {
    var c := Lead(s, i, m);
    assert c < m ==> At(s, i + c) < 128;
  }

  /** The inlined getVarint of the cell parsers. */
  method GetKey(s: seq<byte>, i: nat) returns (v: nat, next: nat)
    ensures v == KeyVal(s, i) && next == i + SizeLen(s, i)
  {
    hide Lead;
    var p := i;
    v := At(s, p);
    LeadHere(s, i, 8, 0);
    OneVal(s, i);
    if v >= 0x80 {
      var pEnd := i + 7;
      v := v % 128;
      while true
        invariant i <= p < pEnd && p - i < Lead(s, i, 8) && v == Val(s, i, p - i + 1)
        decreases pEnd - p
      {
        LeadStep(s, i, 8, p - i);
        p := p + 1;
        v := v * 128 + At(s, p) % 128;
        if At(s, p) < 0x80 { break; }
        if p >= pEnd {
          p := p + 1;
          v := v * 256 + At(s, p);
          break;
        }
      }
    }
    next := p + 1;
  }

  /** The loop of cellSizePtr that steps over the key. */
  method SkipKey(s: seq<byte>, i: nat) returns (next: nat)
    ensures next == i + SizeLen(s, i)
  {
    hide Lead;
    next := i;
    var pEnd := i + 9;
    var more := true;
    while more
      invariant i <= next <= pEnd && (more ==> next < pEnd && next - i <= Lead(s, i, 8))
      invariant !more ==> next == i + Lead(s, i, 8) + 1
      decreases more, pEnd - next
    {
      if next - i < 8 { LeadHere(s, i, 8, next - i); }
      var b := At(s, next);
      next := next + 1;
      more := b >= 0x80 && next < pEnd;
    }
  }

  lemma OneVal(s: seq<byte>, i: nat)
    ensures Val(s, i, 1) == At(s, i) % 128
  {
    assert Val(s, i, 0) == 0;
  }

  lemma LeadHere(s: seq<byte>, i: nat, m: nat, k: nat)
    requires k <= Lead(s, i, m) && k < m
    ensures At(s, i + k) >= 128 <==> k < Lead(s, i, m)
  {
  }

  // ---- reading what was written

  /** The bytes p stand in s from place i on. */
  predicate Stands(p: seq<byte>, s: seq<byte>, i: nat) {
    i + |p| <= |s| && s[i..i + |p|] == p
  }

  lemma StandsAt(p: seq<byte>, s: seq<byte>, i: nat, j: nat)
    requires Stands(p, s, i)
    ensures j < |p| ==> At(s, i + j) == p[j]
  {
    assert j < |p| ==> s[i..i + |p|][j] == s[i + j];
  }

  lemma LeadAtMost(s: seq<byte>, i: nat, m: nat, n: nat)
    requires At(s, i + n) < 128
    ensures Lead(s, i, m) <= n
  {
  }

  lemma StandsInit(p: seq<byte>, b: byte, s: seq<byte>, i: nat)
    requires Stands(p + [b], s, i)
    ensures Stands(p, s, i) && At(s, i + |p|) == b
  {
    assert s[i..i + |p|] == s[i..i + |p| + 1][..|p|];
    assert s[i + |p|] == s[i..i + |p| + 1][|p|];
  }

  lemma {:induction false} ValGroups(v: nat, n: nat, s: seq<byte>, i: nat)
    requires Stands(Groups(v, n), s, i) && (v == 0 || Count(v) <= n)
    ensures Val(s, i, n) == v
  {
    if n > 0 {
      StandsInit(Groups(v / 128, n - 1), v % 128 + 128, s, i);
      ValGroups(v / 128, n - 1, s, i);
    }
  }

  function Pow128(n: nat): nat {
    if n == 0 then 1 else 128 * Pow128(n - 1)
  }

  lemma {:induction false} CountBelow(v: nat, n: nat)
    requires n > 0 && v < Pow128(n)
    ensures Count(v) <= n
  {
    if n > 1 {
      CountBelow(v / 128, n - 1);
    } else {
      assert Pow128(0) == 1;
    }
  }

  lemma CountFits(v: nat)
    requires v < BITS56
    ensures Count(v) <= 8
  {
    assert Pow128(2) == 128 * 128;
    assert Pow128(4) == 128 * 128 * 128 * 128;
    assert Pow128(6) == 128 * 128 * 128 * 128 * 128 * 128;
    assert Pow128(8) == BITS56;
    CountBelow(v, 8);
  }

  /** The size that was written is read, and as many bytes as were written. */
  lemma PutIsRead(v: nat, s: seq<byte>, i: nat)
    requires v < U64 && Stands(Put(v), s, i)
    ensures SizeLen(s, i) == |Put(v)| && KeyVal(s, i) == v
    ensures v < U32 ==> SizeVal(s, i) == v
  {
    if v < BITS56 {
      CountFits(v);
      ShortIsRead(v, s, i);
    } else {
      CountFits(v / 256);
      LongIsRead(v, s, i);
    }
  }

  lemma ShortIsRead(v: nat, s: seq<byte>, i: nat)
    requires v < BITS56 && Count(v) <= 8 && Stands(Put(v), s, i)
    ensures Lead(s, i, 8) == Count(v) - 1 && |Put(v)| == Count(v) && Val(s, i, Count(v)) == v
  {
    hide Groups, Count, Lead, Val;
    var n := Count(v) - 1;
    var g := Groups(v / 128, n);
    StandsInit(g, v % 128, s, i);
    CountStep(v);
    ValGroups(v / 128, n, s, i);
    ValStep(s, i, n);
    StandsAt(g, s, i, Lead(s, i, 8));
    LeadAtMost(s, i, 8, n);
  }

  lemma ValStep(s: seq<byte>, i: nat, n: nat)
    ensures Val(s, i, n + 1) == Val(s, i, n) * 128 + At(s, i + n) % 128
  {
  }

  lemma LongIsRead(v: nat, s: seq<byte>, i: nat)
    requires BITS56 <= v < U64 && Count(v / 256) <= 8 && Stands(Put(v), s, i)
    ensures Lead(s, i, 8) == 8 && |Put(v)| == 9 && Val(s, i, 8) * 256 + At(s, i + 8) == v
  {
    hide Lead, Val, Groups;
    var g := Groups(v / 256, 8);
    StandsInit(g, v % 256, s, i);
    ValGroups(v / 256, 8, s, i);
    StandsAt(g, s, i, Lead(s, i, 8));
  }
}
