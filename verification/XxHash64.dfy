/**
  XXH64: the one-shot form and the streaming form.
 */
module XxHash64 {

  import opened Basics
  import opened XxStream

  const PRIME1: bv64 := 11400714785074694791
  const PRIME2: bv64 := 14029467366897019727
  const PRIME3: bv64 := 1609587929392839161
  const PRIME4: bv64 := 9650029242287828579
  const PRIME5: bv64 := 2870177450012600261

  function Rotl(x: bv64, r: bv7): bv64
    requires r <= 64
  {
    (x << r) | (x >> (64 - r))
  }

  function Le(b0: Byte, b1: Byte, b2: Byte, b3: Byte): bv64 {
    (b0 as bv64) | ((b1 as bv64) << 8) | ((b2 as bv64) << 16) | ((b3 as bv64) << 24)
  }

  /** Four bytes from place i on, the lowest first. */
  function Read4(s: seq<Byte>, i: nat): bv64
    requires i + 4 <= |s|
  {
    Le(s[i], s[i + 1], s[i + 2], s[i + 3])
  }

  /** Eight bytes from place i on, the lowest first. */
  function Read(s: seq<Byte>, i: nat): bv64
    requires i + 8 <= |s|
  {
    Join(Read4(s, i), Read4(s, i + 4))
  }

  function Join(low: bv64, high: bv64): bv64 {
    low | (high << 32)
  }

  function Init(seed: bv64): Lanes<bv64> {
    Lanes(seed + PRIME1 + PRIME2, seed + PRIME2, seed + 0, seed - PRIME1)
  }

  function Lane(v: bv64, w: bv64): bv64 {
    Rotl(v + w * PRIME2, 31) * PRIME1
  }

  function Round(l: Lanes<bv64>, block: seq<Byte>): Lanes<bv64> {
    if |block| != 32 then l
    else Lanes(Lane(l.v1, Read(block, 0)), Lane(l.v2, Read(block, 8)),
               Lane(l.v3, Read(block, 16)), Lane(l.v4, Read(block, 24)))
  }

  function Striping(): Striper<bv64> {
    Striper(32, Round)
  }

  /** Merge one lane into the hash. */
  function Merge(h: bv64, v: bv64): bv64 {
    (h ^ (Rotl(v * PRIME2, 31) * PRIME1)) * PRIME1 + PRIME4
  }

  function Converged(l: Lanes<bv64>): bv64 {
    var h := Rotl(l.v1, 1) + Rotl(l.v2, 7) + Rotl(l.v3, 12) + Rotl(l.v4, 18);
    Merge(Merge(Merge(Merge(h, l.v1), l.v2), l.v3), l.v4)
  }

  function AddWord(h: bv64, w: bv64): bv64 {
    Rotl(h ^ (Rotl(w * PRIME2, 31) * PRIME1), 27) * PRIME1 + PRIME4
  }

  function AddHalf(h: bv64, w: bv64): bv64 {
    Rotl(h ^ (w * PRIME1), 23) * PRIME2 + PRIME3
  }

  function AddByte(h: bv64, b: Byte): bv64 {
    Rotl(h ^ ((b as bv64) * PRIME5), 11) * PRIME1
  }

  /** The bytes behind the last stripe: words of eight, at most one of four, then single bytes. */
  function Tail(h: bv64, rest: seq<Byte>): bv64
    decreases |rest|
  {
    if |rest| >= 8 then Tail(AddWord(h, Read(rest, 0)), rest[8..])
    else if |rest| >= 4 then Tail(AddHalf(h, Read4(rest, 0)), rest[4..])
    else if |rest| > 0 then Tail(AddByte(h, rest[0]), rest[1..])
    else h
  }

  function Avalanche(h: bv64): bv64 {
    var h1 := (h ^ (h >> 33)) * PRIME2;
    var h2 := (h1 ^ (h1 >> 29)) * PRIME3;
    h2 ^ (h2 >> 32)
  }

  function Short(seed: bv64): bv64 {
    seed + PRIME5
  }

  function AddLength(h: bv64, total: nat): bv64 {
    Plus(h, Low(total))
  }

  function Plus(h: bv64, n: bv64): bv64 {
    h + n
  }

  function Low(n: nat): bv64 {
    Word(n % U64)
  }

  function Word(n: nat): bv64
    requires n < U64
  {
    n as bv64
  }

  function Start(seed: bv64, total: nat, l: Lanes<bv64>): bv64 {
    AddLength(if total >= 32 then Converged(l) else Short(seed), total)
  }

  function Finish(seed: bv64, s: State<bv64>): bv64 {
    Avalanche(Tail(Start(seed, s.total, s.lanes), s.memory))
  }

  /** The hash of the data: all whole stripes, then what is left. */
  function Hash(seed: bv64, data: seq<Byte>): bv64 {
    var k := Whole(Striping(), data);
    Finish(seed, State(|data|, Stripes(Striping(), Init(seed), data, k), data[k * 32..]))
  }

  /** What a run of calls with these pieces and a digest give; None if a call writes past the end of the buffer. */
  function Digest(seed: bv64, pieces: seq<seq<Byte>>): Option<bv64>
    requires AllSized(pieces)
  {
    var s := CalledAll(Striping(), State(0, Init(seed), []), pieces);
    if s.None? then None else Some(Finish(seed, s.value))
  }

  /**
    A stream gives the hash of all its data, however that was cut into updates, exactly if every piece, with what
    is left in the buffer before it, is shorter than 2^31 bytes.  (Behind 2^64 bytes the total length starts again
    from 0, which the digest would take for a short input if it had not yet come to a whole stripe.)
   */
  lemma StreamIsHash(seed: bv64, pieces: seq<seq<Byte>>)
    requires AllSized(pieces)
    ensures !AllFit(32, pieces) ==> Digest(seed, pieces) == None
    ensures |Flat(pieces)| < U64 || |Flat(pieces)| % U64 >= 32 ==>
      (Digest(seed, pieces) == Some(Hash(seed, Flat(pieces))) <==> AllFit(32, pieces))
    ensures var s := CalledAll(Striping(), State(0, Init(seed), []), pieces);
      s.Some? ==> s.value.total == |Flat(pieces)| % U64 && |s.value.memory| == |Flat(pieces)| % 32
  {
    hide Init, Finish, CalledAll, UpdatedAll, Stripes;
    CallsAreUpdates(Striping(), Init(seed), pieces);
    AllShows(Striping(), Init(seed), pieces);
    SameStart(seed, UpdatedAll(Striping(), State(0, Init(seed), []), pieces), |Flat(pieces)|);
  }

  lemma SameStart(seed: bv64, s: State<bv64>, n: nat)
    requires s.total == n % U64
    ensures n < U64 || n % U64 >= 32 ==> Finish(seed, s) == Finish(seed, s.(total := n))
  {
    hide Tail, Avalanche, Converged, Short, AddLength;
    LengthWraps(Converged(s.lanes), n);
    LengthWraps(Short(seed), n);
  }

  lemma LengthWraps(h: bv64, n: nat)
    ensures AddLength(h, n % U64) == AddLength(h, n)
  {
    hide Low, Plus;
    LowWraps(n);
  }

  lemma LowWraps(n: nat)
    ensures Low(n % U64) == Low(n)
  {
    hide Word;
    assert n % U64 % U64 == n % U64;
  }

  /** The digest of no bytes that the xxHash specification gives. */
  lemma EmptyDigest()
    ensures Hash(0, []) == 0xEF46DB3751D8E999
  {
    hide Avalanche, Stripes, Init;
    WholeIs(Striping(), [], 0);
    AvalancheOfStart();
  }

  lemma AvalancheOfStart()
    ensures Avalanche(AddLength(Short(0), 0)) == 0xEF46DB3751D8E999
  {
  }

  // ---- the code

  lemma ReadShift(s: seq<Byte>, p: nat, n: nat, j: nat)
    requires p + n <= |s| && j + 8 <= n
    ensures Read(s[p..p + n], j) == Read(s, p + j)
  {
    hide Read4, Join;
    ReadShift4(s, p, n, j);
    ReadShift4(s, p, n, j + 4);
  }

  lemma ReadShift4(s: seq<Byte>, p: nat, n: nat, j: nat)
    requires p + n <= |s| && j + 4 <= n
    ensures Read4(s[p..p + n], j) == Read4(s, p + j)
  {
    hide Le;
  }

  lemma TailStep(h: bv64, s: seq<Byte>, p: nat)
    requires p < |s|
    ensures Tail(h, s[p..]) ==
      if p + 8 <= |s| then Tail(AddWord(h, Read(s, p)), s[p + 8..])
      else if p + 4 <= |s| then Tail(AddHalf(h, Read4(s, p)), s[p + 4..])
      else Tail(AddByte(h, s[p]), s[p + 1..])
  {
    hide AddWord, AddHalf, AddByte, Read, Read4;
    assert s[p..|s|] == s[p..];
    if p + 8 <= |s| {
      ReadShift(s, p, |s| - p, 0);
      assert s[p..][8..] == s[p + 8..];
    } else if p + 4 <= |s| {
      ReadShift4(s, p, |s| - p, 0);
      assert s[p..][4..] == s[p + 4..];
    } else {
      assert s[p..][1..] == s[p + 1..];
    }
  }

  lemma TailEnd(h: bv64, s: seq<Byte>)
    requires s == []
    ensures Tail(h, s) == h
  {
  }

  /** Take in one stripe: the body of the loops, which reads at p and moves on. */
  method TakeStripe(l: Lanes<bv64>, s: seq<Byte>, p: nat) returns (r: Lanes<bv64>, q: nat)
    requires p + 32 <= |s|
    ensures r == Round(l, s[p..p + 32]) && q == p + 32
  {
    hide Lane, Read;
    ReadShift(s, p, 32, 0);
    ReadShift(s, p, 32, 8);
    ReadShift(s, p, 32, 16);
    ReadShift(s, p, 32, 24);
    q := p;
    var v1, v2, v3, v4 := l.v1, l.v2, l.v3, l.v4;
    v1 := Lane(v1, Read(s, q)); q := q + 8;
    v2 := Lane(v2, Read(s, q)); q := q + 8;
    v3 := Lane(v3, Read(s, q)); q := q + 8;
    v4 := Lane(v4, Read(s, q)); q := q + 8;
    r := Lanes(v1, v2, v3, v4);
  }

  /** Take in the stripes from p on, as long as there is a whole one. */
  method TakeStripes(l: Lanes<bv64>, s: seq<Byte>, from: nat) returns (r: Lanes<bv64>, p: nat)
    requires from <= |s|
    ensures var k := Whole(Striping(), s[from..]);
      p == from + k * 32 && r == Stripes(Striping(), l, s[from..], k)
  {
    hide Round;
    var rest, k := s[from..], 0;
    r, p := l, from;
    while p + 32 <= |s|
      invariant from <= p <= |s| && p == from + k * 32 && r == Stripes(Striping(), l, rest, k)
    {
      assert rest[k * 32..k * 32 + 32] == s[p..p + 32];
      r, p := TakeStripe(r, s, p);
      k := k + 1;
    }
    WholeIs(Striping(), rest, k);
  }

  /** The last part of both forms: the loops over words and bytes, and the avalanche. */
  method Finalize(h0: bv64, s: seq<Byte>) returns (h: bv64)
    ensures h == Avalanche(Tail(h0, s))
  {
    hide AddWord, AddHalf, AddByte, Avalanche, Tail, Read, Read4;
    h := h0;
    var p := 0;
    assert s[p..] == s;
    while p + 8 <= |s|
      invariant p <= |s| && Tail(h, s[p..]) == Tail(h0, s)
    {
      TailStep(h, s, p);
      h := AddWord(h, Read(s, p));
      p := p + 8;
    }
    if p + 4 <= |s| {
      TailStep(h, s, p);
      h := AddHalf(h, Read4(s, p));
      p := p + 4;
    }
    while p < |s|
      invariant p <= |s| && |s| - p < 4 && Tail(h, s[p..]) == Tail(h0, s)
    {
      TailStep(h, s, p);
      h := AddByte(h, s[p]);
      p := p + 1;
    }
    TailEnd(h, s[p..]);
    h := Avalanche(h);
  }

  /** XXH64. */
  method OneShot(input: seq<Byte>, seed: bv64) returns (h: bv64)
    requires |input| < 0x1_0000_0000
    ensures h == Hash(seed, input)
  {
    hide Tail, Avalanche, Init, Converged, Short, AddLength;
    var h32, p := Short(seed), 0;
    if |input| >= 32 {
      var l;
      l, p := TakeStripes(Init(seed), input, 0);
      assert input[0..] == input;
      h32 := Converged(l);
    } else {
      WholeIs(Striping(), input, 0);
    }
    h32 := AddLength(h32, |input|);
    h := Finalize(h32, input[p..]);
  }

  /** The state of a stream. */
  class XxhState {
    var totalLen: nat
    var seed: bv64
    var v: Lanes<bv64>
    var memsize: nat
    const memory: array<Byte>

    ghost predicate Valid()
      reads this, memory
    {
      memory.Length == 32 && memsize < 32
    }

    ghost function Snap(): State<bv64>
      reads this, memory
      requires Valid()
    {
      State(totalLen, v, memory[..memsize])
    }

    constructor (seed: bv64)
      ensures Valid() && Snap() == State(0, Init(seed), []) && this.seed == seed && fresh(memory)
    {
      this.seed := seed;
      v := Init(seed);
      totalLen, memsize := 0, 0;
      memory := new Byte[32](_ => 0);
    }

    method Reset(seed: bv64)
      requires memory.Length == 32
      modifies this
      ensures Valid() && Snap() == State(0, Init(seed), []) && this.seed == seed
    {
      this.seed := seed;
      v := Init(seed);
      totalLen, memsize := 0, 0;
    }

    /** memcpy of n bytes of the input into the buffer. */
    method Store(at: nat, input: seq<Byte>, from: nat, n: nat)
      requires memory.Length == 32 && at + n <= 32 && from + n <= |input|
      modifies memory
      ensures memory[..at + n] == old(memory[..at]) + input[from..from + n]
    {
      forall i | 0 <= i < n { memory[at + i] := input[from + i]; }
    }

    /**
      XXH64_update, which hands its unsigned length on as an int and adds it to another; false if memcpy writes
      past the end of the buffer.
     */
    method Update(input: seq<Byte>) returns (ok: bool)
      requires Valid() && |input| < U32
      modifies this, memory
      ensures Valid() && seed == old(seed) && (ok <==> old(memsize) + |input| < HALF)
      ensures (if ok then Some(Snap()) else None) == Called(Striping(), old(Snap()), input)
    {
      hide Round, Stripes, Called;
      CalledIs(Striping(), Snap(), input);
      var len := IntOf(|input|);
      totalLen := (totalLen + len) % U64;
      if Buffered(memsize, |input|) < 32 {
        if memsize + SizeOf(len) > 32 {
          return false;
        }
        Store(memsize, input, 0, len);
        assert input[..len] == input;
        memsize := memsize + len;
        return true;
      }
      Absorb(input);
      ok := true;
    }

    /** What is left from the update before is filled up to a stripe and taken in. */
    method Empty(input: seq<Byte>) returns (p: nat)
      requires Valid() && memsize + |input| >= 32
      modifies this`v, this`memsize, memory
      ensures Valid() && memsize == 0 && p == (if old(memsize) == 0 then 0 else 32 - old(memsize)) <= |input|
      ensures v == if old(memsize) == 0 then old(v) else Round(old(v), old(memory[..memsize]) + input[..p])
    {
      hide Round;
      p := 0;
      if memsize != 0 {
        Store(memsize, input, 0, 32 - memsize);
        assert memory[..32] == memory[..] && memory[..][0..32] == memory[..];
        var q;
        v, q := TakeStripe(v, memory[..], 0);
        p := 32 - memsize;
        memsize := 0;
      }
    }

    /** The buffer is emptied, then all whole stripes are taken in, and the rest goes to the buffer. */
    method Absorb(input: seq<Byte>)
      requires Valid() && memsize + |input| >= 32
      modifies this`v, this`memsize, memory
      ensures Valid()
      ensures Snap().(total := 0) == Updated(Striping(), old(Snap()), input).(total := 0)
    {
      hide Round, Stripes, Whole;
      var p := Empty(input);
      ghost var from := p;
      v, p := TakeStripes(v, input, p);
      assert input[from..][p - from..] == input[p..];
      if p < |input| {
        Store(0, input, p, |input| - p);
        memsize := |input| - p;
      }
      assert memory[..memsize] == input[p..];
    }

    method IntermediateDigest() returns (h: bv64)
      requires Valid()
      ensures h == Finish(seed, Snap())
    {
      hide Tail, Avalanche, Converged, Short, AddLength;
      if totalLen >= 32 {
        h := Converged(v);
      } else {
        h := Short(seed);
      }
      h := AddLength(h, totalLen);
      h := Finalize(h, memory[..memsize]);
    }
  }
}
