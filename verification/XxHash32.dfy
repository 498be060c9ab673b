/**
  XXH32: the one-shot form and the streaming form.
 */
module XxHash32 {

  import opened Basics
  import opened XxStream

  const PRIME1: bv32 := 2654435761
  const PRIME2: bv32 := 2246822519
  const PRIME3: bv32 := 3266489917
  const PRIME4: bv32 := 668265263
  const PRIME5: bv32 := 374761393

  function Rotl(x: bv32, r: bv6): bv32
    requires r <= 32
  {
    (x << r) | (x >> (32 - r))
  }

  function Le(b0: Byte, b1: Byte, b2: Byte, b3: Byte): bv32 {
    (b0 as bv32) | ((b1 as bv32) << 8) | ((b2 as bv32) << 16) | ((b3 as bv32) << 24)
  }

  /** Four bytes from place i on, the lowest first. */
  function Read(s: seq<Byte>, i: nat): bv32
    requires i + 4 <= |s|
  {
    Le(s[i], s[i + 1], s[i + 2], s[i + 3])
  }

  function Init(seed: bv32): Lanes<bv32> {
    Lanes(seed + PRIME1 + PRIME2, seed + PRIME2, seed + 0, seed - PRIME1)
  }

  function Lane(v: bv32, w: bv32): bv32 {
    Rotl(v + w * PRIME2, 13) * PRIME1
  }

  function Round(l: Lanes<bv32>, block: seq<Byte>): Lanes<bv32> {
    if |block| != 16 then l
    else Lanes(Lane(l.v1, Read(block, 0)), Lane(l.v2, Read(block, 4)),
               Lane(l.v3, Read(block, 8)), Lane(l.v4, Read(block, 12)))
  }

  function Striping(): Striper<bv32> {
    Striper(16, Round)
  }

  function Converged(l: Lanes<bv32>): bv32 {
    Rotl(l.v1, 1) + Rotl(l.v2, 7) + Rotl(l.v3, 12) + Rotl(l.v4, 18)
  }

  function AddWord(h: bv32, w: bv32): bv32 {
    Rotl(h + w * PRIME3, 17) * PRIME4
  }

  function AddByte(h: bv32, b: Byte): bv32 {
    Rotl(h + (b as bv32) * PRIME5, 11) * PRIME1
  }

  /** The bytes behind the last stripe: whole words first, then single bytes. */
  function Tail(h: bv32, rest: seq<Byte>): bv32
    decreases |rest|
  {
    if |rest| >= 4 then Tail(AddWord(h, Read(rest, 0)), rest[4..])
    else if |rest| > 0 then Tail(AddByte(h, rest[0]), rest[1..])
    else h
  }

  function Avalanche(h: bv32): bv32 {
    var h1 := (h ^ (h >> 15)) * PRIME2;
    var h2 := (h1 ^ (h1 >> 13)) * PRIME3;
    h2 ^ (h2 >> 16)
  }

  function Short(seed: bv32): bv32 {
    seed + PRIME5
  }

  function AddLength(h: bv32, total: nat): bv32 {
    Plus(h, Low(total))
  }

  function Plus(h: bv32, n: bv32): bv32 {
    h + n
  }

  function Low(n: nat): bv32 {
    Word(n % U32)
  }

  function Word(n: nat): bv32
    requires n < U32
  {
    n as bv32
  }

  function Start(seed: bv32, total: nat, l: Lanes<bv32>): bv32 {
    AddLength(if total >= 16 then Converged(l) else Short(seed), total)
  }

  function Finish(seed: bv32, s: State<bv32>): bv32 {
    Avalanche(Tail(Start(seed, s.total, s.lanes), s.memory))
  }

  /** The hash of the data: all whole stripes, then what is left. */
  function Hash(seed: bv32, data: seq<Byte>): bv32 {
    var k := Whole(Striping(), data);
    Finish(seed, State(|data|, Stripes(Striping(), Init(seed), data, k), data[k * 16..]))
  }

  /** What a run of calls with these pieces and a digest give; None if a call writes past the end of the buffer. */
  function Digest(seed: bv32, pieces: seq<seq<Byte>>): Option<bv32>
    requires AllSized(pieces)
  {
    var s := CalledAll(Striping(), State(0, Init(seed), []), pieces);
    if s.None? then None else Some(Finish(seed, s.value))
  }

  /**
    A stream gives the hash of all its data, however that was cut into updates, exactly if every piece, with what
    is left in the buffer before it, is shorter than 2^31 bytes.  (Behind 2^64 bytes the total length starts again
    from 0, which the digest would take for a short input if it had not yet come to a whole stripe.)
   */
  lemma StreamIsHash(seed: bv32, pieces: seq<seq<Byte>>)
    requires AllSized(pieces)
    ensures !AllFit(16, pieces) ==> Digest(seed, pieces) == None
    ensures |Flat(pieces)| < U64 || |Flat(pieces)| % U64 >= 16 ==>
      (Digest(seed, pieces) == Some(Hash(seed, Flat(pieces))) <==> AllFit(16, pieces))
    ensures var s := CalledAll(Striping(), State(0, Init(seed), []), pieces);
      s.Some? ==> s.value.total == |Flat(pieces)| % U64 && |s.value.memory| == |Flat(pieces)| % 16
  {
    hide Init, Finish, CalledAll, UpdatedAll, Stripes;
    CallsAreUpdates(Striping(), Init(seed), pieces);
    AllShows(Striping(), Init(seed), pieces);
    SameStart(seed, UpdatedAll(Striping(), State(0, Init(seed), []), pieces), |Flat(pieces)|);
  }

  lemma SameStart(seed: bv32, s: State<bv32>, n: nat)
    requires s.total == n % U64
    ensures n < U64 || n % U64 >= 16 ==> Finish(seed, s) == Finish(seed, s.(total := n))
  {
    hide Tail, Avalanche, Converged, Short, AddLength;
    LengthWraps(Converged(s.lanes), n);
    LengthWraps(Short(seed), n);
  }

  lemma LengthWraps(h: bv32, n: nat)
    ensures AddLength(h, n % U64) == AddLength(h, n)
  {
    hide Low, Plus;
    LowWraps(n);
  }

  lemma LowWraps(n: nat)
    ensures Low(n % U64) == Low(n)
  {
    hide Word;
    var q, r := Divide(n, U64);
    var k, x := Divide(r, U32);
    Quotient(n, U32, q * U32 + k, x);
  }

  /** The digest of no bytes that the xxHash specification gives. */
  lemma EmptyDigest()
    ensures Hash(0, []) == 0x02CC5D05
  {
    hide Avalanche, Stripes, Init;
    WholeIs(Striping(), [], 0);
    AvalancheOfStart();
  }

  lemma AvalancheOfStart()
    ensures Avalanche(AddLength(Short(0), 0)) == 0x02CC5D05
  {
  }

  // ---- the code

  lemma ReadShift(s: seq<Byte>, p: nat, n: nat, j: nat)
    requires p + n <= |s| && j + 4 <= n
    ensures Read(s[p..p + n], j) == Read(s, p + j)
  {
    hide Le;
  }

  lemma TailStep(h: bv32, s: seq<Byte>, p: nat)
    requires p < |s|
    ensures Tail(h, s[p..]) ==
      if p + 4 <= |s| then Tail(AddWord(h, Read(s, p)), s[p + 4..]) else Tail(AddByte(h, s[p]), s[p + 1..])
  {
    hide AddWord, AddByte, Read;
    if p + 4 <= |s| {
      ReadShift(s, p, |s| - p, 0);
      assert s[p..][4..] == s[p + 4..] && s[p..|s|] == s[p..];
    } else {
      assert s[p..][1..] == s[p + 1..];
    }
  }

  lemma TailEnd(h: bv32, s: seq<Byte>)
    requires s == []
    ensures Tail(h, s) == h
  {
  }

  /** Take in one stripe: the body of the loops, which reads at p and moves on. */
  method TakeStripe(l: Lanes<bv32>, s: seq<Byte>, p: nat) returns (r: Lanes<bv32>, q: nat)
    requires p + 16 <= |s|
    ensures r == Round(l, s[p..p + 16]) && q == p + 16
  {
    hide Lane, Read;
    ReadShift(s, p, 16, 0);
    ReadShift(s, p, 16, 4);
    ReadShift(s, p, 16, 8);
    ReadShift(s, p, 16, 12);
    q := p;
    var v1, v2, v3, v4 := l.v1, l.v2, l.v3, l.v4;
    v1 := Lane(v1, Read(s, q)); q := q + 4;
    v2 := Lane(v2, Read(s, q)); q := q + 4;
    v3 := Lane(v3, Read(s, q)); q := q + 4;
    v4 := Lane(v4, Read(s, q)); q := q + 4;
    r := Lanes(v1, v2, v3, v4);
  }

  /** Take in the stripes from p on, as long as there is a whole one. */
  method TakeStripes(l: Lanes<bv32>, s: seq<Byte>, from: nat) returns (r: Lanes<bv32>, p: nat)
    requires from <= |s|
    ensures var k := Whole(Striping(), s[from..]);
      p == from + k * 16 && r == Stripes(Striping(), l, s[from..], k)
  {
    hide Round;
    var rest, k := s[from..], 0;
    r, p := l, from;
    while p + 16 <= |s|
      invariant from <= p <= |s| && p == from + k * 16 && r == Stripes(Striping(), l, rest, k)
    {
      assert rest[k * 16..k * 16 + 16] == s[p..p + 16];
      r, p := TakeStripe(r, s, p);
      k := k + 1;
    }
    WholeIs(Striping(), rest, k);
  }

  /** The last part of both forms: the loops over words and bytes, and the avalanche. */
  method Finalize(h0: bv32, s: seq<Byte>) returns (h: bv32)
    ensures h == Avalanche(Tail(h0, s))
  {
    hide AddWord, AddByte, Avalanche, Tail, Read;
    h := h0;
    var p := 0;
    assert s[p..] == s;
    while p + 4 <= |s|
      invariant p <= |s| && Tail(h, s[p..]) == Tail(h0, s)
    {
      TailStep(h, s, p);
      h := AddWord(h, Read(s, p));
      p := p + 4;
    }
    while p < |s|
      invariant p <= |s| && |s| - p < 4 && Tail(h, s[p..]) == Tail(h0, s)
    {
      TailStep(h, s, p);
      h := AddByte(h, s[p]);
      p := p + 1;
    }
    TailEnd(h, s[p..]);
    h := Avalanche(h);
  }

  /** XXH32. */
  method OneShot(input: seq<Byte>, seed: bv32) returns (h: bv32)
    requires |input| < 0x1_0000_0000
    ensures h == Hash(seed, input)
  {
    hide Tail, Avalanche, Init, Converged, Short, AddLength;
    var h32, p := Short(seed), 0;
    if |input| >= 16 {
      var l;
      l, p := TakeStripes(Init(seed), input, 0);
      assert input[0..] == input;
      h32 := Converged(l);
    } else {
      WholeIs(Striping(), input, 0);
    }
    h32 := AddLength(h32, |input|);
    h := Finalize(h32, input[p..]);
  }

  /** The state of a stream. */
  class XxhState {
    var totalLen: nat
    var seed: bv32
    var v: Lanes<bv32>
    var memsize: nat
    const memory: array<Byte>

    ghost predicate Valid()
      reads this, memory
    {
      memory.Length == 16 && memsize < 16
    }

    ghost function Snap(): State<bv32>
      reads this, memory
      requires Valid()
    {
      State(totalLen, v, memory[..memsize])
    }

    constructor (seed: bv32)
      ensures Valid() && Snap() == State(0, Init(seed), []) && this.seed == seed && fresh(memory)
    {
      this.seed := seed;
      v := Init(seed);
      totalLen, memsize := 0, 0;
      memory := new Byte[16](_ => 0);
    }

    method Reset(seed: bv32)
      requires memory.Length == 16
      modifies this
      ensures Valid() && Snap() == State(0, Init(seed), []) && this.seed == seed
    {
      this.seed := seed;
      v := Init(seed);
      totalLen, memsize := 0, 0;
    }

    /** memcpy of n bytes of the input into the buffer. */
    method Store(at: nat, input: seq<Byte>, from: nat, n: nat)
      requires memory.Length == 16 && at + n <= 16 && from + n <= |input|
      modifies memory
      ensures memory[..at + n] == old(memory[..at]) + input[from..from + n]
    {
      forall i | 0 <= i < n { memory[at + i] := input[from + i]; }
    }

    /**
      XXH32_update, which hands its unsigned length on as an int and adds it to another; false if memcpy writes
      past the end of the buffer.
     */
    method Update(input: seq<Byte>) returns (ok: bool)
      requires Valid() && |input| < U32
      modifies this, memory
      ensures Valid() && seed == old(seed) && (ok <==> old(memsize) + |input| < HALF)
      ensures (if ok then Some(Snap()) else None) == Called(Striping(), old(Snap()), input)
    {
      hide Round, Stripes, Called;
      CalledIs(Striping(), Snap(), input);
      var len := IntOf(|input|);
      totalLen := (totalLen + len) % U64;
      if Buffered(memsize, |input|) < 16 {
        if memsize + SizeOf(len) > 16 {
          return false;
        }
        Store(memsize, input, 0, len);
        assert input[..len] == input;
        memsize := memsize + len;
        return true;
      }
      Absorb(input);
      ok := true;
    }

    /** What is left from the update before is filled up to a stripe and taken in. */
    method Empty(input: seq<Byte>) returns (p: nat)
      requires Valid() && memsize + |input| >= 16
      modifies this`v, this`memsize, memory
      ensures Valid() && memsize == 0 && p == (if old(memsize) == 0 then 0 else 16 - old(memsize)) <= |input|
      ensures v == if old(memsize) == 0 then old(v) else Round(old(v), old(memory[..memsize]) + input[..p])
    {
      hide Round;
      p := 0;
      if memsize != 0 {
        Store(memsize, input, 0, 16 - memsize);
        assert memory[..16] == memory[..] && memory[..][0..16] == memory[..];
        var q;
        v, q := TakeStripe(v, memory[..], 0);
        p := 16 - memsize;
        memsize := 0;
      }
    }

    /** The buffer is emptied, then all whole stripes are taken in, and the rest goes to the buffer. */
    method Absorb(input: seq<Byte>)
      requires Valid() && memsize + |input| >= 16
      modifies this`v, this`memsize, memory
      ensures Valid()
      ensures Snap().(total := 0) == Updated(Striping(), old(Snap()), input).(total := 0)
    {
      hide Round, Stripes, Whole;
      var p := Empty(input);
      ghost var from := p;
      v, p := TakeStripes(v, input, p);
      assert input[from..][p - from..] == input[p..];
      if p < |input| {
        Store(0, input, p, |input| - p);
        memsize := |input| - p;
      }
      assert memory[..memsize] == input[p..];
    }

    method IntermediateDigest() returns (h: bv32)
      requires Valid()
      ensures h == Finish(seed, Snap())
    {
      hide Tail, Avalanche, Converged, Short, AddLength;
      if totalLen >= 16 {
        h := Converged(v);
      } else {
        h := Short(seed);
      }
      h := AddLength(h, totalLen);
      h := Finalize(h, memory[..memsize]);
    }
  }
}
