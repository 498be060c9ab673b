/**
  Digests of XXH32 that are fixed from outside, for inputs that reach every part of the hash: two stripes, a word and
  single bytes, and another seed.
 */
module XxVectors32 {

  import opened Basics
  import opened XxStream
  import opened XxHash32

  lemma ReadPart(a: seq<Byte>, b: seq<Byte>, c: seq<Byte>, n: nat)
    requires |a| == n && |b| == 4
    ensures Read(a + b + c, n) == Read(b, 0)
  {
    hide Le;
    assert forall k :: 0 <= k < 4 ==> (a + b + c)[n + k] == b[k];
  }

  /** A stripe of four words, from its parts. */
  lemma RoundOfParts(l: Lanes<bv32>, a: seq<Byte>, b: seq<Byte>, c: seq<Byte>, d: seq<Byte>)
    requires |a| == |b| == |c| == |d| == 4
    ensures Round(l, a + b + c + d) ==
      Lanes(Lane(l.v1, Read(a, 0)), Lane(l.v2, Read(b, 0)), Lane(l.v3, Read(c, 0)), Lane(l.v4, Read(d, 0)))
  {
    hide Lane, Read;
    var s := a + b + c + d;
    assert s == [] + a + (b + c + d) == a + b + (c + d) == (a + b) + c + d == (a + b + c) + d + [];
    ReadPart([], a, b + c + d, 0);
    ReadPart(a, b, c + d, 4);
    ReadPart(a + b, c, d, 8);
    ReadPart(a + b + c, d, [], 12);
  }

  /** The hash of two stripes and less than another one. */
  lemma HashOfStripes(seed: bv32, first: seq<Byte>, second: seq<Byte>, rest: seq<Byte>)
    requires |first| == |second| == 16 && |rest| < 16
    ensures Hash(seed, first + second + rest) ==
      Avalanche(Tail(AddLength(Converged(Round(Round(Init(seed), first), second)), 32 + |rest|), rest))
  {
    hide Round, Init, Converged, AddLength, Tail, Avalanche, Stripes;
    var data := first + second + rest;
    WholeIs(Striping(), data, 2);
    TwoStripes(Init(seed), data);
    assert data[..16] == first && data[16..32] == second && data[32..] == rest;
  }

  lemma TwoStripes(l: Lanes<bv32>, data: seq<Byte>)
    requires |data| >= 32
    ensures Stripes(Striping(), l, data, 2) == Round(Round(l, data[..16]), data[16..32])
  {
    hide Round;
    LastStripe(Striping(), l, data, 2);
    LastStripe(Striping(), l, data, 1);
  }

  lemma HashOfLess(seed: bv32, data: seq<Byte>)
    requires |data| < 16
    ensures Hash(seed, data) == Avalanche(Tail(AddLength(Short(seed), |data|), data))
  {
    hide Init, Short, AddLength, Tail, Avalanche;
    WholeIs(Striping(), data, 0);
  }

  lemma TailWord(h: bv32, w: seq<Byte>, rest: seq<Byte>)
    requires |w| == 4
    ensures Tail(h, w + rest) == Tail(AddWord(h, Read(w, 0)), rest)
  {
    hide AddWord, Read;
    ReadPart([], w, rest, 0);
    assert [] + w + rest == w + rest && (w + rest)[4..] == rest;
  }

  lemma TailByte(h: bv32, b: Byte, rest: seq<Byte>)
    requires |rest| < 3
    ensures Tail(h, [b] + rest) == Tail(AddByte(h, b), rest)
  {
    hide AddByte;
    assert ([b] + rest)[1..] == rest;
  }

  lemma TailBytes(h: bv32, a: Byte, b: Byte, c: Byte)
    ensures Tail(h, [a, b, c]) == AddByte(AddByte(AddByte(h, a), b), c)
  {
    hide AddByte, Tail;
    assert [a, b, c] == [a] + [b, c] && [b, c] == [b] + [c] && [c] == [c] + [];
    TailByte(h, a, [b, c]);
    TailByte(AddByte(h, a), b, [c]);
    TailByte(AddByte(AddByte(h, a), b), c, []);
    TailEnd(AddByte(AddByte(AddByte(h, a), b), c), []);
  }

  // ---- one byte

  lemma OneByteRest()
    ensures AddLength(Short(0), 1) == 0x165667b2 && AddByte(0x165667b2, 97) == 0x6506cbe8
    ensures Avalanche(0x6506cbe8) == 0x550d7456
  {
  }

  /** "a" */
  lemma OneByte()
    ensures Hash(0, [97]) == 0x550d7456
  {
    hide Tail, AddLength, AddByte, Avalanche, Short, Hash;
    HashOfLess(0, [97]);
    var none: seq<Byte> := [];
    assert [97] + none == [97];
    TailByte(0x165667b2, 97, none);
    TailEnd(0x6506cbe8, none);
    OneByteRest();
  }

  // ---- "Nobody inspects the spammish repetition"

  const N0: seq<Byte> := [78, 111, 98, 111]  // "Nobo"
  const N1: seq<Byte> := [100, 121, 32, 105]  // "dy i"
  const N2: seq<Byte> := [110, 115, 112, 101]  // "nspe"
  const N3: seq<Byte> := [99, 116, 115, 32]  // "cts "
  const N4: seq<Byte> := [116, 104, 101, 32]  // "the "
  const N5: seq<Byte> := [115, 112, 97, 109]  // "spam"
  const N6: seq<Byte> := [109, 105, 115, 104]  // "mish"
  const N7: seq<Byte> := [32, 114, 101, 112]  // " rep"
  const N8: seq<Byte> := [101, 116, 105, 116]  // "etit"
  const N9: seq<Byte> := [105, 111, 110]  // "ion"

  lemma NobodyWords()
    ensures Read(N0, 0) == 0x6f626f4e
    ensures Read(N1, 0) == 0x69207964
    ensures Read(N2, 0) == 0x6570736e
    ensures Read(N3, 0) == 0x20737463
    ensures Read(N4, 0) == 0x20656874
    ensures Read(N5, 0) == 0x6d617073
    ensures Read(N6, 0) == 0x6873696d
    ensures Read(N7, 0) == 0x70657220
    ensures Read(N8, 0) == 0x74697465
  {
  }

  const N_FIRST: seq<Byte> := N0 + N1 + N2 + N3
  const N_SECOND: seq<Byte> := N4 + N5 + N6 + N7
  const N_REST: seq<Byte> := N8 + N9

  lemma NobodyLanes()
    ensures Init(0) == Lanes(0x24234428, 0x85ebca77, 0x00000000, 0x61c8864f)
    ensures Lane(0x24234428, 0x6f626f4e) == 0x046a700a
    ensures Lane(0x85ebca77, 0x69207964) == 0xbfadf8e3
    ensures Lane(0x00000000, 0x6570736e) == 0x5b32b4aa
    ensures Lane(0x61c8864f, 0x20737463) == 0x137e5555
    ensures Lane(0x046a700a, 0x20656874) == 0x719a836e
    ensures Lane(0xbfadf8e3, 0x6d617073) == 0x514c1de8
    ensures Lane(0x5b32b4aa, 0x6873696d) == 0x97fa4ba2
    ensures Lane(0x137e5555, 0x70657220) == 0x242a97a2
    ensures Converged(Lanes(0x719a836e, 0x514c1de8, 0x97fa4ba2, 0x242a97a2)) == 0x8c86b52d
  {
  }

  lemma NobodyRest()
    ensures AddLength(0x8c86b52d, 39) == 0x8c86b554
    ensures AddWord(0x8c86b554, 0x74697465) == 0x09b51544
    ensures AddByte(0x09b51544, 105) == 0xcdefd3c9
    ensures AddByte(0xcdefd3c9, 111) == 0x3852087b
    ensures AddByte(0x3852087b, 110) == 0xb3a7011b
    ensures Avalanche(0xb3a7011b) == 0xe2293b2f
  {
  }

  /** Two stripes, a word and three bytes. */
  lemma Nobody()
    ensures Hash(0, N_FIRST + N_SECOND + N_REST) == 0xe2293b2f
  {
    hide Lane, Init, Round, Converged, Tail, AddLength, AddWord, AddByte, Avalanche, Hash, Read;
    HashOfStripes(0, N_FIRST, N_SECOND, N_REST);
    RoundOfParts(Init(0), N0, N1, N2, N3);
    RoundOfParts(Lanes(0x046a700a, 0xbfadf8e3, 0x5b32b4aa, 0x137e5555), N4, N5, N6, N7);
    NobodyWords();
    NobodyLanes();
    NobodyRest();
    TailWord(0x8c86b554, N8, N9);
    TailBytes(0x09b51544, 105, 111, 110);
  }

  lemma SeededLanes()
    ensures Init(0xabbacaca) == Lanes(0xcfde0ef2, 0x31a69541, 0xabbacaca, 0x0d835119)
    ensures Lane(0xcfde0ef2, 0x6f626f4e) == 0xd324c651
    ensures Lane(0x31a69541, 0x69207964) == 0x9f322f2a
    ensures Lane(0xabbacaca, 0x6570736e) == 0x3ab6eaf1
    ensures Lane(0x0d835119, 0x20737463) == 0xf3028b9c
    ensures Lane(0xd324c651, 0x20656874) == 0x94a0c015
    ensures Lane(0x9f322f2a, 0x6d617073) == 0x70e81889
    ensures Lane(0x3ab6eaf1, 0x6873696d) == 0xb7964643
    ensures Lane(0xf3028b9c, 0x70657220) == 0xa58f1892
    ensures Converged(Lanes(0x94a0c015, 0x70e81889, 0xb7964643, 0xa58f1892)) == 0x63fc9698
  {
  }

  lemma SeededRest()
    ensures AddLength(0x63fc9698, 39) == 0x63fc96bf
    ensures AddWord(0x63fc96bf, 0x74697465) == 0x9e1deb69
    ensures AddByte(0x9e1deb69, 105) == 0x9d8dbb7c
    ensures AddByte(0x9d8dbb7c, 111) == 0x38e329e8
    ensures AddByte(0x38e329e8, 110) == 0x47c74990
    ensures Avalanche(0x47c74990) == 0x4e2fa8bb
  {
  }

  /** The same text with another seed. */
  lemma Seeded()
    ensures Hash(0xabbacaca, N_FIRST + N_SECOND + N_REST) == 0x4e2fa8bb
  {
    hide Lane, Init, Round, Converged, Tail, AddLength, AddWord, AddByte, Avalanche, Hash, Read;
    HashOfStripes(0xabbacaca, N_FIRST, N_SECOND, N_REST);
    RoundOfParts(Init(0xabbacaca), N0, N1, N2, N3);
    RoundOfParts(Lanes(0xd324c651, 0x9f322f2a, 0x3ab6eaf1, 0xf3028b9c), N4, N5, N6, N7);
    NobodyWords();
    SeededLanes();
    SeededRest();
    TailWord(0x63fc96bf, N8, N9);
    TailBytes(0x9e1deb69, 105, 111, 110);
  }
}
