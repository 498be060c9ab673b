/**
  Digests of XXH64 that are fixed from outside: those that the xxHash specification and its implementations agree on,
  for inputs that reach every part of the hash (a stripe, words of eight and of four bytes, single bytes), and one
  with the seed that the page cache uses.
 */
module XxVectors64 {

  import opened Basics
  import opened XxStream
  import opened XxHash64

  lemma ReadPart(a: seq<Byte>, b: seq<Byte>, c: seq<Byte>, n: nat)
    requires |a| == n && |b| == 8
    ensures Read(a + b + c, n) == Read(b, 0)
  {
    hide Join, Le;
    assert forall k :: 0 <= k < 8 ==> (a + b + c)[n + k] == b[k];
  }

  /** A stripe of four words, from its parts. */
  lemma RoundOfParts(l: Lanes<bv64>, a: seq<Byte>, b: seq<Byte>, c: seq<Byte>, d: seq<Byte>)
    requires |a| == |b| == |c| == |d| == 8
    ensures Round(l, a + b + c + d) ==
      Lanes(Lane(l.v1, Read(a, 0)), Lane(l.v2, Read(b, 0)), Lane(l.v3, Read(c, 0)), Lane(l.v4, Read(d, 0)))
  {
    hide Lane, Read;
    var s := a + b + c + d;
    assert s == [] + a + (b + c + d) == a + b + (c + d) == (a + b) + c + d == (a + b + c) + d + [];
    ReadPart([], a, b + c + d, 0);
    ReadPart(a, b, c + d, 8);
    ReadPart(a + b, c, d, 16);
    ReadPart(a + b + c, d, [], 24);
  }

  /** The hash of a stripe and less than another one. */
  lemma HashOfStripe(seed: bv64, stripe: seq<Byte>, rest: seq<Byte>)
    requires |stripe| == 32 && |rest| < 32
    ensures Hash(seed, stripe + rest) ==
      Avalanche(Tail(AddLength(Converged(Round(Init(seed), stripe)), 32 + |rest|), rest))
  {
    hide Round, Init, Converged, AddLength, Tail, Avalanche;
    var data := stripe + rest;
    WholeIs(Striping(), data, 1);
    LastStripe(Striping(), Init(seed), data, 1);
    assert data[0..32] == stripe && data[32..] == rest;
  }

  lemma HashOfLess(seed: bv64, data: seq<Byte>)
    requires |data| < 32
    ensures Hash(seed, data) == Avalanche(Tail(AddLength(Short(seed), |data|), data))
  {
    hide Init, Short, AddLength, Tail, Avalanche;
    WholeIs(Striping(), data, 0);
  }

  lemma TailWord(h: bv64, w: seq<Byte>, rest: seq<Byte>)
    requires |w| == 8
    ensures Tail(h, w + rest) == Tail(AddWord(h, Read(w, 0)), rest)
  {
    hide AddWord, Read;
    ReadPart([], w, rest, 0);
    assert [] + w + rest == w + rest && (w + rest)[8..] == rest;
  }

  lemma TailHalf(h: bv64, w: seq<Byte>, rest: seq<Byte>)
    requires |w| == 4 && |rest| < 4
    ensures Tail(h, w + rest) == Tail(AddHalf(h, Read4(w, 0)), rest)
  {
    hide AddHalf, Le;
    assert forall k :: 0 <= k < 4 ==> (w + rest)[k] == w[k];
    assert (w + rest)[4..] == rest;
  }

  lemma TailByte(h: bv64, b: Byte, rest: seq<Byte>)
    requires |rest| < 3
    ensures Tail(h, [b] + rest) == Tail(AddByte(h, b), rest)
  {
    hide AddByte;
    assert ([b] + rest)[1..] == rest;
  }

  lemma TailBytes(h: bv64, a: Byte, b: Byte, c: Byte)
    ensures Tail(h, [a, b, c]) == AddByte(AddByte(AddByte(h, a), b), c)
  {
    hide AddByte, Tail;
    assert [a, b, c] == [a] + [b, c] && [b, c] == [b] + [c] && [c] == [c] + [];
    TailByte(h, a, [b, c]);
    TailByte(AddByte(h, a), b, [c]);
    TailByte(AddByte(AddByte(h, a), b), c, []);
    TailEnd(AddByte(AddByte(AddByte(h, a), b), c), []);
  }

  // ---- one byte

  lemma OneByteRest()
    ensures AddLength(Short(0), 1) == 0x27d4eb2f165667c6 && AddByte(0x27d4eb2f165667c6, 97) == 0xb86597e419d4d215
    ensures Avalanche(0xb86597e419d4d215) == 0xd24ec4f1a98c6e5b
  {
  }

  /** "a" */
  lemma OneByte()
    ensures Hash(0, [97]) == 0xd24ec4f1a98c6e5b
  {
    hide Tail, AddLength, AddByte, Avalanche, Short, Hash;
    HashOfLess(0, [97]);
    var none: seq<Byte> := [];
    assert [97] + none == [97];
    TailByte(0x27d4eb2f165667c6, 97, none);
    TailEnd(0xb86597e419d4d215, none);
    OneByteRest();
  }

  // ---- a stripe of zeros

  const ZEROS: seq<Byte> := [0, 0, 0, 0, 0, 0, 0, 0]

  lemma ZerosLanes()
    ensures Init(0) == Lanes(0x60ea27eeadc0b5d6, 0xc2b2ae3d27d4eb4f, 0x0000000000000000, 0x61c8864e7a143579)
    ensures Lane(0x60ea27eeadc0b5d6, 0x0000000000000000) == 0x119361e2963b6d41
    ensures Lane(0xc2b2ae3d27d4eb4f, 0x0000000000000000) == 0x7f0e345be3649cd2
    ensures Lane(0x0000000000000000, 0x0000000000000000) == 0x0000000000000000
    ensures Lane(0x61c8864e7a143579, 0x0000000000000000) == 0x6d7ad2794d292f91
  {
  }

  lemma ZerosConverged()
    ensures Converged(Lanes(0x119361e2963b6d41, 0x7f0e345be3649cd2, 0x0000000000000000, 0x6d7ad2794d292f91))
      == 0xcbbfd1653baacd51
  {
    assert Rotl(0x119361e2963b6d41, 1) + Rotl(0x7f0e345be3649cd2, 7) + Rotl(0x0000000000000000, 12)
      + Rotl(0x6d7ad2794d292f91, 18) == 0xf426265b9d0af9ac;
    assert Merge(0xf426265b9d0af9ac, 0x119361e2963b6d41) == 0xb5b565ee46e817dd;
    assert Merge(0xb5b565ee46e817dd, 0x7f0e345be3649cd2) == 0x8e979dd727b1a3c2;
    assert Merge(0x8e979dd727b1a3c2, 0x0000000000000000) == 0x59737186f9ad1db1;
    assert Merge(0x59737186f9ad1db1, 0x6d7ad2794d292f91) == 0xcbbfd1653baacd51;
  }

  lemma ZerosRest()
    ensures AddLength(0xcbbfd1653baacd51, 32) == 0xcbbfd1653baacd71
    ensures Avalanche(0xcbbfd1653baacd71) == 0xf6e9be5d70632cf5
  {
  }

  lemma ZerosWords()
    ensures Read(ZEROS, 0) == 0
  {
  }

  /** 32 bytes that are 0. */
  lemma Zeros()
    ensures Hash(0, ZEROS + ZEROS + ZEROS + ZEROS) == 0xf6e9be5d70632cf5
  {
    hide Lane, Init, Round, Converged, Tail, AddLength, AddWord, AddHalf, AddByte, Avalanche, Hash, Read, Read4;
    var stripe := ZEROS + ZEROS + ZEROS + ZEROS;
    assert stripe + [] == stripe;
    HashOfStripe(0, stripe, []);
    RoundOfParts(Init(0), ZEROS, ZEROS, ZEROS, ZEROS);
    ZerosWords();
    ZerosLanes();
    ZerosConverged();
    ZerosRest();
    TailEnd(0xcbbfd1653baacd71, []);
  }

  // ---- "Nobody inspects the spammish repetition"

  const N0: seq<Byte> := [78, 111, 98, 111, 100, 121, 32, 105]  // "Nobody i"
  const N1: seq<Byte> := [110, 115, 112, 101, 99, 116, 115, 32]  // "nspects "
  const N2: seq<Byte> := [116, 104, 101, 32, 115, 112, 97, 109]  // "the spam"
  const N3: seq<Byte> := [109, 105, 115, 104, 32, 114, 101, 112]  // "mish rep"
  const N4: seq<Byte> := [101, 116, 105, 116]  // "etit"
  const N5: seq<Byte> := [105, 111, 110]  // "ion"

  lemma NobodyWords()
    ensures Read(N0, 0) == 0x692079646f626f4e
    ensures Read(N1, 0) == 0x207374636570736e
    ensures Read(N2, 0) == 0x6d61707320656874
    ensures Read(N3, 0) == 0x706572206873696d
    ensures Read4(N4, 0) == 0x0000000074697465
  {
  }

  const N_STRIPE: seq<Byte> := N0 + N1 + N2 + N3
  const N_REST: seq<Byte> := N4 + (N5)

  lemma NobodyLanes()
    ensures Init(0) == Lanes(0x60ea27eeadc0b5d6, 0xc2b2ae3d27d4eb4f, 0x0000000000000000, 0x61c8864e7a143579)
    ensures Lane(0x60ea27eeadc0b5d6, 0x692079646f626f4e) == 0x37245127a4067e4b
    ensures Lane(0xc2b2ae3d27d4eb4f, 0x207374636570736e) == 0x1b302b0a818f92cf
    ensures Lane(0x0000000000000000, 0x6d61707320656874) == 0xcd62d843d0580fca
    ensures Lane(0x61c8864e7a143579, 0x706572206873696d) == 0x1c16e43ef2142a4a
  {
  }

  lemma NobodyConverged()
    ensures Converged(Lanes(0x37245127a4067e4b, 0x1b302b0a818f92cf, 0xcd62d843d0580fca, 0x1c16e43ef2142a4a))
      == 0x84f22c421a11a8b5
  {
    assert Rotl(0x37245127a4067e4b, 1) + Rotl(0x1b302b0a818f92cf, 7) + Rotl(0xcd62d843d0580fca, 12)
      + Rotl(0x1c16e43ef2142a4a, 18) == 0xc4de2ce639fb8154;
    assert Merge(0xc4de2ce639fb8154, 0x37245127a4067e4b) == 0x30d40ddd00aea144;
    assert Merge(0x30d40ddd00aea144, 0x1b302b0a818f92cf) == 0xe5a1f095bf498698;
    assert Merge(0xe5a1f095bf498698, 0xcd62d843d0580fca) == 0xf9cee721e748096d;
    assert Merge(0xf9cee721e748096d, 0x1c16e43ef2142a4a) == 0x84f22c421a11a8b5;
  }

  lemma NobodyRest()
    ensures AddLength(0x84f22c421a11a8b5, 39) == 0x84f22c421a11a8dc
    ensures AddHalf(0x84f22c421a11a8dc, 0x0000000074697465) == 0x9fca0f5d0aaa110f
    ensures AddByte(0x9fca0f5d0aaa110f, 105) == 0x769671546f21ba14
    ensures AddByte(0x769671546f21ba14, 111) == 0xeae9b643c5f94e52
    ensures AddByte(0xeae9b643c5f94e52, 110) == 0x1d0a47483b37cc24
    ensures Avalanche(0x1d0a47483b37cc24) == 0xfbcea83c8a378bf1
  {
  }

  /** A stripe, a word of four, and three bytes. */
  lemma Nobody()
    ensures Hash(0, N_STRIPE + N_REST) == 0xfbcea83c8a378bf1
  {
    hide Lane, Init, Round, Converged, Tail, AddLength, AddWord, AddHalf, AddByte, Avalanche, Hash, Read, Read4;
    HashOfStripe(0, N_STRIPE, N_REST);
    RoundOfParts(Init(0), N0, N1, N2, N3);
    NobodyWords();
    NobodyLanes();
    NobodyConverged();
    NobodyRest();
    TailHalf(0x84f22c421a11a8dc, N4, N5);
    TailBytes(0x9fca0f5d0aaa110f, 105, 111, 110);
  }

  // ---- "Call me Ishmael. Some years ago--never mind how long precisely-"

  const I0: seq<Byte> := [67, 97, 108, 108, 32, 109, 101, 32]  // "Call me "
  const I1: seq<Byte> := [73, 115, 104, 109, 97, 101, 108, 46]  // "Ishmael."
  const I2: seq<Byte> := [32, 83, 111, 109, 101, 32, 121, 101]  // " Some ye"
  const I3: seq<Byte> := [97, 114, 115, 32, 97, 103, 111, 45]  // "ars ago-"
  const I4: seq<Byte> := [45, 110, 101, 118, 101, 114, 32, 109]  // "-never m"
  const I5: seq<Byte> := [105, 110, 100, 32, 104, 111, 119, 32]  // "ind how "
  const I6: seq<Byte> := [108, 111, 110, 103, 32, 112, 114, 101]  // "long pre"
  const I7: seq<Byte> := [99, 105, 115, 101]  // "cise"
  const I8: seq<Byte> := [108, 121, 45]  // "ly-"

  lemma IshmaelWords()
    ensures Read(I0, 0) == 0x20656d206c6c6143
    ensures Read(I1, 0) == 0x2e6c65616d687349
    ensures Read(I2, 0) == 0x657920656d6f5320
    ensures Read(I3, 0) == 0x2d6f676120737261
    ensures Read(I4, 0) == 0x6d20726576656e2d
    ensures Read(I5, 0) == 0x20776f6820646e69
    ensures Read(I6, 0) == 0x65727020676e6f6c
    ensures Read4(I7, 0) == 0x0000000065736963
  {
  }

  const I_STRIPE: seq<Byte> := I0 + I1 + I2 + I3
  const I_REST: seq<Byte> := I4 + (I5 + (I6 + (I7 + (I8))))

  lemma IshmaelLanes()
    ensures Init(0) == Lanes(0x60ea27eeadc0b5d6, 0xc2b2ae3d27d4eb4f, 0x0000000000000000, 0x61c8864e7a143579)
    ensures Lane(0x60ea27eeadc0b5d6, 0x20656d206c6c6143) == 0x670b8618b3aa2200
    ensures Lane(0xc2b2ae3d27d4eb4f, 0x2e6c65616d687349) == 0xfc3ff3c0203bc028
    ensures Lane(0x0000000000000000, 0x657920656d6f5320) == 0x9677e9e66681d852
    ensures Lane(0x61c8864e7a143579, 0x2d6f676120737261) == 0xda7d9aafd0c02036
  {
  }

  lemma IshmaelConverged()
    ensures Converged(Lanes(0x670b8618b3aa2200, 0xfc3ff3c0203bc028, 0x9677e9e66681d852, 0xda7d9aafd0c02036))
      == 0xb89f94801d165f2a
  {
    assert Rotl(0x670b8618b3aa2200, 1) + Rotl(0xfc3ff3c0203bc028, 7) + Rotl(0x9677e9e66681d852, 12)
      + Rotl(0xda7d9aafd0c02036, 18) == 0xd76e95aa2394ebdb;
    assert Merge(0xd76e95aa2394ebdb, 0x670b8618b3aa2200) == 0xd9cecbcfab49c481;
    assert Merge(0xd9cecbcfab49c481, 0xfc3ff3c0203bc028) == 0x6ee1a8bee73b84e1;
    assert Merge(0x6ee1a8bee73b84e1, 0x9677e9e66681d852) == 0x96b73aab55d70966;
    assert Merge(0x96b73aab55d70966, 0xda7d9aafd0c02036) == 0xb89f94801d165f2a;
  }

  lemma IshmaelRest()
    ensures AddLength(0xb89f94801d165f2a, 63) == 0xb89f94801d165f69
    ensures AddWord(0xb89f94801d165f69, 0x6d20726576656e2d) == 0x0c718c0cf5ec8337
    ensures AddWord(0x0c718c0cf5ec8337, 0x20776f6820646e69) == 0xdda50d5890eef8d0
    ensures AddWord(0xdda50d5890eef8d0, 0x65727020676e6f6c) == 0xe2e40ebea20f90ff
    ensures AddHalf(0xe2e40ebea20f90ff, 0x0000000065736963) == 0x2bca5f8585968679
    ensures AddByte(0x2bca5f8585968679, 108) == 0x165849e44031c250
    ensures AddByte(0x165849e44031c250, 121) == 0x9669659c916e30c9
    ensures AddByte(0x9669659c916e30c9, 45) == 0x7166e938ea5418d0
    ensures Avalanche(0x7166e938ea5418d0) == 0x02a2e85470d6fd96
  {
  }

  /** A stripe, three words of eight, one of four, and three bytes. */
  lemma Ishmael()
    ensures Hash(0, I_STRIPE + I_REST) == 0x02a2e85470d6fd96
  {
    hide Lane, Init, Round, Converged, Tail, AddLength, AddWord, AddHalf, AddByte, Avalanche, Hash, Read, Read4;
    HashOfStripe(0, I_STRIPE, I_REST);
    RoundOfParts(Init(0), I0, I1, I2, I3);
    IshmaelWords();
    IshmaelLanes();
    IshmaelConverged();
    IshmaelRest();
    TailWord(0xb89f94801d165f69, I4, I5 + (I6 + (I7 + (I8))));
    TailWord(0x0c718c0cf5ec8337, I5, I6 + (I7 + (I8)));
    TailWord(0xdda50d5890eef8d0, I6, I7 + (I8));
    TailHalf(0xe2e40ebea20f90ff, I7, I8);
    TailBytes(0x2bca5f8585968679, 108, 121, 45);
  }

  lemma SeededLanes()
    ensures Init(0xaabbacaca) == Lanes(0x60ea27f9597b80a0, 0xc2b2ae47d38fb619, 0x0000000aabbacaca, 0x61c8865925cf0043)
    ensures Lane(0x60ea27f9597b80a0, 0x20656d206c6c6143) == 0x049a10d3514516a3
    ensures Lane(0xc2b2ae47d38fb619, 0x2e6c65616d687349) == 0x3805f82c43c27f52
    ensures Lane(0x0000000aabbacaca, 0x657920656d6f5320) == 0x340674a1041cccf5
    ensures Lane(0x61c8865925cf0043, 0x2d6f676120737261) == 0x16439f1bf446df60
  {
  }

  lemma SeededConverged()
    ensures Converged(Lanes(0x049a10d3514516a3, 0x3805f82c43c27f52, 0x340674a1041cccf5, 0x16439f1bf446df60))
      == 0xd66af6bd99b46024
  {
    assert Rotl(0x049a10d3514516a3, 1) + Rotl(0x3805f82c43c27f52, 7) + Rotl(0x340674a1041cccf5, 12)
      + Rotl(0x16439f1bf446df60, 18) == 0xefea1925ce1982b0;
    assert Merge(0xefea1925ce1982b0, 0x049a10d3514516a3) == 0xc0d0a43cd761207b;
    assert Merge(0xc0d0a43cd761207b, 0x3805f82c43c27f52) == 0xa49e9fba4d5af632;
    assert Merge(0xa49e9fba4d5af632, 0x340674a1041cccf5) == 0x84c199c889ebc4ea;
    assert Merge(0x84c199c889ebc4ea, 0x16439f1bf446df60) == 0xd66af6bd99b46024;
  }

  lemma SeededRest()
    ensures AddLength(0xd66af6bd99b46024, 63) == 0xd66af6bd99b46063
    ensures AddWord(0xd66af6bd99b46063, 0x6d20726576656e2d) == 0x6cdee13eeeb5152e
    ensures AddWord(0x6cdee13eeeb5152e, 0x20776f6820646e69) == 0xef84ea6e9781b471
    ensures AddWord(0xef84ea6e9781b471, 0x65727020676e6f6c) == 0xeb402be43325680e
    ensures AddHalf(0xeb402be43325680e, 0x0000000065736963) == 0x60bc12dec4a4a407
    ensures AddByte(0x60bc12dec4a4a407, 108) == 0xe33894c5210c316d
    ensures AddByte(0xe33894c5210c316d, 121) == 0xf72f3396378f749c
    ensures AddByte(0xf72f3396378f749c, 45) == 0xbd8ec75a05e42f16
    ensures Avalanche(0xbd8ec75a05e42f16) == 0xf6c3e92d185c3d54
  {
  }

  /** The same text with the seed of the page cache. */
  lemma Seeded()
    ensures Hash(0xaabbacaca, I_STRIPE + I_REST) == 0xf6c3e92d185c3d54
  {
    hide Lane, Init, Round, Converged, Tail, AddLength, AddWord, AddHalf, AddByte, Avalanche, Hash, Read, Read4;
    HashOfStripe(0xaabbacaca, I_STRIPE, I_REST);
    RoundOfParts(Init(0xaabbacaca), I0, I1, I2, I3);
    IshmaelWords();
    SeededLanes();
    SeededConverged();
    SeededRest();
    TailWord(0xd66af6bd99b46063, I4, I5 + (I6 + (I7 + (I8))));
    TailWord(0x6cdee13eeeb5152e, I5, I6 + (I7 + (I8)));
    TailWord(0xef84ea6e9781b471, I6, I7 + (I8));
    TailHalf(0xeb402be43325680e, I7, I8);
    TailBytes(0x60bc12dec4a4a407, 108, 121, 45);
  }
}
