/**
  A set of page numbers from 1 to iSize: a flat bitmap if iSize is small, otherwise a hash table, which
  splits into sub-bitmaps when it gets full.
 */
module Bitvec {

  import opened Basics
  import opened BitvecHash

  const NELEM := 496          // bytes of a bitmap leaf
  const NBIT := 3968          // bits of a bitmap leaf
  const NPTR := 62            // sub-bitmaps of a split node

  // ---- bits of a byte

  function Mask(k: nat): bv8
    requires k < 8
  {
    match k
    case 0 => 1 case 1 => 2 case 2 => 4 case 3 => 8 case 4 => 16 case 5 => 32 case 6 => 64 case _ => 128
  }

  predicate Bit(b: bv8, k: nat)
    requires k < 8
  {
    b & Mask(k) != 0
  }

  lemma MaskBits(b: bv8, k: nat, m: nat)
    requires k < 8 && m < 8
    ensures Bit(b | Mask(k), m) <==> m == k || Bit(b, m)
    ensures Bit(b & !Mask(k), m) <==> m != k && Bit(b, m)
  {
  }

  /** Bit v, counted from 1, of a bitmap. */
  predicate BitAt(a: seq<bv8>, v: nat)
    requires |a| == NELEM && 1 <= v <= NBIT
  {
    Bit(a[(v - 1) / 8], (v - 1) % 8)
  }

  function WithBit(a: seq<bv8>, i: nat): (r: seq<bv8>)
    requires |a| == NELEM && 1 <= i <= NBIT
    ensures |r| == NELEM
  {
    a[(i - 1) / 8 := a[(i - 1) / 8] | Mask((i - 1) % 8)]
  }

  function WithoutBit(a: seq<bv8>, i: nat): (r: seq<bv8>)
    requires |a| == NELEM && 1 <= i <= NBIT
    ensures |r| == NELEM
  {
    a[(i - 1) / 8 := a[(i - 1) / 8] & !Mask((i - 1) % 8)]
  }

  /** Setting or clearing a bit of a bitmap leaves all others. */
  lemma BitsAfter(a: seq<bv8>, i: nat, v: nat)
    requires |a| == NELEM && 1 <= i <= NBIT && 1 <= v <= NBIT
    ensures BitAt(WithBit(a, i), v) <==> v == i || BitAt(a, v)
    ensures BitAt(WithoutBit(a, i), v) <==> v != i && BitAt(a, v)
  {
    hide Mask, Bit;
    MaskBits(a[(i - 1) / 8], (i - 1) % 8, (v - 1) % 8);
    assert v == i <==> (v - 1) / 8 == (i - 1) / 8 && (v - 1) % 8 == (i - 1) % 8;
  }

  // ---- the sub-bitmaps of a split node

  function Divisor(size: nat): nat {
    (size + NPTR - 1) / NPTR
  }

  /** Value v goes to sub-bitmap Bin as value Rest. */
  function Bin(v: nat, d: nat): nat
    requires v > 0 && d > 0
  {
    (v - 1) / d
  }

  function Rest(v: nat, d: nat): nat
    requires v > 0 && d > 0
  {
    (v - 1) % d + 1
  }

  /** The sub-bitmaps cover all values, keep them apart, and are smaller. */
  lemma Covered(size: nat, v: nat)
    requires NBIT < size && 1 <= v <= size
    ensures 0 < Divisor(size) < size
    ensures Bin(v, Divisor(size)) < NPTR && 1 <= Rest(v, Divisor(size)) <= Divisor(size)
  {
    var d := Divisor(size);
    var q := (v - 1) / d;
    assert d * NPTR >= size;
    assert q * d <= v - 1;
    assert q >= NPTR ==> q * d >= NPTR * d;
  }

  /** No smaller sub-bitmaps would do. */
  lemma DivisorIsLeast(size: nat, d: nat)
    ensures d * NPTR >= size <==> d >= Divisor(size)
  {
  }

  /** The sizes of the parts of a node of 512 bytes, three words of which are its header. */
  lemma NodeSizes()
    ensures NELEM == (512 - 3 * 4) / 8 * 8 && NBIT == 8 * NELEM && NPTR == NELEM / 8
    ensures NINT == NELEM / 4 && MXHASH == NINT / 2
  {
  }

  lemma BinRest(v: nat, d: nat)
    requires d > 0 && v > 0
    ensures Bin(v, d) == (v - 1) / d && Rest(v, d) == (v - 1) % d + 1
  {
  }

  lemma Apart(d: nat, v: nat, w: nat)
    requires d > 0 && v > 0 && w > 0 && Bin(v, d) == Bin(w, d) && Rest(v, d) == Rest(w, d)
    ensures v == w
  {
    assert v - 1 == (v - 1) / d * d + (v - 1) % d;
    assert w - 1 == (w - 1) / d * d + (w - 1) % d;
  }

  // ---- the bitvec

  class Bitvec {
    const iSize: nat
    var nSet: nat
    var iDivisor: nat
    // the three members of the union; which one is in use follows from iSize and iDivisor
    var aBitmap: seq<bv8>
    var aHash: Slots
    var apSub: seq<Bitvec?>

    ghost var contents: set<nat>
    ghost var repr: set<Bitvec>

    ghost predicate Valid()
      reads this, repr
      decreases repr
    {
      && this in repr && |aBitmap| == NELEM && |apSub| == NPTR
      && (forall v :: v in contents ==> 1 <= v <= iSize)
      && if iSize <= NBIT then BitmapValid()
         else if iDivisor == 0 then HashValid()
         else Subs() && SubsHold()
    }

    ghost predicate BitmapValid()
      reads this
      requires |aBitmap| == NELEM && iSize <= NBIT
    {
      iDivisor == 0 && forall v :: 1 <= v <= iSize ==> (v in contents <==> BitAt(aBitmap, v))
    }

    ghost predicate HashValid()
      reads this
    {
      Probed(aHash) && nSet == Count(aHash) < NINT && forall v :: v in contents <==> v > 0 && v in aHash
    }

    ghost predicate Subs()
      reads this, repr
      requires this in repr && |apSub| == NPTR
      decreases repr, 0
    {
      && iDivisor == Divisor(iSize)
      && (forall k :: 0 <= k < NPTR && apSub[k] != null ==>
        && apSub[k] in repr && apSub[k] in apSub[k].repr && apSub[k].repr <= repr && this !in apSub[k].repr
        && apSub[k].iSize == iDivisor && apSub[k].Valid())
      && (forall j, k :: 0 <= j < NPTR && 0 <= k < NPTR && j != k && apSub[j] != null && apSub[k] != null ==>
        apSub[j].repr !! apSub[k].repr)
    }

    /** Value v is in the sub-bitmap it belongs to. */
    ghost predicate InSub(v: nat)
      reads this, apSub
      requires |apSub| == NPTR && NBIT < iSize && iDivisor == Divisor(iSize) && 1 <= v <= iSize
    {
      Covered(iSize, v);
      apSub[Bin(v, iDivisor)] != null && Rest(v, iDivisor) in apSub[Bin(v, iDivisor)].contents
    }

    ghost predicate SubsHold()
      reads this, apSub
      requires |apSub| == NPTR && NBIT < iSize && iDivisor == Divisor(iSize)
    {
      forall v :: 1 <= v <= iSize ==> (v in contents <==> InSub(v))
    }

    constructor (iSize: nat)
      ensures Valid() && fresh(repr) && this.iSize == iSize && contents == {}
    {
      this.iSize := iSize;
      nSet, iDivisor := 0, 0;
      aBitmap, aHash, apSub := seq(NELEM, _ => 0), seq(NINT, _ => 0), seq(NPTR, _ => null);
      contents, repr := {}, {this};
      CountZeros(NINT);
    }

    /** Test whether bit i is set; no i is out of range. */
    method TestNotNull(i: nat) returns (r: bool)
      requires Valid() && iSize < U32 && i < U32
      ensures r <==> i in contents
    {
      var v: nat := (i + U32 - 1) % U32;
      if v >= iSize { return false; }
      var p: Bitvec := this;
      while p.iDivisor != 0
        invariant p.Valid() && v < p.iSize && (i in contents <==> v + 1 in p.contents)
        decreases p.repr
      {
        Covered(p.iSize, v + 1);
        assert p.InSub(v + 1) <==> v + 1 in p.contents;
        assert Bin(v + 1, p.iDivisor) == v / p.iDivisor && Rest(v + 1, p.iDivisor) == v % p.iDivisor + 1;
        var bin := v / p.iDivisor;
        v := v % p.iDivisor;
        var sub := p.apSub[bin];
        if sub == null { return false; }
        p := sub;
      }
      if p.iSize <= NBIT {
        return p.aBitmap[v / 8] & Mask(v % 8) != 0;
      }
      var h, found := p.Probe(v + 1);
      return found;
    }

    /** Follow the way of v in a hash leaf to v itself, or to the first empty slot. */
    method Probe(v: nat) returns (h: nat, found: bool)
      requires HashValid() && v > 0
      ensures found <==> v in contents
      ensures h < NINT
      ensures !found ==> var k := Steps(Home(v), h); aHash[h] == 0 && Walked(aHash, v, k)
    {
      ghost var e := EmptySlot(aHash);
      ghost var m, k := Steps(Home(v), e), 0;
      h := Home(v);
      while aHash[h] != 0
        invariant 0 <= k <= m && h == At(Home(v), k) && Walked(aHash, v, k)
        decreases m - k
      {
        if aHash[h] == v { return h, true; }
        h := if h + 1 >= NINT then 0 else h + 1;
        k := k + 1;
      }
      Absent(aHash, v, k);
      found := false;
    }

    /** Store i in an empty slot that probing reaches. */
    method Put(h: nat, i: nat)
      requires Valid() && NBIT < iSize && iDivisor == 0 && nSet < NINT - 1
      requires 1 <= i <= iSize && h < NINT && aHash[h] == 0 && Walked(aHash, i, Steps(Home(i), h))
      modifies this
      ensures Valid() && repr == old(repr) && contents == old(contents) + {i}
      ensures nSet == old(nSet) + 1 && iDivisor == 0
    {
      PutProbed(aHash, i, Steps(Home(i), h));
      CountPut(aHash, h, i);
      nSet := nSet + 1;
      aHash := aHash[h := i];
      contents := contents + {i};
      forall v ensures v in contents <==> v > 0 && v in aHash {
        if v in old(aHash) && v > 0 {
          var g :| 0 <= g < NINT && old(aHash)[g] == v;
          assert aHash[g] == v;
        }
        assert aHash[h] == i;
      }
    }

    /** Set bit i. */
    method Set(i: nat)
      requires Valid() && 1 <= i <= iSize
      modifies repr
      ensures Valid() && fresh(repr - old(repr)) && contents == old(contents) + {i}
      ensures old(iDivisor) != 0 ==> iDivisor == old(iDivisor)
      decreases iSize, if iDivisor == 0 then 1 else 0, 1
    {
      if iSize > NBIT && iDivisor != 0 {
        SetSub(i);
      } else if iSize <= NBIT {
        SetBit(i);
      } else {
        SetHash(i);
      }
    }

    method SetBit(i: nat)
      requires Valid() && 1 <= i <= iSize <= NBIT
      modifies this
      ensures Valid() && repr == old(repr) && contents == old(contents) + {i}
    {
      hide BitAt, Mask, WithBit;
      forall v | 1 <= v <= iSize ensures BitAt(WithBit(aBitmap, i), v) <==> v == i || BitAt(aBitmap, v) {
        BitsAfter(aBitmap, i, v);
      }
      aBitmap := WithBit(aBitmap, i);
      contents := contents + {i};
    }

    /** Set bit i in a split node, which makes the sub-bitmap for it if there is none. */
    method SetSub(i: nat)
      requires Valid() && 1 <= i <= iSize && NBIT < iSize && iDivisor != 0
      modifies repr
      ensures Valid() && fresh(repr - old(repr)) && contents == old(contents) + {i} && iDivisor == old(iDivisor)
      decreases iSize, 0, 0, 1
    {
      Covered(iSize, i);
      var bin, rest := (i - 1) / iDivisor, (i - 1) % iDivisor;
      if apSub[bin] == null {
        MakeSub(bin);
      }
      SetIn(i, bin, rest);
    }

    /** An empty sub-bitmap for values that were not there. */
    method MakeSub(bin: nat)
      requires Valid() && NBIT < iSize && iDivisor != 0 && bin < NPTR && apSub[bin] == null
      modifies this
      ensures Valid() && fresh(repr - old(repr)) && contents == old(contents) && iDivisor != 0
      ensures apSub[bin] != null
    {
      var sub := new Bitvec(iDivisor);
      apSub := apSub[bin := sub];
      repr := repr + sub.repr;
      forall v | 1 <= v <= iSize ensures v in contents <==> InSub(v) {
        Covered(iSize, v);
        assert v in old(contents) <==> old(InSub(v));
      }
    }

    method SetIn(i: nat, bin: nat, rest: nat)
      requires Valid() && 1 <= i <= iSize && NBIT < iSize && iDivisor != 0 
      requires bin < NPTR && bin == Bin(i, iDivisor) && rest + 1 == Rest(i, iDivisor) && apSub[bin] != null
      modifies repr
      ensures Valid() && fresh(repr - old(repr)) && contents == old(contents) + {i} && iDivisor == old(iDivisor)
      decreases iSize, 0, 0, 0
    {
      hide Valid, Divisor, Bin, Rest;
      Unfold();
      Covered(iSize, i);
      var sub: Bitvec := apSub[bin];
      sub.Set(rest + 1);
      repr := repr + sub.repr;
      contents := contents + {i};
      forall v | 1 <= v <= iSize ensures v in contents <==> InSub(v) {
        Covered(iSize, v);
        assert v in old(contents) <==> old(InSub(v));
        if Bin(v, iDivisor) == bin && Rest(v, iDivisor) == rest + 1 {
          Apart(iDivisor, v, i);
        }
      }
      Fold();
    }

    lemma Unfold()
      requires Valid() && NBIT < iSize && iDivisor != 0
      ensures this in repr && |aBitmap| == NELEM && |apSub| == NPTR
      ensures (forall v :: v in contents ==> 1 <= v <= iSize) && Subs() && SubsHold()
    {
    }

    lemma Fold()
      requires this in repr && |aBitmap| == NELEM && |apSub| == NPTR && NBIT < iSize && iDivisor != 0
      requires (forall v :: v in contents ==> 1 <= v <= iSize) && Subs() && SubsHold()
      ensures Valid()
    {
    }

    /** Set bit i in a hash leaf, or split the leaf and set it there. */
    method SetHash(i: nat)
      requires Valid() && 1 <= i <= iSize && NBIT < iSize && iDivisor == 0
      modifies repr
      ensures Valid() && fresh(repr - old(repr)) && contents == old(contents) + {i}
      ensures iDivisor != 0 <==>
        if old(aHash[Home(i)]) == 0 then old(nSet) >= NINT - 1 else i !in old(contents) && old(nSet) >= MXHASH
      decreases iSize, 1, 0
    {
      var h := Home(i);
      var collision := aHash[h] != 0;
      if !collision {
        if nSet < NINT - 1 {
          Put(h, i);
          return;
        }
      } else {
        var found;
        h, found := Probe(i);
        if found { return; }
      }
      if nSet >= MXHASH {
        Rehash(i);
      } else {
        Put(h, i);
      }
    }

    /** Turn a hash leaf into a split node with the same values and i. */
    method Rehash(i: nat)
      requires Valid() && 1 <= i <= iSize && NBIT < iSize && iDivisor == 0
      modifies repr
      ensures Valid() && fresh(repr - old(repr)) && contents == old(contents) + {i} && iDivisor != 0
      decreases iSize, 0, 2
    {
      hide Valid;
      var aiValues := Empty();
      Set(i);
      var j := 0;
      while j < NINT
        invariant Valid() && iDivisor != 0 && fresh(repr - old(repr)) && j <= NINT
        invariant forall v :: v in contents <==> v == i || (v > 0 && v in aiValues[..j])
      {
        if aiValues[j] != 0 {
          assert aiValues[j] in aiValues;
          Set(aiValues[j]);
        }
        j := j + 1;
        assert aiValues[..j] == aiValues[..j - 1] + [aiValues[j - 1]];
      }
      assert aiValues[..NINT] == aiValues;
    }

    /** Save the slots of a hash leaf and make it a split node without sub-bitmaps. */
    method Empty() returns (aiValues: Slots)
      requires Valid() && NBIT < iSize && iDivisor == 0
      modifies repr
      ensures Valid() && repr == old(repr) && contents == {} && iDivisor != 0
      ensures forall v :: v in old(contents) <==> v > 0 && v in aiValues
      ensures forall v :: v > 0 && v in aiValues ==> v <= iSize
    {
      hide Valid, Divisor;
      UnfoldHash();
      aiValues := aHash;
      Covered(iSize, 1);
      apSub := seq(NPTR, _ => null);
      iDivisor := Divisor(iSize);
      contents := {};
      forall v | 1 <= v <= iSize ensures !InSub(v) {
        Covered(iSize, v);
      }
      Fold();
    }

    lemma UnfoldHash()
      requires Valid() && NBIT < iSize && iDivisor == 0
      ensures this in repr && |aBitmap| == NELEM && |apSub| == NPTR
      ensures (forall v :: v in contents ==> 1 <= v <= iSize) && HashValid()
    {
    }

    /** Clear bit i. */
    method Clear(i: nat)
      requires Valid() && 1 <= i <= iSize
      modifies repr
      ensures Valid() && repr == old(repr) && contents == old(contents) - {i}
      decreases iSize, 1
    {
      if iDivisor != 0 {
        ClearSub(i);
      } else if iSize <= NBIT {
        ClearBit(i);
      } else {
        ClearHash(i);
      }
    }

    method ClearBit(i: nat)
      requires Valid() && 1 <= i <= iSize <= NBIT
      modifies this
      ensures Valid() && repr == old(repr) && contents == old(contents) - {i}
    {
      hide BitAt, Mask, WithoutBit;
      forall v | 1 <= v <= iSize ensures BitAt(WithoutBit(aBitmap, i), v) <==> v != i && BitAt(aBitmap, v) {
        BitsAfter(aBitmap, i, v);
      }
      aBitmap := WithoutBit(aBitmap, i);
      contents := contents - {i};
    }

    method ClearSub(i: nat)
      requires Valid() && 1 <= i <= iSize && iDivisor != 0 && NBIT < iSize
      modifies repr
      ensures Valid() && repr == old(repr) && contents == old(contents) - {i}
      decreases iSize, 0
    {
      hide Valid, Divisor, Bin, Rest;
      Unfold();
      Covered(iSize, i);
      BinRest(i, iDivisor);
      var bin, rest := (i - 1) / iDivisor, (i - 1) % iDivisor;
      var sub := apSub[bin];
      if sub == null {
        assert !InSub(i);
        return;
      }
      sub.Clear(rest + 1);
      contents := contents - {i};
      forall v | 1 <= v <= iSize ensures v in contents <==> InSub(v) {
        Covered(iSize, v);
        assert v in old(contents) <==> old(InSub(v));
        if Bin(v, iDivisor) == bin && Rest(v, iDivisor) == rest + 1 {
          Apart(iDivisor, v, i);
        }
      }
      Fold();
    }

    /** Rebuild a hash leaf without i. */
    method ClearHash(i: nat)
      requires Valid() && 1 <= i <= iSize && iDivisor == 0 && NBIT < iSize
      modifies this
      ensures Valid() && repr == old(repr) && contents == old(contents) - {i}
    {
      hide Valid, Probed, Walked, Count;
      UnfoldHash();
      ProbedZeros();
      var aiValues := aHash;
      aHash := seq(NINT, _ => 0);
      nSet := 0;
      contents := {};
      CountZeros(NINT);
      FoldHash();
      var j := 0;
      while j < NINT
        invariant Valid() && repr == old(repr) && iDivisor == 0 && j <= NINT && nSet <= Count(aiValues[..j])
        invariant forall v :: v in contents <==> v > 0 && v != i && v in aiValues[..j]
      {
        CountPrefix(aiValues, j + 1);
        if aiValues[j] != 0 && aiValues[j] != i {
          assert aiValues[j] in aiValues;
          UnfoldHash();
          Fresh(aiValues, j);
          var h := FreeSlot(aiValues[j]);
          Put(h, aiValues[j]);
        }
        j := j + 1;
        assert aiValues[..j] == aiValues[..j - 1] + [aiValues[j - 1]];
      }
      assert aiValues[..NINT] == aiValues;
    }

    /** The first empty slot on the way of a value that is not in the leaf. */
    method FreeSlot(v: nat) returns (h: nat)
      requires HashValid() && v > 0 && v !in contents
      ensures h < NINT && aHash[h] == 0 && Walked(aHash, v, Steps(Home(v), h))
    {
      ghost var e := EmptySlot(aHash);
      ghost var m, k := Steps(Home(v), e), 0;
      h := Home(v);
      while aHash[h] != 0
        invariant 0 <= k <= m && h == At(Home(v), k) && Walked(aHash, v, k)
        decreases m - k
      {
        h := if h + 1 >= NINT then 0 else h + 1;
        k := k + 1;
      }
    }

    lemma FoldHash()
      requires this in repr && |aBitmap| == NELEM && |apSub| == NPTR && NBIT < iSize && iDivisor == 0
      requires (forall v :: v in contents ==> 1 <= v <= iSize) && HashValid()
      ensures Valid()
    {
    }
  }
}
