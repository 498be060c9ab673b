/**
  Which place on a page pageFindSlot offers.
 */
module PageSlot {

  import opened Basics
  import opened PageSpace

  /**
    The place that the free list offers: the end of the first block that is large enough.  If that would leave less
    than 4 bytes of the block, they become fragments, for which the counter must have room.
   */
  function SlotIn(fb: seq<Span>, nByte: nat, frag: nat): Option<nat> {
    if fb == [] then None
    else if fb[0].size < nByte then SlotIn(fb[1..], nByte, frag)
    else if fb[0].size - nByte < 4 && frag > 57 then None
    else Some(fb[0].End() - nByte)
  }

  /** The first block that is large enough decides. */
  lemma {:induction false} SlotAt(fb: seq<Span>, nByte: nat, frag: nat, k: nat)
    requires k <= |fb| && forall i :: 0 <= i < k ==> fb[i].size < nByte
    ensures k == |fb| ==> SlotIn(fb, nByte, frag) == None
    ensures k < |fb| && fb[k].size >= nByte ==>
      SlotIn(fb, nByte, frag) == if fb[k].size - nByte < 4 && frag > 57 then None else Some(fb[k].End() - nByte)
  {
    if k > 0 {
      SlotAt(fb[1..], nByte, frag, k - 1);
    }
  }

  lemma NoSlot(nByte: nat, frag: nat)
    ensures SlotIn([], nByte, frag) == None
  {
  }
}
