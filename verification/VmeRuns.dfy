/**
  Runs of the page cache: whatever the order of reads, writes, pins and unpins since the last reset, the
  cache behaves as a plain map from pages to bytes.
 */
module VmeRuns {

  import opened Basics
  import opened VmeSpec

  datatype Op = Write(page: nat, bytes: Bytes) | Read(page: nat) | Up(page: nat) | Down(page: nat)

  /** Only resident pages are unpinned; page 0 is read and written, never pinned. */
  predicate Allowed(s: State, op: Op)
    requires Sizes(s)
  {
    && op.page < |s.cold|
    && (op.Up? || op.Down? ==> op.page != 0)
    && (op.Down? ==> Resident(s, op.page))
  }

  function Step(e: Env, s: State, op: Op): State
    requires Sizes(s) && Allowed(s, op) && (!Full(s) ==> s.freeWarm < |s.warm|)
  {
    match op
    case Write(p, b) => CopyTo(e, s, p, b)
    case Read(p) => CopyFrom(e, s, p)
    case Up(p) => Reference(e, s, p)
    case Down(p) => Dereference(s, p)
  }

  /** tr lists the states of a run of ops, beginning with a reset. */
  ghost predicate Run(e: Env, frames: nat, pages: nat, tr: seq<State>, ops: seq<Op>) {
    && |tr| == |ops| + 1 && 0 < frames && tr[0] == Fresh(e, frames, pages)
    && forall i :: 0 <= i < |ops| ==> Next(e, tr[i], ops[i], tr[i + 1])
  }

  ghost predicate Next(e: Env, s: State, op: Op, t: State) {
    Inv(e, s) ==> Allowed(s, op) && t == Step(e, s, op)
  }

  /** The bytes that the last of the first n operations to write page p wrote. */
  function LastWrite(ops: seq<Op>, n: nat, p: nat): Option<Bytes>
    requires n <= |ops|
  {
    if n == 0 then None
    else if ops[n - 1].Write? && ops[n - 1].page == p then Some(ops[n - 1].bytes)
    else LastWrite(ops, n - 1, p)
  }

  // ---- one operation

  /** Writing into the slot of the page at the front changes that page only. */
  lemma WarmWrite(e: Env, r: State, b: Bytes, x: nat)
    requires Inv(e, r) && r.entries != [] && r.entries[0].page != 0 && x < |r.cold|
    ensures var t := r.(warm := r.warm[r.entries[0].slot := b]);
      && Inv(e, t)
      && Stored(e, t, x) == (if x == r.entries[0].page then b else Stored(e, r, x))
      && (Known(t, x) <==> Known(r, x))
  {
    hide Find;
    FindUnique(r.entries, 0);
    assert Find(r.entries, x) > 0 ==> r.entries[Find(r.entries, x)].slot != r.entries[0].slot;
  }

  lemma ColdWrite(e: Env, s: State, p: nat, b: Bytes, x: nat)
    requires e.Valid() && Inv(e, s) && 0 < p < |s.cold| && x < |s.cold| && !Resident(s, p)
    ensures var t := s.(cold := s.cold[p := e.encrypt(b)], hashes := s.hashes[p := e.xxh64(b)]);
      && Inv(e, t)
      && Stored(e, t, x) == (if x == p then b else Stored(e, s, x))
      && (Known(s, x) || x == p ==> Known(t, x))
  {
    hide Find;
  }

  lemma CopyToKeeps(e: Env, s: State, p: nat, b: Bytes, x: nat)
    requires e.Valid() && Inv(e, s) && p < |s.cold| && x < |s.cold|
    ensures var t := CopyTo(e, s, p, b);
      && Inv(e, t) && |t.cold| == |s.cold|
      && Stored(e, t, x) == (if x == p then b else Stored(e, s, x))
      && (Known(s, x) || x == p ==> Known(t, x))
  {
    hide Find, Distinct, StuckFirst, Reference;
    if p == 0 {
    } else if Refused(s, p) {
      ColdWrite(e, s, p, b, x);
    } else {
      ReferenceKeeps(e, s, p);
      ReferenceStored(e, s, p, x);
      WarmWrite(e, Reference(e, s, p), b, x);
    }
  }

  /**
    A read delivers the bytes of the page, except in one case: the page was never brought in or written,
    and there is no frame for it.
   */
  lemma DeliveredIs(e: Env, s: State, p: nat)
    requires e.Valid() && Inv(e, s) && p < |s.cold|
    ensures Delivered(e, s, p) == if Known(s, p) || !Refused(s, p) then Some(Stored(e, s, p)) else None
  {
    if p != 0 && !Refused(s, p) {
      ReferenceKeeps(e, s, p);
      ReferenceStored(e, s, p, p);
      FindUnique(Reference(e, s, p).entries, 0);
    }
  }

  lemma StepKeeps(e: Env, s: State, op: Op, x: nat)
    requires e.Valid() && Inv(e, s) && Allowed(s, op) && x < |s.cold|
    ensures var t := Step(e, s, op);
      && Inv(e, t) && |t.cold| == |s.cold|
      && Stored(e, t, x) == (if op.Write? && op.page == x then op.bytes else Stored(e, s, x))
      && (Known(s, x) || (op.Write? && op.page == x) ==> Known(t, x))
  {
    match op
    case Write(p, b) => CopyToKeeps(e, s, p, b, x);
    case Read(p) =>
      if p != 0 && !Refused(s, p) {
        ReferenceKeeps(e, s, p);
        ReferenceStored(e, s, p, x);
      }
    case Up(p) =>
      if !Refused(s, p) {
        ReferenceKeeps(e, s, p);
        ReferenceStored(e, s, p, x);
      }
    case Down(p) => DereferenceKeeps(e, s, p, x);
  }

  lemma StepPinned(e: Env, s: State, op: Op, x: nat, k: nat)
    requires e.Valid() && Inv(e, s) && Allowed(s, op) && Pinned(s, x, k) && op != Down(x)
    ensures Pinned(Step(e, s, op), x, k)
  {
    if op.Down? {
      DereferencePinned(s, op.page, x, k);
    } else if op.page != 0 {
      ReferencePinned(e, s, op.page, x, k);
    }
  }

  // ---- runs

  lemma FreshInv(e: Env, frames: nat, pages: nat)
    requires e.Valid() && 0 < frames
    ensures Inv(e, Fresh(e, frames, pages))
  {
  }

  /** The cache refines a plain map of pages: a page holds what was last written to it, or zeros. */
  lemma {:induction false} RunRefinesMap(e: Env, frames: nat, pages: nat, tr: seq<State>, ops: seq<Op>, i: nat, p: nat)
    requires e.Valid() && Run(e, frames, pages, tr, ops) && i <= |ops| && p < pages
    ensures Inv(e, tr[i]) && |tr[i].cold| == pages
    ensures Stored(e, tr[i], p) == (match LastWrite(ops, i, p) case Some(b) => b case None => e.zeros)
    ensures LastWrite(ops, i, p).Some? ==> Known(tr[i], p)
  {
    if i == 0 {
      FreshInv(e, frames, pages);
    } else {
      RunRefinesMap(e, frames, pages, tr, ops, i - 1, p);
      assert Next(e, tr[i - 1], ops[i - 1], tr[i]);
      StepKeeps(e, tr[i - 1], ops[i - 1], p);
    }
  }

  /** A page written since the last reset is always read, and read with its latest bytes. */
  lemma ReadAfterWrite(e: Env, frames: nat, pages: nat, tr: seq<State>, ops: seq<Op>, i: nat, p: nat)
    requires e.Valid() && Run(e, frames, pages, tr, ops) && i <= |ops| && p < pages
    ensures Inv(e, tr[i]) && |tr[i].cold| == pages
    ensures LastWrite(ops, i, p).Some? ==> Delivered(e, tr[i], p) == LastWrite(ops, i, p)
    ensures LastWrite(ops, i, p).None? ==>
      Delivered(e, tr[i], p) == if Refused(tr[i], p) && tr[i].hashes[p] == 0 && p != 0 then None else Some(e.zeros)
  {
    RunRefinesMap(e, frames, pages, tr, ops, i, p);
    DeliveredIs(e, tr[i], p);
  }

  lemma NextAt(e: Env, frames: nat, pages: nat, tr: seq<State>, ops: seq<Op>, i: nat)
    requires Run(e, frames, pages, tr, ops) && i < |ops| && Inv(e, tr[i])
    ensures Allowed(tr[i], ops[i]) && tr[i + 1] == Step(e, tr[i], ops[i])
  {
    hide Inv;
    assert Next(e, tr[i], ops[i], tr[i + 1]);
  }

  lemma StoredAt(e: Env, s: State, p: nat, k: nat)
    requires Inv(e, s) && 0 < p < |s.cold|
    ensures Pinned(s, p, k) ==> k < |s.warm| && Stored(e, s, p) == s.warm[k]
  {
  }

  /**
    A page that page_up has put into slot k stays in slot k until page_down, and the slot shows the latest
    bytes of the page all that time.
   */
  lemma {:induction false} PinnedUntilDown(e: Env, frames: nat, pages: nat, tr: seq<State>, ops: seq<Op>, i: nat,
                                           j: nat, p: nat, k: nat)
    requires e.Valid() && Run(e, frames, pages, tr, ops) && i <= j <= |ops| && 0 < p < pages
    requires Pinned(tr[i], p, k) && forall h :: i <= h < j ==> ops[h] != Down(p)
    ensures Pinned(tr[j], p, k) && k < |tr[j].warm|
    ensures tr[j].warm[k] == match LastWrite(ops, j, p) case Some(b) => b case None => e.zeros
    decreases j
  {
    hide Next, Step, Inv, Stored, Find, LastWrite;
    RunRefinesMap(e, frames, pages, tr, ops, j, p);
    StoredAt(e, tr[j], p, k);
    if i < j {
      PinnedUntilDown(e, frames, pages, tr, ops, i, j - 1, p, k);
      RunRefinesMap(e, frames, pages, tr, ops, j - 1, p);
      NextAt(e, frames, pages, tr, ops, j - 1);
      StepPinned(e, tr[j - 1], ops[j - 1], p, k);
    }
  }

  /** page_up hands out the slot of the page, unless all frames are full and stuck; no slot is shared. */
  lemma UpPins(e: Env, s: State, p: nat)
    requires e.Valid() && Inv(e, s) && 0 < p < |s.cold| && !Refused(s, p)
    ensures var t := Reference(e, s, p);
      && t.entries != [] && Pinned(t, p, t.entries[0].slot) && t.entries[0].slot < |t.warm|
      && forall i :: 0 < i < |t.entries| ==> t.entries[i].slot != t.entries[0].slot
  {
    ReferenceKeeps(e, s, p);
    FindUnique(Reference(e, s, p).entries, 0);
  }
}
