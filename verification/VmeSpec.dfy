/**
  The page cache of the enclave as a state machine on values: which pages sit in which warm slots, from
  the most to the least recently used, and what the cold store holds.

  Pages are read and written whole.  Encryption is any function with an inverse; the page hash is any
  function that is never 0, because a hash of 0 marks a page that was never written to the cold store.
 */
module VmeSpec {

  import opened Basics

  type Bytes = seq<nat>

  datatype Env = Env(encrypt: Bytes -> Bytes, decrypt: Bytes -> Bytes, xxh64: Bytes -> nat, zeros: Bytes) {
    ghost predicate Valid() {
      && (forall b :: decrypt(encrypt(b)) == b)
      && (forall b :: xxh64(b) != 0)
    }
  }

  datatype Entry = Entry(page: nat, slot: nat, stick: bool)

  datatype State = State(
    entries: seq<Entry>, freeWarm: nat,
    warm: seq<Bytes>, cold: seq<Bytes>, hashes: seq<nat>, zeroPage: Bytes)

  /** The place of page p in the queue, or -1. */
  function Find(es: seq<Entry>, p: nat): (i: int)
    ensures -1 <= i < |es|
    ensures i >= 0 ==> es[i].page == p
    ensures i < 0 ==> forall j :: 0 <= j < |es| ==> es[j].page != p
  {
    if es == [] then -1
    else if es[0].page == p then 0
    else
      var i := Find(es[1..], p);
      assert i < 0 ==> forall j :: 0 < j < |es| ==> es[j] == es[1..][j - 1];
      if i < 0 then -1 else i + 1
  }

  predicate Resident(s: State, p: nat) {
    Find(s.entries, p) >= 0
  }

  predicate Full(s: State) {
    |s.entries| == |s.warm|
  }

  // ---- what every operation keeps

  predicate Sizes(s: State) {
    && 0 < |s.warm| && |s.cold| == |s.hashes| && |s.entries| <= |s.warm|
    && (forall i :: 0 <= i < |s.entries| ==> s.entries[i].page < |s.cold| && s.entries[i].slot < |s.warm|)
  }

  predicate Distinct(es: seq<Entry>) {
    && (forall i, j :: 0 <= i < j < |es| ==> es[i].page != es[j].page)
    && (forall i, j :: 0 <= i < j < |es| ==> es[i].slot != es[j].slot)
  }

  /** Pages that may not be evicted are in front of those that may. */
  predicate StuckFirst(es: seq<Entry>) {
    forall i, j :: 0 <= i < j < |es| && es[j].stick ==> es[i].stick
  }

  /** While there are free slots, they are the ones from freeWarm on. */
  predicate SlotsFromBelow(s: State) {
    !Full(s) ==> s.freeWarm == |s.entries| && forall i :: 0 <= i < |s.entries| ==> s.entries[i].slot < s.freeWarm
  }

  /** Each page that lies in the cold store matches its hash. */
  ghost predicate Sealed(e: Env, s: State)
    requires Sizes(s)
  {
    forall p :: 0 <= p < |s.cold| && !Resident(s, p) && s.hashes[p] != 0 ==>
      s.hashes[p] == e.xxh64(e.decrypt(s.cold[p]))
  }

  ghost predicate Inv(e: Env, s: State) {
    Sizes(s) && Distinct(s.entries) && StuckFirst(s.entries) && SlotsFromBelow(s) && Sealed(e, s)
  }

  // ---- what a state means

  /** The bytes of page p, wherever they are. */
  function Stored(e: Env, s: State, p: nat): Bytes
    requires Sizes(s) && p < |s.cold|
  {
    if p == 0 then s.zeroPage
    else if Resident(s, p) then s.warm[s.entries[Find(s.entries, p)].slot]
    else if s.hashes[p] != 0 then e.decrypt(s.cold[p])
    else e.zeros
  }

  /** Page p has been brought in or written since the last reset. */
  predicate Known(s: State, p: nat)
    requires p < |s.hashes|
  {
    p == 0 || Resident(s, p) || s.hashes[p] != 0
  }

  /** Page p is in warm slot k and may not be evicted. */
  predicate Pinned(s: State, p: nat, k: nat) {
    Find(s.entries, p) >= 0 && s.entries[Find(s.entries, p)] == Entry(p, k, true)
  }

  /** There is no frame for page p: it is not resident, and the page at the rear of a full queue is stuck. */
  predicate Refused(s: State, p: nat)
    requires Sizes(s)
  {
    !Resident(s, p) && Full(s) && s.entries[|s.entries| - 1].stick
  }

  // ---- the steps

  function Fresh(e: Env, frames: nat, pages: nat): State {
    State([], 0, seq(frames, i => e.zeros), seq(pages, i => e.zeros), seq(pages, i => 0), e.zeros)
  }

  /** The page at the rear goes to the cold store. */
  function DeQueue(e: Env, s: State): State
    requires Sizes(s) && s.entries != []
  {
    var last := s.entries[|s.entries| - 1];
    s.(entries := s.entries[..|s.entries| - 1],
       freeWarm := last.slot,
       cold := s.cold[last.page := e.encrypt(s.warm[last.slot])],
       hashes := s.hashes[last.page := e.xxh64(s.warm[last.slot])])
  }

  /** Page p comes in at the front, in slot freeWarm. */
  function Load(e: Env, s: State, p: nat): State
    requires Sizes(s) && p < |s.cold| && s.freeWarm < |s.warm|
  {
    s.(entries := [Entry(p, s.freeWarm, true)] + s.entries,
       freeWarm := s.freeWarm + 1,
       warm := s.warm[s.freeWarm := if s.hashes[p] != 0 then e.decrypt(s.cold[p]) else e.zeros])
  }

  function Enqueue(e: Env, s: State, p: nat): State
    requires Sizes(s) && p < |s.cold| && (!Full(s) ==> s.freeWarm < |s.warm|)
  {
    Load(e, if Full(s) then DeQueue(e, s) else s, p)
  }

  function ToFront(es: seq<Entry>, i: nat): seq<Entry>
    requires i < |es|
  {
    [es[i].(stick := true)] + es[..i] + es[i + 1..]
  }

  function ToRear(es: seq<Entry>, i: nat): seq<Entry>
    requires i < |es|
  {
    es[..i] + es[i + 1..] + [es[i].(stick := false)]
  }

  /** Page p is at the front and stuck, or the state is as it was because there is no frame for it. */
  function Reference(e: Env, s: State, p: nat): (r: State)
    requires Sizes(s) && p < |s.cold| && (!Full(s) ==> s.freeWarm < |s.warm|)
    ensures Refused(s, p) || (r.entries != [] && r.entries[0].slot < |r.warm|)
    ensures |r.warm| == |s.warm| && |r.cold| == |s.cold|
  {
    if Refused(s, p) then s
    else if Resident(s, p) then s.(entries := ToFront(s.entries, Find(s.entries, p)))
    else Enqueue(e, s, p)
  }

  function Dereference(s: State, p: nat): State
    requires Resident(s, p)
  {
    s.(entries := ToRear(s.entries, Find(s.entries, p)))
  }

  function CopyTo(e: Env, s: State, p: nat, b: Bytes): (r: State)
    requires Sizes(s) && p < |s.cold| && (!Full(s) ==> s.freeWarm < |s.warm|)
  {
    if p == 0 then s.(zeroPage := b)
    else if Refused(s, p) then s.(cold := s.cold[p := e.encrypt(b)], hashes := s.hashes[p := e.xxh64(b)])
    else
      var t := Reference(e, s, p);
      t.(warm := t.warm[t.entries[0].slot := b])
  }

  /** What copy_from leaves behind; the bytes it delivers are those of Delivered. */
  function CopyFrom(e: Env, s: State, p: nat): State
    requires Sizes(s) && p < |s.cold| && (!Full(s) ==> s.freeWarm < |s.warm|)
  {
    if p == 0 then s else Reference(e, s, p)
  }

  function Delivered(e: Env, s: State, p: nat): Option<Bytes>
    requires Sizes(s) && p < |s.cold| && (!Full(s) ==> s.freeWarm < |s.warm|)
  {
    if p == 0 then Some(s.zeroPage)
    else if Refused(s, p) then
      if s.hashes[p] != e.xxh64(e.decrypt(s.cold[p])) then None else Some(e.decrypt(s.cold[p]))
    else
      var t := Reference(e, s, p);
      Some(t.warm[t.entries[0].slot])
  }

  // ---- what the steps keep

  lemma FindUnique(es: seq<Entry>, i: nat)
    requires i < |es| && Distinct(es)
    ensures Find(es, es[i].page) == i
  {
  }

  /** Where the j-th entry was before entry i moved to the front. */
  function BeforeFront(i: nat, j: nat): nat {
    if j == 0 then i else if j <= i then j - 1 else j
  }

  /** Where the j-th of n entries was before entry i moved to the rear. */
  function BeforeRear(n: nat, i: nat, j: nat): nat {
    if j == n - 1 then i else if j < i then j else j + 1
  }

  lemma FrontAt(es: seq<Entry>, i: nat)
    requires i < |es|
    ensures |ToFront(es, i)| == |es|
    ensures forall j {:trigger ToFront(es, i)[j]} :: 0 <= j < |es| ==>
      ToFront(es, i)[j] == if j == 0 then es[i].(stick := true) else es[BeforeFront(i, j)]
  {
  }

  lemma RearAt(es: seq<Entry>, i: nat)
    requires i < |es|
    ensures |ToRear(es, i)| == |es|
    ensures forall j {:trigger ToRear(es, i)[j]} :: 0 <= j < |es| ==>
      ToRear(es, i)[j] == if j == |es| - 1 then es[i].(stick := false) else es[BeforeRear(|es|, i, j)]
  {
  }

  /** Moving to the front keeps the order of the rest, and where each page is. */
  lemma FrontKeeps(es: seq<Entry>, i: nat, x: nat)
    requires i < |es| && Distinct(es) && StuckFirst(es)
    ensures Distinct(ToFront(es, i)) && StuckFirst(ToFront(es, i))
    ensures var j := Find(es, x);
      Find(ToFront(es, i), x) == if j == i then 0 else if 0 <= j < i then j + 1 else j
  {
    hide Find, ToFront;
    var t := ToFront(es, i);
    FrontAt(es, i);
    var j := Find(es, x);
    if j >= 0 {
      var k := if j == i then 0 else if j < i then j + 1 else j;
      assert t[k].page == x;
      FindUnique(t, k);
    } else {
      assert forall k :: 0 <= k < |t| ==> t[k].page == es[BeforeFront(i, k)].page;
    }
  }

  lemma RearKeeps(es: seq<Entry>, i: nat, x: nat)
    requires i < |es| && Distinct(es) && StuckFirst(es)
    ensures Distinct(ToRear(es, i)) && StuckFirst(ToRear(es, i))
    ensures var j := Find(es, x);
      Find(ToRear(es, i), x) == if j == i then |es| - 1 else if i < j then j - 1 else j
  {
    hide Find, ToRear;
    var t := ToRear(es, i);
    RearAt(es, i);
    var j := Find(es, x);
    if j >= 0 {
      var k := if j == i then |es| - 1 else if i < j then j - 1 else j;
      assert t[k].page == x;
      FindUnique(t, k);
    } else {
      assert forall k :: 0 <= k < |t| ==> t[k].page == es[BeforeRear(|es|, i, k)].page;
    }
  }

  // ---- one step: eviction

  /** The rule for when there is no frame: the queue is full, and every page in it is stuck. */
  lemma RefusedIffAllStuck(e: Env, s: State, p: nat)
    requires Inv(e, s)
    ensures Refused(s, p) <==> !Resident(s, p) && Full(s) && forall i :: 0 <= i < |s.entries| ==> s.entries[i].stick
  {
    assert StuckFirst(s.entries);
    assert Refused(s, p) ==> forall i :: 0 <= i < |s.entries| - 1 ==> s.entries[i].stick;
  }

  /** Dropping the last entry leaves the places of all other pages. */
  lemma FindDropLast(es: seq<Entry>, x: nat)
    requires es != [] && Distinct(es)
    ensures Find(es[..|es| - 1], x) == if Find(es, x) == |es| - 1 then -1 else Find(es, x)
  {
    hide Find;
    var t := es[..|es| - 1];
    var j, k := Find(es, x), Find(t, x);
    assert k >= 0 ==> es[k].page == x;
    if 0 <= j < |es| - 1 {
      assert t[j].page == x;
    }
  }

  /** As Inv, with a free slot at freeWarm. */
  ghost predicate Roomy(e: Env, s: State) {
    && Sizes(s) && Distinct(s.entries) && StuckFirst(s.entries) && Sealed(e, s) && !Full(s)
    && s.freeWarm < |s.warm| && (forall i :: 0 <= i < |s.entries| ==> s.entries[i].slot != s.freeWarm)
    && (|s.entries| + 1 < |s.warm| ==>
         s.freeWarm == |s.entries| && forall i :: 0 <= i < |s.entries| ==> s.entries[i].slot < s.freeWarm)
  }

  lemma EvictSlots(e: Env, s: State)
    requires Inv(e, s) && Full(s)
    ensures var t := DeQueue(e, s); Sizes(t) && Distinct(t.entries) && StuckFirst(t.entries)
    ensures var t := DeQueue(e, s); forall i :: 0 <= i < |t.entries| ==> t.entries[i].slot != t.freeWarm
  {
    hide Sealed, Find;
  }

  /** Whatever lies where, each page has the same bytes, and pages that were known still are. */
  ghost predicate SameBytes(e: Env, s: State, t: State) {
    && Sizes(s) && Sizes(t) && |t.cold| == |s.cold|
    && forall x :: 0 <= x < |s.cold| ==> Stored(e, t, x) == Stored(e, s, x) && (Known(s, x) ==> Known(t, x))
  }

  lemma DropKeeps(e: Env, s: State, x: nat)
    requires e.Valid() && Sizes(s) && Distinct(s.entries) && s.entries != [] && x < |s.cold|
    ensures var t := DeQueue(e, s);
      && Sizes(t) && Stored(e, t, x) == Stored(e, s, x) && (Known(s, x) ==> Known(t, x))
      && (Resident(t, x) <==> Resident(s, x) && x != s.entries[|s.entries| - 1].page)
  {
    FindDropLast(s.entries, x);
    FindUnique(s.entries, |s.entries| - 1);
  }

  /** Writing a page back moves its bytes to the cold store; no page changes. */
  lemma DropSame(e: Env, s: State, t: State)
    requires e.Valid() && SameBytes(e, s, t) && Distinct(t.entries) && t.entries != []
    ensures SameBytes(e, s, DeQueue(e, t)) && Distinct(DeQueue(e, t).entries)
  {
    var r := DeQueue(e, t);
    forall x | 0 <= x < |s.cold| ensures Stored(e, r, x) == Stored(e, s, x) && (Known(s, x) ==> Known(r, x)) {
      DropKeeps(e, t, x);
      hide Stored, Known, Sizes;
    }
  }

  /** Eviction moves the bytes of a page; it does not change them. */
  lemma EvictKeeps(e: Env, s: State, x: nat)
    requires e.Valid() && Inv(e, s) && Full(s) && x < |s.cold|
    ensures Sizes(DeQueue(e, s)) && Stored(e, DeQueue(e, s), x) == Stored(e, s, x)
    ensures Known(s, x) ==> Known(DeQueue(e, s), x)
    ensures Resident(DeQueue(e, s), x) <==> Resident(s, x) && x != s.entries[|s.entries| - 1].page
  {
    DropKeeps(e, s, x);
  }

  lemma EvictMakesRoom(e: Env, s: State)
    requires e.Valid() && Inv(e, s) && Full(s)
    ensures Roomy(e, DeQueue(e, s))
  {
    var t := DeQueue(e, s);
    EvictSlots(e, s);
    forall p | 0 <= p < |t.cold| && !Resident(t, p) && t.hashes[p] != 0
      ensures t.hashes[p] == e.xxh64(e.decrypt(t.cold[p]))
    {
      FindDropLast(s.entries, p);
    }
  }

  lemma EvictPinned(e: Env, s: State, x: nat, k: nat)
    requires Inv(e, s) && Full(s) && !s.entries[|s.entries| - 1].stick
    ensures Pinned(s, x, k) ==> Pinned(DeQueue(e, s), x, k)
  {
    FindDropLast(s.entries, x);
  }

  // ---- one step: loading a page

  lemma FindCons(es: seq<Entry>, a: Entry, x: nat)
    ensures Find([a] + es, x) == if a.page == x then 0 else if Find(es, x) < 0 then -1 else Find(es, x) + 1
  {
    assert ([a] + es)[1..] == es;
  }

  /** The slot that a page is loaded into is a real one, and no other page is in it. */
  lemma LoadSlots(e: Env, s: State, p: nat)
    requires Roomy(e, s) && p < |s.cold| && !Resident(s, p)
    ensures var t := Load(e, s, p); Sizes(t) && Distinct(t.entries) && StuckFirst(t.entries) && SlotsFromBelow(t)
  {
    hide Sealed, Find;
    var t := Load(e, s, p);
    assert forall i :: 1 <= i < |t.entries| ==> t.entries[i] == s.entries[i - 1];
  }

  lemma LoadKeeps(e: Env, s: State, p: nat, x: nat)
    requires e.Valid() && Roomy(e, s) && p < |s.cold| && x < |s.cold| && !Resident(s, p)
    ensures Sizes(Load(e, s, p)) && Stored(e, Load(e, s, p), x) == Stored(e, s, x)
    ensures Resident(Load(e, s, p), x) <==> Resident(s, x) || x == p
  {
    LoadSlots(e, s, p);
    FindCons(s.entries, Entry(p, s.freeWarm, true), x);
  }

  lemma LoadInv(e: Env, s: State, p: nat)
    requires e.Valid() && Roomy(e, s) && p < |s.cold| && !Resident(s, p)
    ensures Inv(e, Load(e, s, p))
  {
    var t := Load(e, s, p);
    LoadSlots(e, s, p);
    forall x | 0 <= x < |t.cold| && !Resident(t, x) && t.hashes[x] != 0
      ensures t.hashes[x] == e.xxh64(e.decrypt(t.cold[x]))
    {
      FindCons(s.entries, Entry(p, s.freeWarm, true), x);
    }
  }

  lemma LoadPinned(e: Env, s: State, p: nat, x: nat, k: nat)
    requires Roomy(e, s) && p < |s.cold| && !Resident(s, p)
    ensures Pinned(s, x, k) ==> Pinned(Load(e, s, p), x, k)
  {
    FindCons(s.entries, Entry(p, s.freeWarm, true), x);
  }

  // ---- one step: reference and dereference

  lemma Ready(e: Env, s: State)
    requires Inv(e, s) && !Full(s)
    ensures Roomy(e, s)
  {
  }

  /** After a reference page p is at the front and stuck, in a slot that no other page has. */
  lemma ReferenceKeeps(e: Env, s: State, p: nat)
    requires e.Valid() && Inv(e, s) && 0 < p < |s.cold| && !Refused(s, p)
    ensures var t := Reference(e, s, p); Inv(e, t) && t.entries != [] && t.entries[0].page == p && t.entries[0].stick
  {
    if Resident(s, p) {
      var i := Find(s.entries, p);
      var t := Reference(e, s, p);
      FrontAt(s.entries, i);
      FrontKeeps(s.entries, i, p);
      forall x | 0 <= x < |t.cold| && !Resident(t, x) && t.hashes[x] != 0
        ensures t.hashes[x] == e.xxh64(e.decrypt(t.cold[x]))
      {
        FrontKeeps(s.entries, i, x);
      }
    } else if Full(s) {
      EvictMakesRoom(e, s);
      EvictKeeps(e, s, p);
      LoadInv(e, DeQueue(e, s), p);
    } else {
      Ready(e, s);
      LoadInv(e, s, p);
    }
  }

  /** A reference may move any page between the warm and the cold store; no page changes its bytes. */
  lemma ReferenceStored(e: Env, s: State, p: nat, x: nat)
    requires e.Valid() && Inv(e, s) && 0 < p < |s.cold| && !Refused(s, p) && x < |s.cold|
    ensures Sizes(Reference(e, s, p)) && Stored(e, Reference(e, s, p), x) == Stored(e, s, x)
    ensures Known(s, x) || x == p ==> Known(Reference(e, s, p), x)
  {
    if Resident(s, p) {
      FrontAt(s.entries, Find(s.entries, p));
      FrontKeeps(s.entries, Find(s.entries, p), x);
    } else if Full(s) {
      EvictMakesRoom(e, s);
      EvictKeeps(e, s, p);
      EvictKeeps(e, s, x);
      LoadKeeps(e, DeQueue(e, s), p, x);
    } else {
      Ready(e, s);
      LoadKeeps(e, s, p, x);
    }
  }

  lemma ReferencePinned(e: Env, s: State, p: nat, x: nat, k: nat)
    requires e.Valid() && Inv(e, s) && 0 < p < |s.cold| && Pinned(s, x, k)
    ensures Pinned(Reference(e, s, p), x, k)
  {
    if Refused(s, p) {
    } else if Resident(s, p) {
      FrontAt(s.entries, Find(s.entries, p));
      FrontKeeps(s.entries, Find(s.entries, p), x);
    } else if Full(s) {
      EvictMakesRoom(e, s);
      EvictKeeps(e, s, p);
      EvictPinned(e, s, x, k);
      LoadPinned(e, DeQueue(e, s), p, x, k);
    } else {
      Ready(e, s);
      LoadPinned(e, s, p, x, k);
    }
  }

  lemma DereferenceSealed(e: Env, s: State, p: nat)
    requires Inv(e, s) && Resident(s, p)
    ensures Inv(e, Dereference(s, p))
  {
    hide Find, ToRear;
    var i := Find(s.entries, p);
    var t := Dereference(s, p);
    RearAt(s.entries, i);
    RearKeeps(s.entries, i, p);
    forall y | 0 <= y < |t.cold| && !Resident(t, y) && t.hashes[y] != 0
      ensures t.hashes[y] == e.xxh64(e.decrypt(t.cold[y]))
    {
      RearKeeps(s.entries, i, y);
    }
  }

  lemma DereferenceKeeps(e: Env, s: State, p: nat, x: nat)
    requires Inv(e, s) && Resident(s, p) && x < |s.cold|
    ensures var t := Dereference(s, p);
      && Inv(e, t) && Stored(e, t, x) == Stored(e, s, x) && (Known(t, x) <==> Known(s, x))
  {
    hide Find, ToRear, Sealed, Distinct, StuckFirst;
    DereferenceSealed(e, s, p);
    RearAt(s.entries, Find(s.entries, p));
    RearKeeps(s.entries, Find(s.entries, p), x);
  }

  lemma DereferencePinned(s: State, p: nat, x: nat, k: nat)
    requires Distinct(s.entries) && StuckFirst(s.entries) && Resident(s, p) && x != p
    ensures Pinned(Dereference(s, p), x, k) <==> Pinned(s, x, k)
  {
    RearAt(s.entries, Find(s.entries, p));
    RearKeeps(s.entries, Find(s.entries, p), x);
  }

  // ---- what is used stays

  /** The entries of the other pages, in their order. */
  function Others(es: seq<Entry>, p: nat): seq<Entry> {
    if es == [] then [] else (if es[0].page == p then [] else [es[0]]) + Others(es[1..], p)
  }

  lemma {:induction false} OthersNone(es: seq<Entry>, p: nat)
    requires forall i :: 0 <= i < |es| ==> es[i].page != p
    ensures Others(es, p) == es
  {
    if es != [] {
      OthersNone(es[1..], p);
    }
  }

  lemma {:induction false} OthersAround(es: seq<Entry>, i: nat)
    requires Distinct(es) && i < |es|
    ensures Others(es, es[i].page) == es[..i] + es[i + 1..]
  {
    if i == 0 {
      OthersNone(es[1..], es[0].page);
    } else {
      OthersAround(es[1..], i - 1);
      assert es[1..][i - 1] == es[i] && es[1..][i..] == es[i + 1..];
      assert es[..i] == [es[0]] + es[1..][..i - 1];
    }
  }

  /** The queue without the entry that has to make room for page p. */
  function Staying(s: State, p: nat): seq<Entry>
    requires Sizes(s)
  {
    if !Resident(s, p) && Full(s) then s.entries[..|s.entries| - 1] else s.entries
  }

  /**
    A read or a write of a page, if there is a frame for it, puts it in front of all others and makes it stuck.  The
    others keep their order and their state; only the last of a full queue makes room, if the page was not there.
   */
  lemma UsedIsInFront(e: Env, s: State, p: nat, b: Bytes)
    requires Inv(e, s) && 0 < p < |s.cold| && !Refused(s, p)
    ensures var t := CopyFrom(e, s, p);
      && t.entries != [] && t.entries[0].page == p && t.entries[0].stick
      && t.entries[1..] == Others(Staying(s, p), p)
      && CopyTo(e, s, p, b).entries == t.entries
      && (Resident(s, p) ==> t == s.(entries := t.entries))
  {
    var es := Staying(s, p);
    if Resident(s, p) {
      OthersAround(es, Find(es, p));
    } else {
      OthersNone(es, p);
    }
  }

  /** A page that is given back goes behind all others, and is the next to make room. */
  lemma ReleasedIsLast(e: Env, s: State, p: nat)
    requires Inv(e, s) && Resident(s, p)
    ensures var t, x := Dereference(s, p), s.entries[Find(s.entries, p)];
      t == s.(entries := Others(s.entries, p) + [Entry(p, x.slot, false)])
  {
    OthersAround(s.entries, Find(s.entries, p));
  }

  /** Without a frame a read changes nothing, and a write changes nothing in the queue. */
  lemma RefusedKeepsQueue(e: Env, s: State, p: nat, b: Bytes)
    requires Inv(e, s) && 0 < p < |s.cold| && Refused(s, p)
    ensures CopyFrom(e, s, p) == s
    ensures CopyTo(e, s, p, b).entries == s.entries && CopyTo(e, s, p, b).warm == s.warm
  {
  }
}
