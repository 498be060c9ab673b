/**
  The page cache of the enclave: the queue of nodes, the table that leads from page numbers to nodes, the
  warm slots, and the cold store with its hashes.  Every method is the step of VmeSpec with its name.
 */
module VmeCache {

  import opened Basics
  import opened VmeSpec
  import opened VmeQueue
  import VmeRuns

  /** The table leads to the node of each resident page, and to nothing for other pages. */
  ghost predicate Leads(h: seq<QNode?>, nodes: seq<QNode>, es: seq<Entry>) {
    |nodes| == |es| && forall p :: 0 <= p < |h| ==> h[p] == NodeAt(nodes, Find(es, p))
  }

  lemma LeadsDropLast(h: seq<QNode?>, nodes: seq<QNode>, es: seq<Entry>)
    requires Leads(h, nodes, es) && es != [] && VmeSpec.Distinct(es) && es[|es| - 1].page < |h|
    ensures Leads(h[es[|es| - 1].page := null], nodes[..|es| - 1], es[..|es| - 1])
  {
    hide Find;
    var n := |es| - 1;
    forall p | 0 <= p < |h| ensures h[es[n].page := null][p] == NodeAt(nodes[..n], Find(es[..n], p)) {
      FindDropLast(es, p);
      FindUnique(es, n);
    }
  }

  lemma LeadsCons(h: seq<QNode?>, nodes: seq<QNode>, es: seq<Entry>, node: QNode, a: Entry)
    requires Leads(h, nodes, es) && a.page < |h| && Find(es, a.page) < 0
    ensures Leads(h[a.page := node], [node] + nodes, [a] + es)
  {
    hide Find;
    forall p | 0 <= p < |h| ensures h[a.page := node][p] == NodeAt([node] + nodes, Find([a] + es, p)) {
      FindCons(es, a, p);
    }
  }

  lemma LeadsToFront(h: seq<QNode?>, nodes: seq<QNode>, es: seq<Entry>, i: nat)
    requires Leads(h, nodes, es) && i < |es| && VmeSpec.Distinct(es) && StuckFirst(es)
    ensures Leads(h, [nodes[i]] + Without(nodes, i), ToFront(es, i))
  {
    hide Find, ToFront, Without;
    FrontAt(es, i);
    WithoutAt(nodes, i);
    forall p | 0 <= p < |h| ensures h[p] == NodeAt([nodes[i]] + Without(nodes, i), Find(ToFront(es, i), p)) {
      FrontKeeps(es, i, p);
    }
  }

  lemma LeadsToRear(h: seq<QNode?>, nodes: seq<QNode>, es: seq<Entry>, i: nat)
    requires Leads(h, nodes, es) && i < |es| && VmeSpec.Distinct(es) && StuckFirst(es)
    ensures Leads(h, Without(nodes, i) + [nodes[i]], ToRear(es, i))
  {
    hide Find, ToRear, Without;
    RearAt(es, i);
    WithoutAt(nodes, i);
    forall p | 0 <= p < |h| ensures h[p] == NodeAt(Without(nodes, i) + [nodes[i]], Find(ToRear(es, i), p)) {
      RearKeeps(es, i, p);
    }
  }

  class Cache {
    var q: Queue
    var hash: array<QNode?>
    const warm: array<Bytes>
    const cold: array<Bytes>
    const hashes: array<nat>
    var zeroPage: Bytes
    var freeWarm: nat
    const env: Env

    ghost var st: State

    /** The buffers, the counter and the sizes are those of the state. */
    ghost predicate Stores()
      reads this, q, warm, cold, hashes
    {
      && warm[..] == st.warm && cold[..] == st.cold && hashes[..] == st.hashes
      && zeroPage == st.zeroPage && freeWarm == st.freeWarm
      && warm != cold && hash.Length == cold.Length && q.numberOfFrames == warm.Length
      && Sizes(st)
    }

    /** The nodes of the queue are the given entries. */
    ghost predicate Nodes(es: seq<Entry>)
      reads this`q, q, q.repr
    {
      && q.Valid() && |q.nodes| == |es|
      && (forall i :: 0 <= i < |q.nodes| ==> q.nodes[i].pageNumber == es[i].page)
      && (forall i {:trigger q.nodes[i].warm} :: 0 <= i < |q.nodes| ==> q.nodes[i].warm == es[i].slot)
      && (forall i {:trigger q.nodes[i].stick} :: 0 <= i < |q.nodes| ==> q.nodes[i].stick == es[i].stick)
    }

    ghost predicate Valid()
      reads this, q, q.repr, hash, warm, cold, hashes
    {
      env.Valid() && Stores() && Nodes(st.entries) && Leads(hash[..], q.nodes, st.entries) && Inv(env, st)
    }

    constructor (env: Env, frames: nat, pages: nat)
      requires env.Valid() && 0 < frames
      ensures Valid() && st == VmeSpec.Fresh(env, frames, pages) && this.env == env
      ensures fresh(q) && fresh(hash) && fresh(warm) && fresh(cold) && fresh(hashes) && q.repr == {}
    {
      this.env := env;
      q := new Queue(frames);
      hash := new QNode?[pages](_ => null);
      warm := new Bytes[frames](_ => env.zeros);
      cold := new Bytes[pages](_ => env.zeros);
      hashes := new nat[pages](_ => 0);
      zeroPage := env.zeros;
      freeWarm := 0;
      st := VmeSpec.Fresh(env, frames, pages);
    }

    method GetFreeWarm() returns (slot: int)
      modifies this`freeWarm
      ensures old(freeWarm) < warm.Length ==> slot == old(freeWarm) && freeWarm == old(freeWarm) + 1
      ensures old(freeWarm) >= warm.Length ==> slot == -1 && freeWarm == old(freeWarm)
    {
      if freeWarm < warm.Length {
        slot := freeWarm;
        freeWarm := freeWarm + 1;
      } else {
        slot := -1;
      }
    }

    method SetFreeWarm(slot: nat)
      modifies this`freeWarm
      ensures freeWarm == slot
    {
      freeWarm := slot;
    }

    lemma NodesCount(es: seq<Entry>)
      requires Nodes(es)
      ensures q.count == |q.nodes| == |es| && (q.rear == null <==> es == [])
    {
    }

    method LinkOut(ghost es: seq<Entry>) returns (temp: QNode)
      requires Nodes(es) && es != []
      modifies q, q.repr`next
      ensures Nodes(es[..|es| - 1]) && q.repr == old(q.repr)
      ensures Entry(temp.pageNumber, temp.warm, temp.stick) == es[|es| - 1]
      ensures q.nodes == old(q.nodes)[..|es| - 1]
    {
      temp := q.RemoveRear();
      assert temp.warm == es[|es| - 1].slot && temp.stick == es[|es| - 1].stick;
    }

    /** Write the page at the rear to the cold store and drop its node. */
    method DeQueue()
      requires Stores() && Nodes(st.entries)
      modifies this`freeWarm, this`st, q, q.repr`next, cold, hashes
      ensures Stores() && Nodes(st.entries) && q.repr == old(q.repr)
      ensures old(st.entries) == [] ==> st == old(st) && q.nodes == old(q.nodes)
      ensures old(st.entries) != [] ==>
        st == VmeSpec.DeQueue(env, old(st)) && q.nodes == old(q.nodes)[..|old(q.nodes)| - 1]
    {
      hide Find, Nodes;
      NodesCount(st.entries);
      if q.IsEmpty() { return; }
      var temp := LinkOut(st.entries);
      cold[temp.pageNumber] := env.encrypt(warm[temp.warm]);
      hashes[temp.pageNumber] := env.xxh64(warm[temp.warm]);
      SetFreeWarm(temp.warm);
      st := VmeSpec.DeQueue(env, st);
    }

    /** Make room: the page at the rear of a full queue goes to the cold store. */
    method Evict()
      requires Valid() && Full(st)
      modifies this`freeWarm, this`st, q, q.repr`next, hash, cold, hashes
      ensures Stores() && Nodes(st.entries) && Leads(hash[..], q.nodes, st.entries) && q.repr == old(q.repr)
      ensures st == VmeSpec.DeQueue(env, old(st))
    {
      hide Find, Leads, Inv;
      KnowInv();
      LeadsDropLast(hash[..], q.nodes, st.entries);
      assert q.rear == q.nodes[|q.nodes| - 1];
      hash[q.rear.pageNumber] := null;
      DeQueue();
    }

    lemma KnowInv()
      requires Inv(env, st)
      ensures Sizes(st) && VmeSpec.Distinct(st.entries) && StuckFirst(st.entries) && SlotsFromBelow(st)
    {
    }

    /** Bytes of page p into a slot: decrypted and checked, or zeros if it was never written. */
    method Fill(p: nat, slot: nat)
      requires p < cold.Length == hashes.Length && slot < warm.Length && warm != cold
      requires hashes[p] != 0 ==> hashes[p] == env.xxh64(env.decrypt(cold[p]))
      modifies warm
      ensures warm[..] == old(warm[..])[slot := if hashes[p] != 0 then env.decrypt(cold[p]) else env.zeros]
    {
      if hashes[p] != 0 {
        warm[slot] := env.decrypt(cold[p]);
        if hashes[p] != env.xxh64(warm[slot]) {
          assert false;   // a page that was tampered with would stop the enclave here
        }
      } else {
        warm[slot] := env.zeros;
      }
    }

    /** The next free slot gets the bytes of page p. */
    method FillSlot(p: nat) returns (slot: nat)
      requires Stores() && Roomy(env, st) && p < |st.cold| && !Resident(st, p)
      modifies this`freeWarm, warm
      ensures slot == st.freeWarm && freeWarm == Load(env, st, p).freeWarm && warm[..] == Load(env, st, p).warm
    {
      hide Roomy, Sizes, Load;
      KnowRoomy(p);
      slot := GetFreeWarm();
      Fill(p, slot);
    }

    /** Bring page p in, at the front of the queue. */
    method Insert(p: nat) returns (temp: QNode)
      requires Stores() && Nodes(st.entries) && Leads(hash[..], q.nodes, st.entries) && Roomy(env, st) && env.Valid()
      requires p < hash.Length && !Resident(st, p)
      modifies this`freeWarm, this`st, q, q.repr`prev, hash, warm
      ensures Valid() && q.repr == old(q.repr) + {temp} && fresh(temp)
      ensures st == Load(env, old(st), p) && temp == q.nodes[0]
    {
      hide Find, Leads, Inv, Roomy, Nodes, Sizes, Stored, Env.Valid, Queue.Valid, VmeSpec.Distinct, StuckFirst, Load;
      temp := new QNode(p);
      KnowRoomy(p);
      var slot := FillSlot(p);
      temp.warm := slot;
      temp.stick := true;
      LeadsCons(hash[..], q.nodes, st.entries, temp, Entry(p, slot, true));
      LoadInv(env, st, p);
      LinkIn(temp, st.entries);
      hash[p] := temp;
      st := Load(env, st, p);
    }

    method LinkIn(temp: QNode, ghost es: seq<Entry>)
      requires Nodes(es) && temp !in q.repr && temp.prev == null
      modifies q, temp`next, q.repr`prev
      ensures Nodes([Entry(temp.pageNumber, temp.warm, temp.stick)] + es)
      ensures q.nodes == [temp] + old(q.nodes) && q.repr == old(q.repr) + {temp}
    {
      q.LinkFront(temp);
      assert forall i :: 0 < i < |q.nodes| ==> q.nodes[i] == old(q.nodes)[i - 1];
    }

    lemma KnowRoomy(p: nat)
      requires Roomy(env, st) && p < |st.cold| && !Resident(st, p)
      ensures Sizes(st) && st.freeWarm < |st.warm| && |st.entries| < |st.warm|
      ensures st.hashes[p] != 0 ==> st.hashes[p] == env.xxh64(env.decrypt(st.cold[p]))
      ensures var s := Load(env, st, p);
        && Sizes(s) && s.entries == [Entry(p, st.freeWarm, true)] + st.entries && s.freeWarm == st.freeWarm + 1
        && s.warm == st.warm[st.freeWarm := if st.hashes[p] != 0 then env.decrypt(st.cold[p]) else env.zeros]
        && s.cold == st.cold && s.hashes == st.hashes && s.zeroPage == st.zeroPage
    {
      LoadSlots(env, st, p);
    }

    /** Add a page to the queue and the table; refuse if the queue is full and the page at the rear is stuck. */
    method Enqueue(p: nat) returns (temp: QNode?)
      requires Valid() && 0 < p < hash.Length && !Resident(st, p)
      modifies this`freeWarm, this`st, q, q.repr`prev, q.repr`next, hash, warm, cold, hashes
      ensures Valid() && fresh(q.repr - old(q.repr))
      ensures st == Reference(env, old(st), p)
      ensures temp == if Refused(old(st), p) then null else q.nodes[0]
    {
      hide Find, Leads, Inv, Roomy, Nodes, VmeSpec.Distinct, StuckFirst, Queue.Linked, Sealed, Env.Valid;
      KnowInv();
      NodesCount(st.entries);
      if q.AreAllFramesFull() {
        RearShown(st.entries);
        if q.rear.stick {
          return null;
        }
        EvictMakesRoom(env, st);
        EvictKeeps(env, st, p);
        Evict();
      } else {
        Ready(env, st);
      }
      temp := Insert(p);
    }

    lemma RearShown(es: seq<Entry>)
      requires Nodes(es) && es != []
      ensures q.rear == q.nodes[|es| - 1] && q.rear.stick == es[|es| - 1].stick
    {
      assert q.nodes[|es| - 1].stick == es[|es| - 1].stick;
    }

    /** The page comes to the front of the queue, stuck. */
    method ReferencePage(p: nat) returns (reqPage: QNode?)
      requires Valid() && 0 < p < hash.Length
      modifies this`freeWarm, this`st, q, q.repr, hash, warm, cold, hashes
      ensures Valid() && fresh(q.repr - old(q.repr))
      ensures st == Reference(env, old(st), p)
      ensures reqPage == if Refused(old(st), p) then null else q.nodes[0]
    {
      hide Inv, Nodes, Roomy, Queue.Linked;
      KnowInv();
      reqPage := hash[p];
      NodesCount(st.entries);
      if reqPage == null {
        reqPage := Enqueue(p);
        if reqPage == null {
          return null;
        }
      } else {
        Raise(p, reqPage);
      }
    }

    method SetStick(node: QNode, stick: bool, ghost es: seq<Entry>, ghost k: nat)
      requires Nodes(es) && k < |es| && node == q.nodes[k]
      modifies q.repr`stick
      ensures Nodes(es[k := es[k].(stick := stick)])
    {
      hide VmeQueue.Distinct;
      FrontAndRear();
      node.stick := stick;
      forall i | 0 <= i < |q.nodes| ensures q.nodes[i].stick == es[k := es[k].(stick := stick)][i].stick {
        Differ(q.nodes, i, k);
        assert old(q.nodes[i].stick) == es[i].stick;
      }
    }

    method MoveUp(reqPage: QNode, ghost es: seq<Entry>, ghost i: nat)
      requires Nodes(es) && i < |es| && reqPage == q.nodes[i]
      modifies q, q.repr`prev, q.repr`next
      ensures Nodes([es[i]] + es[..i] + es[i + 1..]) && q.repr == old(q.repr)
      ensures q.nodes == [reqPage] + Without(old(q.nodes), i)
    {
      hide Without, Queue.Linked, VmeQueue.Distinct;
      ghost var was, f := q.nodes, [es[i]] + es[..i] + es[i + 1..];
      WithoutAt(was, i);
      FrontAndRear();
      Differ(was, 0, i);
      if reqPage != q.front {
        q.MoveToFront(reqPage, i);
      } else {
        WithoutFirst(was);
      }
      forall k | 0 <= k < |was|
        ensures var n, a := q.nodes[k], f[k]; n.pageNumber == a.page && n.warm == a.slot && n.stick == a.stick
      {
        assert q.nodes[k] == was[BeforeFront(i, k)] && f[k] == es[BeforeFront(i, k)];
        assert old(was[BeforeFront(i, k)].stick) == es[BeforeFront(i, k)].stick;
        assert old(was[BeforeFront(i, k)].warm) == es[BeforeFront(i, k)].slot;
      }
    }

    lemma FrontAndRear()
      requires q.Valid() && q.nodes != []
      ensures q.front == q.nodes[0] && q.rear == q.nodes[|q.nodes| - 1] && VmeQueue.Distinct(q.nodes)
      ensures forall k :: 0 <= k < |q.nodes| ==> q.nodes[k] in q.repr
    {
    }

    lemma WithoutFirst(s: seq<QNode>)
      requires s != []
      ensures s == [s[0]] + Without(s, 0)
    {
    }

    lemma WithoutLast(s: seq<QNode>)
      requires s != []
      ensures s == Without(s, |s| - 1) + [s[|s| - 1]]
    {
    }

    /** A resident page comes to the front. */
    method Raise(p: nat, reqPage: QNode)
      requires Valid() && 0 < p < hash.Length && Resident(st, p) && reqPage == q.nodes[Find(st.entries, p)]
      modifies this`st, q, q.repr
      ensures Valid() && q.repr == old(q.repr)
      ensures st == Reference(env, old(st), p) && reqPage == q.nodes[0]
    {
      hide Find, Leads, Sealed, Nodes, Without;
      ghost var es, i := st.entries, Find(st.entries, p);
      KnowInv();
      ReferenceKeeps(env, st, p);
      LeadsToFront(hash[..], q.nodes, es, i);
      MoveUp(reqPage, es, i);
      ghost var f := [es[i]] + es[..i] + es[i + 1..];
      SetStick(reqPage, true, f, 0);
      assert f[0 := f[0].(stick := true)] == ToFront(es, i);
      st := Reference(env, st, p);
    }

    method MoveDown(reqPage: QNode, ghost es: seq<Entry>, ghost i: nat)
      requires Nodes(es) && i < |es| && reqPage == q.nodes[i]
      modifies q, q.repr`prev, q.repr`next
      ensures Nodes(es[..i] + es[i + 1..] + [es[i]]) && q.repr == old(q.repr)
      ensures q.nodes == Without(old(q.nodes), i) + [reqPage]
    {
      hide Without, Queue.Linked, VmeQueue.Distinct;
      ghost var was, f := q.nodes, es[..i] + es[i + 1..] + [es[i]];
      WithoutAt(was, i);
      FrontAndRear();
      Differ(was, i, |was| - 1);
      if reqPage != q.rear {
        q.MoveToRear(reqPage, i);
      } else {
        WithoutLast(was);
      }
      forall k | 0 <= k < |was|
        ensures var n, a := q.nodes[k], f[k]; n.pageNumber == a.page && n.warm == a.slot && n.stick == a.stick
      {
        ghost var m := BeforeRear(|es|, i, k);
        assert q.nodes[k] == was[m] && f[k] == es[m];
        assert old(was[m].stick) == es[m].stick;
        assert old(was[m].warm) == es[m].slot;
      }
    }

    /** A resident page goes to the rear, and may be evicted from now on. */
    method DeReferencePage(p: nat)
      requires Valid() && 0 < p < hash.Length && Resident(st, p)
      modifies this`st, q, q.repr
      ensures Valid() && q.repr == old(q.repr)
      ensures st == Dereference(old(st), p)
    {
      hide Find, Leads, Sealed, Nodes, Without;
      ghost var es, i := st.entries, Find(st.entries, p);
      KnowInv();
      NodesCount(es);
      TableAt(p);
      var reqPage := hash[p];
      DereferenceKeeps(env, st, p, p);
      LeadsToRear(hash[..], q.nodes, es, i);
      MoveDown(reqPage, es, i);
      NodesCount(es[..i] + es[i + 1..] + [es[i]]);
      ghost var f := es[..i] + es[i + 1..] + [es[i]];
      SetStick(reqPage, false, f, |f| - 1);
      assert f[|f| - 1 := f[|f| - 1].(stick := false)] == ToRear(es, i);
      st := Dereference(st, p);
    }

    lemma TableAt(p: nat)
      requires Leads(hash[..], q.nodes, st.entries) && p < hash.Length
      ensures hash[p] == NodeAt(q.nodes, Find(st.entries, p))
    {
    }

    // ---- the interface

    /** The slot of page p, which it keeps until page_down. */
    method PageUp(p: nat) returns (slot: Option<nat>)
      requires Valid() && 0 < p < hash.Length
      modifies this`freeWarm, this`st, q, q.repr, hash, warm, cold, hashes
      ensures Valid() && fresh(q.repr - old(q.repr))
      ensures st == Reference(env, old(st), p)
      ensures slot == None <==> Refused(old(st), p)
      ensures slot.Some? ==> Pinned(st, p, slot.value)
    {
      KnowInv();
      var reqPage := ReferencePage(p);
      if reqPage != null {
        ReferenceKeeps(env, old(st), p);
        assert q.nodes[0].warm == st.entries[0].slot;
        FindUnique(st.entries, 0);
        return Some(reqPage.warm);
      }
      return None;
    }

    method PageDown(p: nat)
      requires Valid() && 0 < p < hash.Length && Resident(st, p)
      modifies this`st, q, q.repr
      ensures Valid() && q.repr == old(q.repr)
      ensures st == Dereference(old(st), p)
    {
      DeReferencePage(p);
    }

    /** Write page p. */
    method CopyTo(p: nat, src: Bytes) returns (rc: nat)
      requires Valid() && p < hash.Length
      modifies this`freeWarm, this`zeroPage, this`st, q, q.repr, hash, warm, cold, hashes
      ensures Valid() && fresh(q.repr - old(q.repr)) && rc == 0
      ensures st == VmeSpec.CopyTo(env, old(st), p, src)
    {
      hide Find, Leads, Sealed, Nodes, VmeSpec.Distinct, StuckFirst, VmeSpec.Enqueue, ToFront, SlotsFromBelow;
      KnowInv();
      if p == 0 {
        VmeRuns.CopyToKeeps(env, st, p, src, p);
        zeroPage := src;
        st := VmeSpec.CopyTo(env, st, p, src);
        return 0;
      }
      var reqPage := ReferencePage(p);
      NodesCount(st.entries);
      if !Refused(old(st), p) {
        ReferenceKeeps(env, old(st), p);
      }
      if reqPage == null {
        WriteCold(p, src);
      } else {
        WriteWarm(p, src, reqPage, old(st));
      }
      return 0;
    }

    /** There was no frame: the page goes to the cold store at once. */
    method WriteCold(p: nat, src: Bytes)
      requires Valid() && 0 < p < hash.Length && Refused(st, p)
      modifies this`st, cold, hashes
      ensures Valid() && st == VmeSpec.CopyTo(env, old(st), p, src)
    {
      hide Find, Leads, Nodes, VmeSpec.Distinct, StuckFirst, SlotsFromBelow;
      VmeRuns.CopyToKeeps(env, st, p, src, p);
      cold[p] := env.encrypt(src);
      hashes[p] := env.xxh64(src);
      st := VmeSpec.CopyTo(env, st, p, src);
    }

    method WriteWarm(p: nat, src: Bytes, reqPage: QNode, ghost was: State)
      requires Valid() && 0 < p < hash.Length && q.nodes != [] && reqPage == q.nodes[0]
      requires Inv(env, was) && p < |was.cold| && !Refused(was, p) && st == Reference(env, was, p)
      modifies this`st, warm
      ensures Valid() && st == VmeSpec.CopyTo(env, was, p, src)
    {
      hide Find, Leads, VmeSpec.Distinct, StuckFirst, Sealed, Reference;
      VmeRuns.CopyToKeeps(env, was, p, src, p);
      assert q.nodes[0].warm == st.entries[0].slot;
      warm[reqPage.warm] := src;
      st := VmeSpec.CopyTo(env, was, p, src);
    }

    /** Read page p: 0 and its bytes, or 1 if it matches no hash. */
    method CopyFrom(p: nat) returns (rc: nat, dst: Bytes)
      requires Valid() && p < hash.Length
      modifies this`freeWarm, this`st, q, q.repr, hash, warm, cold, hashes
      ensures Valid() && fresh(q.repr - old(q.repr))
      ensures st == VmeSpec.CopyFrom(env, old(st), p)
      ensures (if rc == 0 then Some(dst) else None) == Delivered(env, old(st), p) && rc <= 1
    {
      hide Find, Leads, Sealed;
      KnowInv();
      if p == 0 {
        return 0, zeroPage;
      }
      var reqPage := ReferencePage(p);
      if reqPage == null {
        dst := env.decrypt(cold[p]);
        if hashes[p] != env.xxh64(dst) {
          return 1, dst;
        }
      } else {
        assert q.nodes[0].warm == st.entries[0].slot;
        dst := warm[reqPage.warm];
      }
      return 0, dst;
    }

    /** Write all pages back, from the rear; the table is left as it was. */
    method CachePurge()
      requires Stores() && Nodes(st.entries) && env.Valid() && VmeSpec.Distinct(st.entries)
      modifies this`freeWarm, this`st, q, q.repr`next, cold, hashes
      ensures Stores() && Nodes(st.entries) && q.repr == old(q.repr)
      ensures st.entries == [] && SameBytes(env, old(st), st)
    {
      hide Find, Nodes, Sizes, SameBytes, VmeSpec.DeQueue, Env.Valid, VmeSpec.Distinct;
      ghost var was := st;
      NodesCount(st.entries);
      SameStart(env, st);
      while q.count != 0
        invariant Stores() && Nodes(st.entries) && q.repr == old(q.repr)
        invariant SameBytes(env, was, st) && VmeSpec.Distinct(st.entries) && q.count == |st.entries| == |q.nodes|
        decreases |q.nodes|
      {
        DropSame(env, was, st);
        DeQueue();
        NodesCount(st.entries);
      }
    }

    lemma SameStart(e: Env, s: State)
      requires Sizes(s)
      ensures SameBytes(e, s, s)
    {
    }

    lemma TableEmpty(h: seq<QNode?>)
      requires forall p :: 0 <= p < |h| ==> h[p] == null
      ensures Leads(h, [], [])
    {
    }

    method Clear()
      requires warm != cold
      modifies warm, cold, hashes
      ensures warm[..] == seq(warm.Length, i => env.zeros) && cold[..] == seq(cold.Length, i => env.zeros)
      ensures hashes[..] == seq(hashes.Length, i => 0)
    {
      forall i | 0 <= i < cold.Length { cold[i] := env.zeros; }
      forall i | 0 <= i < warm.Length { warm[i] := env.zeros; }
      forall i | 0 <= i < hashes.Length { hashes[i] := 0; }
    }

    /** Whatever the cache held, it is as new. */
    method CacheReset()
      requires Valid()
      modifies this, q, q.repr, warm, cold, hashes
      ensures Valid() && fresh(q) && fresh(hash) && fresh(q.repr)
      ensures st == VmeSpec.Fresh(env, warm.Length, cold.Length)
    {
      hide Leads, Inv, Sizes, SameBytes, Env.Valid, Nodes, VmeSpec.Distinct, VmeSpec.Fresh, Queue.Valid;
      KnowInv();
      CachePurge();
      q := new Queue(warm.Length);
      hash := new QNode?[cold.Length](_ => null);
      Clear();
      zeroPage := env.zeros;
      freeWarm := 0;
      st := VmeSpec.Fresh(env, warm.Length, cold.Length);
      NewIsValid();
    }

    lemma NewIsValid()
      requires env.Valid() && 0 < warm.Length && warm != cold && hash.Length == cold.Length == hashes.Length
      requires q.Valid() && q.nodes == [] && q.numberOfFrames == warm.Length
      requires zeroPage == env.zeros && freeWarm == 0 && forall p :: 0 <= p < hash.Length ==> hash[p] == null
      requires warm[..] == seq(warm.Length, i => env.zeros) && cold[..] == seq(cold.Length, i => env.zeros)
      requires hashes[..] == seq(hashes.Length, i => 0)
      requires st == VmeSpec.Fresh(env, warm.Length, cold.Length)
      ensures Valid()
    {
      hide Leads, Sealed, Env.Valid, Queue.Linked;
      VmeRuns.FreshInv(env, warm.Length, cold.Length);
      TableEmpty(hash[..]);
    }
  }
}
