/**
  How connections lock the b-trees they share.  Each connection keeps its sharable b-trees in ascending
  order of the BtShared they use; when it cannot get a mutex at once, it lets go of all later ones, waits,
  and takes the later ones again in order.  The connections run interleaved: a state machine in which
  each step is one action on one mutex.
 */
module BtMutex {

  import opened Basics

  /** A Btree: the address of its BtShared, which names the mutex, and its two lock fields. */
  datatype Node = Node(bt: nat, want: nat, locked: bool)

  /** Where a connection is: the k-th Btree of its list is the one being entered. */
  datatype Pc =
    | Idle
    | Trying(k: nat)              // before sqlite3_mutex_try
    | Releasing(k: nat, j: nat)   // first loop of btreeLockCarefully, at the j-th Btree
    | Waiting(k: nat)             // before lockBtreeMutex(p)
    | Retaking(k: nat, j: nat)    // second loop, at the j-th Btree

  datatype Conn = Conn(list: seq<Node>, pc: Pc)

  /** The connections, and which of them owns each mutex that is taken. */
  datatype State = State(conns: seq<Conn>, owner: map<nat, nat>)

  /** Go is the next action of Enter; sqlite3_mutex_try may fail even if the mutex is free. */
  datatype Action = Enter(k: nat) | Leave(k: nat) | Go(tryFails: bool) | Open(bt: nat)

  // ---- the list of a connection

  predicate Sorted(s: seq<Node>) {
    forall i, j :: 0 <= i < j < |s| ==> s[i].bt < s[j].bt
  }

  /** The place for a new Btree in the list. */
  function Place(s: seq<Node>, bt: nat): (i: nat)
    ensures i <= |s|
    ensures i > 0 ==> s[i - 1].bt < bt
  {
    if s == [] || bt <= s[|s| - 1].bt then (if s == [] then 0 else Place(s[..|s| - 1], bt)) else |s|
  }

  function Linked(s: seq<Node>, bt: nat): seq<Node> {
    s[..Place(s, bt)] + [Node(bt, 0, false)] + s[Place(s, bt)..]
  }

  lemma {:induction false} PlaceSplits(s: seq<Node>, bt: nat)
    requires Sorted(s)
    ensures forall i :: 0 <= i < |s| ==> if i < Place(s, bt) then s[i].bt < bt else s[i].bt >= bt
  {
    if s != [] && bt <= s[|s| - 1].bt {
      PlaceSplits(s[..|s| - 1], bt);
      assert forall i :: 0 <= i < |s| - 1 ==> s[i] == s[..|s| - 1][i];
    }
  }

  lemma LinkedSorted(s: seq<Node>, bt: nat)
    requires Sorted(s) && forall i :: 0 <= i < |s| ==> s[i].bt != bt
    ensures Sorted(Linked(s, bt))
  {
    PlaceSplits(s, bt);
  }

  /** Link a new Btree in, starting from the place of any sibling. */
  method Link(s: seq<Node>, sib: nat, bt: nat) returns (t: seq<Node>)
    requires Sorted(s) && sib < |s| && forall i :: 0 <= i < |s| ==> s[i].bt != bt
    ensures t == Linked(s, bt)
  {
    PlaceSplits(s, bt);
    var i := sib;
    while i > 0
      invariant 0 <= i <= sib
    {
      i := i - 1;
    }
    if bt < s[i].bt {
      t := [Node(bt, 0, false)] + s;
      assert Place(s, bt) == 0;
    } else {
      while i + 1 < |s| && s[i + 1].bt < bt
          invariant i < |s| && s[i].bt < bt
      {
        i := i + 1;
      }
      assert Place(s, bt) == i + 1;
      t := s[..i + 1] + [Node(bt, 0, false)] + s[i + 1..];
    }
  }

  // ---- the rule for each point of the protocol

  predicate Settled(n: Node) {
    n.locked <==> n.want > 0
  }

  predicate ConnOk(c: Conn) {
    && Sorted(c.list)
    && match c.pc
       case Idle => forall i :: 0 <= i < |c.list| ==> Settled(c.list[i])
       case Trying(k) =>
         && k < |c.list| && c.list[k].want > 0 && !c.list[k].locked
         && forall i :: 0 <= i < |c.list| && i != k ==> Settled(c.list[i])
       case Releasing(k, j) =>
         && k < j <= |c.list| && c.list[k].want > 0 && !c.list[k].locked
         && forall i :: 0 <= i < |c.list| && i != k ==> if k < i < j then !c.list[i].locked else Settled(c.list[i])
       case Waiting(k) =>
         && k < |c.list| && c.list[k].want > 0
         && forall i :: 0 <= i < |c.list| ==> if i < k then Settled(c.list[i]) else !c.list[i].locked
       case Retaking(k, j) =>
         && k < j <= |c.list|
         && forall i :: 0 <= i < |c.list| ==> if i < j then Settled(c.list[i]) else !c.list[i].locked
  }

  // ---- the steps

  function SetNode(c: Conn, k: nat, n: Node, pc: Pc): Conn
    requires k < |c.list|
  {
    Conn(c.list[k := n], pc)
  }

  /** The mutex that a connection is about to block on. */
  function Wanted(c: Conn): set<nat> {
    match c.pc
    case Waiting(k) => if k < |c.list| then {c.list[k].bt} else {}
    case Retaking(k, j) => if j < |c.list| && c.list[j].want > 0 then {c.list[j].bt} else {}
    case _ => {}
  }

  predicate Blocked(s: State, c: nat)
    requires c < |s.conns|
  {
    exists m :: m in Wanted(s.conns[c]) && m in s.owner
  }

  predicate Enabled(s: State, c: nat, a: Action)
    requires c < |s.conns|
  {
    var x := s.conns[c];
    match a
    case Enter(k) => x.pc == Idle && k < |x.list|
    case Leave(k) => x.pc == Idle && k < |x.list| && x.list[k].want > 0
    case Open(bt) => x.pc == Idle && forall i :: 0 <= i < |x.list| ==> x.list[i].bt != bt
    case Go(_) => x.pc != Idle && !Blocked(s, c)
  }

  /** Connection c takes the mutex of its k-th Btree. */
  function Take(s: State, c: nat, k: nat, pc: Pc): State
    requires c < |s.conns| && k < |s.conns[c].list|
  {
    var x := s.conns[c];
    State(s.conns[c := SetNode(x, k, x.list[k].(locked := true), pc)], s.owner[x.list[k].bt := c])
  }

  /** Connection c gives up the mutex of its k-th Btree, which is left with the given count. */
  function Drop(s: State, c: nat, k: nat, want: nat, pc: Pc): State
    requires c < |s.conns| && k < |s.conns[c].list|
  {
    var x := s.conns[c];
    State(s.conns[c := SetNode(x, k, Node(x.list[k].bt, want, false), pc)], s.owner - {x.list[k].bt})
  }

  function Move(s: State, c: nat, x: Conn): State
    requires c < |s.conns|
  {
    s.(conns := s.conns[c := x])
  }

  function Next(s: State, c: nat, a: Action): State
    requires c < |s.conns| && Enabled(s, c, a) && ConnOk(s.conns[c])
  {
    var x := s.conns[c];
    match a
    case Enter(k) =>
      var n := x.list[k];
      Move(s, c, SetNode(x, k, n.(want := n.want + 1), if n.locked then Idle else Trying(k)))
    case Leave(k) =>
      var n := x.list[k];
      if n.want == 1 then Drop(s, c, k, 0, Idle)
      else Move(s, c, SetNode(x, k, n.(want := n.want - 1), Idle))
    case Open(bt) => Move(s, c, Conn(Linked(x.list, bt), Idle))
    case Go(tryFails) =>
      match x.pc
      case Trying(k) =>
        if x.list[k].bt !in s.owner && !tryFails then Take(s, c, k, Idle)
        else Move(s, c, x.(pc := Releasing(k, k + 1)))
      case Releasing(k, j) =>
        if j >= |x.list| then Move(s, c, x.(pc := Waiting(k)))
        else if x.list[j].locked then Drop(s, c, j, x.list[j].want, Releasing(k, j + 1))
        else Move(s, c, x.(pc := Releasing(k, j + 1)))
      case Waiting(k) => Take(s, c, k, Retaking(k, k + 1))
      case Retaking(k, j) =>
        if j >= |x.list| then Move(s, c, x.(pc := Idle))
        else if x.list[j].want > 0 then Take(s, c, j, Retaking(k, j + 1))
        else Move(s, c, x.(pc := Retaking(k, j + 1)))
  }

  // ---- what every state of every run satisfies

  predicate Holds(c: Conn, m: nat) {
    exists i :: 0 <= i < |c.list| && c.list[i].bt == m && c.list[i].locked
  }

  /** The owner of a mutex is the connection that has a Btree of it locked. */
  ghost predicate Owned(s: State) {
    && (forall m :: m in s.owner ==> s.owner[m] < |s.conns|)
    && (forall c, m :: 0 <= c < |s.conns| ==> (Holds(s.conns[c], m) <==> m in s.owner && s.owner[m] == c))
  }

  ghost predicate Inv(s: State) {
    (forall c :: 0 <= c < |s.conns| ==> ConnOk(s.conns[c])) && Owned(s)
  }

  lemma UseConnOk(s: State, c: nat, k: nat)
    requires c < |s.conns| && s.conns[c].pc == Idle && ConnOk(s.conns[c]) && k < |s.conns[c].list|
    ensures ConnOk(Next(s, c, Enter(k)).conns[c])
    ensures s.conns[c].list[k].want > 0 ==> ConnOk(Next(s, c, Leave(k)).conns[c])
  {
  }

  lemma OpenConnOk(s: State, c: nat, bt: nat)
    requires c < |s.conns| && Enabled(s, c, Open(bt)) && ConnOk(s.conns[c])
    ensures ConnOk(Next(s, c, Open(bt)).conns[c])
  {
    hide Linked;
    LinkedSorted(s.conns[c].list, bt);
    LinkedAt(s.conns[c].list, bt);
  }

  lemma GoConnOk(s: State, c: nat, b: bool)
    requires c < |s.conns| && Enabled(s, c, Go(b)) && ConnOk(s.conns[c])
    ensures ConnOk(Next(s, c, Go(b)).conns[c])
  {
    hide Linked;
  }

  /** Only the connection that steps changes, and it stays at a point of the protocol. */
  lemma StepConnOk(s: State, c: nat, a: Action)
    requires c < |s.conns| && Enabled(s, c, a) && ConnOk(s.conns[c])
    ensures |Next(s, c, a).conns| == |s.conns| && ConnOk(Next(s, c, a).conns[c])
    ensures forall d :: 0 <= d < |s.conns| && d != c ==> Next(s, c, a).conns[d] == s.conns[d]
  {
    hide ConnOk, Linked;
    match a
    case Enter(k) => UseConnOk(s, c, k);
    case Leave(k) => UseConnOk(s, c, k);
    case Open(bt) => OpenConnOk(s, c, bt);
    case Go(b) => GoConnOk(s, c, b);
  }

  lemma LinkedAt(s: seq<Node>, bt: nat)
    ensures |Linked(s, bt)| == |s| + 1
    ensures forall i {:trigger Linked(s, bt)[i]} :: 0 <= i <= |s| ==>
      Linked(s, bt)[i] == if i < Place(s, bt) then s[i] else if i == Place(s, bt) then Node(bt, 0, false) else s[i - 1]
  {
  }

  lemma SameHolds(c: Conn, d: Conn, m: nat)
    requires |c.list| == |d.list|
    requires forall i :: 0 <= i < |c.list| ==> c.list[i].bt == d.list[i].bt && c.list[i].locked == d.list[i].locked
    ensures Holds(c, m) <==> Holds(d, m)
  {
    if Holds(c, m) {
      var i :| 0 <= i < |c.list| && c.list[i].bt == m && c.list[i].locked;
      assert d.list[i].bt == m && d.list[i].locked;
    }
    if Holds(d, m) {
      var i :| 0 <= i < |d.list| && d.list[i].bt == m && d.list[i].locked;
      assert c.list[i].bt == m && c.list[i].locked;
    }
  }

  lemma SetHolds(c: Conn, k: nat, n: Node, pc: Pc, m: nat)
    requires k < |c.list| && Sorted(c.list) && n.bt == c.list[k].bt
    ensures Holds(SetNode(c, k, n, pc), m) <==> if m == n.bt then n.locked else Holds(c, m)
  {
    var d := SetNode(c, k, n, pc);
    assert d.list[k] == n;
    if m != n.bt && Holds(c, m) {
      var i :| 0 <= i < |c.list| && c.list[i].bt == m && c.list[i].locked;
      assert d.list[i].bt == m && d.list[i].locked;
    }
  }

  lemma TakeOwned(s: State, c: nat, k: nat, pc: Pc)
    requires Owned(s) && c < |s.conns| && k < |s.conns[c].list| && Sorted(s.conns[c].list)
    requires s.conns[c].list[k].bt !in s.owner
    ensures Owned(Take(s, c, k, pc))
  {
    var x := s.conns[c];
    forall m ensures Holds(Take(s, c, k, pc).conns[c], m) <==> m == x.list[k].bt || Holds(x, m) {
      SetHolds(x, k, x.list[k].(locked := true), pc, m);
    }
  }

  lemma DropOwned(s: State, c: nat, k: nat, want: nat, pc: Pc)
    requires Owned(s) && c < |s.conns| && k < |s.conns[c].list| && Sorted(s.conns[c].list)
    requires s.conns[c].list[k].locked
    ensures Owned(Drop(s, c, k, want, pc))
  {
    var x := s.conns[c];
    var b := x.list[k].bt;
    assert Holds(x, b);
    forall m ensures Holds(Drop(s, c, k, want, pc).conns[c], m) <==> m != b && Holds(x, m) {
      SetHolds(x, k, Node(b, want, false), pc, m);
    }
  }

  /** Changing a count, the place in the protocol, or the list by an unlocked Btree, takes and drops nothing. */
  lemma UseOwned(s: State, c: nat, k: nat, want: nat, pc: Pc)
    requires Owned(s) && c < |s.conns| && k < |s.conns[c].list|
    ensures Owned(Move(s, c, SetNode(s.conns[c], k, s.conns[c].list[k].(want := want), pc)))
    ensures Owned(Move(s, c, s.conns[c].(pc := pc)))
  {
    var x := s.conns[c];
    forall m ensures Holds(SetNode(x, k, x.list[k].(want := want), pc), m) <==> Holds(x, m) {
      SameHolds(x, SetNode(x, k, x.list[k].(want := want), pc), m);
    }
    forall m ensures Holds(x.(pc := pc), m) <==> Holds(x, m) {
      SameHolds(x, x.(pc := pc), m);
    }
  }

  lemma OpenOwned(s: State, c: nat, bt: nat)
    requires Owned(s) && c < |s.conns|
    ensures Owned(Move(s, c, Conn(Linked(s.conns[c].list, bt), Idle)))
  {
    hide Linked;
    var x, y := s.conns[c], Conn(Linked(s.conns[c].list, bt), Idle);
    LinkedAt(x.list, bt);
    var p := Place(x.list, bt);
    forall m ensures Holds(y, m) <==> Holds(x, m) {
      if Holds(x, m) {
        var i :| 0 <= i < |x.list| && x.list[i].bt == m && x.list[i].locked;
        assert y.list[if i < p then i else i + 1] == x.list[i];
      }
      if Holds(y, m) {
        var i :| 0 <= i < |y.list| && y.list[i].bt == m && y.list[i].locked;
        assert y.list[i] == x.list[if i < p then i else i - 1];
      }
    }
  }

  lemma GoOwned(s: State, c: nat, b: bool)
    requires Inv(s) && c < |s.conns| && Enabled(s, c, Go(b))
    ensures Owned(Next(s, c, Go(b)))
  {
    hide Owned;
    var x := s.conns[c];
    assert forall m :: m in Wanted(x) ==> m !in s.owner;
    match x.pc
    case Trying(k) =>
      if x.list[k].bt !in s.owner && !b {
        TakeOwned(s, c, k, Idle);
      } else {
        UseOwned(s, c, k, 0, Releasing(k, k + 1));
      }
    case Releasing(k, j) =>
      if j < |x.list| && x.list[j].locked { DropOwned(s, c, j, x.list[j].want, Releasing(k, j + 1)); }
      else { UseOwned(s, c, k, 0, if j < |x.list| then Releasing(k, j + 1) else Waiting(k)); }
    case Waiting(k) => TakeOwned(s, c, k, Retaking(k, k + 1));
    case Retaking(k, j) =>
      if j < |x.list| && x.list[j].want > 0 { TakeOwned(s, c, j, Retaking(k, j + 1)); }
      else { UseOwned(s, c, k, 0, if j < |x.list| then Retaking(k, j + 1) else Idle); }
  }

  /** Every step of every connection keeps the invariant. */
  lemma StepKeeps(s: State, c: nat, a: Action)
    requires Inv(s) && c < |s.conns| && Enabled(s, c, a)
    ensures Inv(Next(s, c, a)) && |Next(s, c, a).conns| == |s.conns|
  {
    hide Owned, Linked, Holds;
    StepConnOk(s, c, a);
    var x := s.conns[c];
    match a
    case Enter(k) => UseOwned(s, c, k, x.list[k].want + 1, if x.list[k].locked then Idle else Trying(k));
    case Leave(k) =>
      if x.list[k].want == 1 { DropOwned(s, c, k, 0, Idle); } else { UseOwned(s, c, k, x.list[k].want - 1, Idle); }
    case Open(bt) => OpenOwned(s, c, bt);
    case Go(b) => GoOwned(s, c, b);
  }

  // ---- no deadlock

  /** A connection only ever waits for a mutex above all those it holds. */
  lemma WaitsAbove(x: Conn, m: nat, h: nat)
    requires ConnOk(x) && m in Wanted(x) && Holds(x, h)
    ensures h < m
  {
  }

  /** If a connection is blocked, some connection that holds what another one waits for is not blocked. */
  lemma {:induction false} SomeHolderRuns(s: State, c: nat, m: nat) returns (d: nat, h: nat, w: nat)
    requires Inv(s) && c < |s.conns| && m in Wanted(s.conns[c]) && m in s.owner
    ensures d < |s.conns| && w < |s.conns| && !Blocked(s, d)
    ensures h in Wanted(s.conns[w]) && h in s.owner && s.owner[h] == d
    decreases |set x | x in s.owner && x > m|
  {
    d, h, w := s.owner[m], m, c;
    if Blocked(s, d) {
      var n :| n in Wanted(s.conns[d]) && n in s.owner;
      WaitsAbove(s.conns[d], n, m);
      var above, higher := set x | x in s.owner && x > m, set x | x in s.owner && x > n;
      assert higher <= above && n in above && n !in higher;
      SmallerSet(higher, above, n);
      d, h, w := SomeHolderRuns(s, d, n);
    }
  }

  lemma SmallerSet<T>(a: set<T>, b: set<T>, x: T)
    requires a <= b && x in b && x !in a
    ensures |a| < |b|
  {
    assert a <= b - {x};
    FewerElements(a, b - {x});
  }

  /** Connection c waits for a mutex that connection d holds. */
  predicate WaitsFor(s: State, c: nat, d: nat) {
    c < |s.conns| && exists m :: m in Wanted(s.conns[c]) && m in s.owner && s.owner[m] == d
  }

  lemma {:induction false} ChainAscends(s: State, cs: seq<nat>, n: nat, m: nat)
    requires Inv(s) && 0 < n < |cs| && (forall i :: 0 <= i < n ==> WaitsFor(s, cs[i], cs[i + 1]))
    requires cs[0] < |s.conns| && m in Wanted(s.conns[cs[0]])
    ensures cs[n] < |s.conns| && exists h :: h >= m && Holds(s.conns[cs[n]], h)
  {
    assert WaitsFor(s, cs[n - 1], cs[n - 1 + 1]);
    var w :| w in Wanted(s.conns[cs[n - 1]]) && w in s.owner && s.owner[w] == cs[n];
    assert Holds(s.conns[cs[n]], w);
    if n > 1 {
      ChainAscends(s, cs, n - 1, m);
      var h :| h >= m && Holds(s.conns[cs[n - 1]], h);
      WaitsAbove(s.conns[cs[n - 1]], w, h);
    }
  }

  /** No connections wait for each other in a circle. */
  lemma NoWaitCycle(s: State, cs: seq<nat>)
    requires Inv(s) && |cs| > 1 && cs[|cs| - 1] == cs[0]
    ensures exists i :: 0 <= i < |cs| - 1 && !WaitsFor(s, cs[i], cs[i + 1])
  {
    if forall i :: 0 <= i < |cs| - 1 ==> WaitsFor(s, cs[i], cs[i + 1]) {
      assert WaitsFor(s, cs[0], cs[0 + 1]);
      var m :| m in Wanted(s.conns[cs[0]]) && m in s.owner;
      ChainAscends(s, cs, |cs| - 1, m);
      var h :| h >= m && Holds(s.conns[cs[0]], h);
      WaitsAbove(s.conns[cs[0]], m, h);
      assert false;
    }
  }

  // ---- runs

  function Initial(n: nat): State {
    State(seq(n, i => Conn([], Idle)), map[])
  }

  datatype Label = Label(conn: nat, action: Action)

  ghost predicate Run(n: nat, tr: seq<State>, ls: seq<Label>) {
    && |tr| == |ls| + 1 && tr[0] == Initial(n)
    && forall i :: 0 <= i < |ls| ==> Stepped(tr[i], ls[i], tr[i + 1])
  }

  ghost predicate Stepped(s: State, l: Label, t: State) {
    Inv(s) ==> l.conn < |s.conns| && Enabled(s, l.conn, l.action) && t == Next(s, l.conn, l.action)
  }

  /** Connection c is between calls: exactly the Btrees with a positive count are locked, and it owns their mutexes. */
  predicate Quiet(s: State, c: nat, k: nat)
    requires c < |s.conns| && k < |s.conns[c].list|
  {
    var b := s.conns[c].list[k];
    (b.locked <==> b.want > 0) && (b.want > 0 <==> b.bt in s.owner && s.owner[b.bt] == c)
  }

  lemma IdleQuiet(s: State, c: nat, k: nat)
    requires Inv(s) && c < |s.conns| && s.conns[c].pc == Idle && k < |s.conns[c].list|
    ensures Quiet(s, c, k)
  {
    var x := s.conns[c];
    assert Settled(x.list[k]);
    assert Holds(x, x.list[k].bt) <==> x.list[k].locked;
  }

  lemma {:induction false} RunInv(n: nat, tr: seq<State>, ls: seq<Label>, i: nat)
    requires Run(n, tr, ls) && i <= |ls|
    ensures Inv(tr[i]) && |tr[i].conns| == n
  {
    hide ConnOk, Next;
    if i > 0 {
      RunInv(n, tr, ls, i - 1);
      assert Stepped(tr[i - 1], ls[i - 1], tr[i]);
      StepKeeps(tr[i - 1], ls[i - 1].conn, ls[i - 1].action);
    } else {
      InitialInv(n);
    }
  }

  lemma InitialInv(n: nat)
    ensures Inv(Initial(n))
  {
  }

  /** After each Enter or Leave, a Btree is locked exactly when its count is positive. */
  lemma RunSafe(n: nat, tr: seq<State>, ls: seq<Label>, i: nat, c: nat, k: nat)
    requires Run(n, tr, ls) && i <= |ls| && c < |tr[i].conns|
    requires tr[i].conns[c].pc == Idle && k < |tr[i].conns[c].list|
    ensures Quiet(tr[i], c, k)
  {
    RunInv(n, tr, ls, i);
    IdleQuiet(tr[i], c, k);
  }

  /** No reachable state is stuck: if a connection is blocked, one that holds a mutex others wait for is not. */
  lemma RunNeverStuck(n: nat, tr: seq<State>, ls: seq<Label>, i: nat, c: nat)
    requires Run(n, tr, ls) && i <= |ls| && c < |tr[i].conns| && Blocked(tr[i], c)
    ensures exists m, d :: m in tr[i].owner && tr[i].owner[m] == d && d < |tr[i].conns| && !Blocked(tr[i], d)
  {
    hide Inv, Blocked;
    RunInv(n, tr, ls, i);
    var m := BlockedOn(tr[i], c);
    var d, h, w := SomeHolderRuns(tr[i], c, m);
    assert tr[i].owner[h] == d;
  }

  lemma BlockedOn(s: State, c: nat) returns (m: nat)
    requires c < |s.conns| && Blocked(s, c)
    ensures m in Wanted(s.conns[c]) && m in s.owner
  {
    m :| m in Wanted(s.conns[c]) && m in s.owner;
  }

  predicate SameCounts(x: Conn, y: Conn) {
    && |x.list| == |y.list|
    && forall i :: 0 <= i < |x.list| ==> x.list[i].bt == y.list[i].bt && x.list[i].want == y.list[i].want
  }

  lemma StepCounts(s: State, c: nat, a: Action, d: nat)
    requires c < |s.conns| && Enabled(s, c, a) && ConnOk(s.conns[c]) && d < |s.conns| && (c == d ==> a.Go?)
    ensures |Next(s, c, a).conns| == |s.conns| && SameCounts(s.conns[d], Next(s, c, a).conns[d])
  {
    hide Linked;
  }

  predicate Busy(s: State, c: nat) {
    c < |s.conns| && s.conns[c].pc != Idle
  }

  /**
    Enter returns with the count of its Btree one higher and all other counts as they were, whatever the
    other connections did meanwhile, and whatever it had to release and take again.
   */
  lemma {:induction false} EnterCounts(n: nat, tr: seq<State>, ls: seq<Label>, i: nat, j: nat, c: nat, k: nat)
    requires Run(n, tr, ls) && i < j <= |ls| && ls[i] == Label(c, Enter(k)) && c < n
    requires forall h :: i < h < j ==> Busy(tr[h], c)
    ensures |tr[i].conns| == |tr[j].conns| == n && k < |tr[i].conns[c].list|
    ensures var x := tr[i].conns[c];
      SameCounts(SetNode(x, k, x.list[k].(want := x.list[k].want + 1), Idle), tr[j].conns[c])
    decreases j
  {
    hide Owned, Linked, Holds, Next, ConnOk;
    RunInv(n, tr, ls, i);
    RunInv(n, tr, ls, j - 1);
    assert Stepped(tr[i], ls[i], tr[i + 1]);
    if j == i + 1 {
      EnterCount(tr[i], c, k);
    } else {
      EnterCounts(n, tr, ls, i, j - 1, c, k);
      assert Busy(tr[j - 1], c);
      assert Stepped(tr[j - 1], ls[j - 1], tr[j]);
      StepCounts(tr[j - 1], ls[j - 1].conn, ls[j - 1].action, c);
    }
  }

  lemma EnterCount(s: State, c: nat, k: nat)
    requires c < |s.conns| && Enabled(s, c, Enter(k)) && ConnOk(s.conns[c])
    ensures |Next(s, c, Enter(k)).conns| == |s.conns|
    ensures var x := s.conns[c];
      SameCounts(SetNode(x, k, x.list[k].(want := x.list[k].want + 1), Idle), Next(s, c, Enter(k)).conns[c])
  {
  }
}
