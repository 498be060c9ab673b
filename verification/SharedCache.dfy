/**
  Table locks and transactions of connections that share one b-tree cache, as a state machine on values.
  A connection is a number, an index into trans.
 */
module SharedCache {

  import opened Basics

  datatype Trans = NoTrans | ReadTrans | WriteTrans

  /** A BtLock: connection owner has locked table tab, for writing if write is set. */
  datatype Lock = Lock(owner: nat, tab: nat, write: bool)

  datatype Rc = OK | LOCKED | FAILED

  /** BtShared: the locks from the head of the list, the one writer, the flags, and the state of each Btree. */
  datatype State = State(
    locks: seq<Lock>, writer: Option<nat>, exclusive: bool, pending: bool,
    nTransaction: int, inTransaction: Trans, trans: seq<Trans>)

  const MASTER_ROOT := 1

  function Rank(t: Trans): nat {
    match t case NoTrans => 0 case ReadTrans => 1 case WriteTrans => 2
  }

  // ---- table locks

  /** The test of querySharedCacheTableLock for one entry of the list. */
  predicate Clashes(l: Lock, p: nat, tab: nat, write: bool) {
    l.owner != p && l.tab == tab && l.write != write
  }

  /** What the test stands for: two locks of different connections on one table, not both for reading. */
  predicate Conflict(l: Lock, p: nat, tab: nat, write: bool) {
    l.owner != p && l.tab == tab && (l.write || write)
  }

  predicate Clash(s: seq<Lock>, p: nat, tab: nat, write: bool) {
    exists i :: 0 <= i < |s| && Clashes(s[i], p, tab, write)
  }

  predicate Excluded(s: State, p: nat) {
    s.writer != Some(p) && s.exclusive
  }

  predicate Refused(s: State, p: nat, tab: nat, write: bool) {
    Excluded(s, p) || Clash(s.locks, p, tab, write)
  }

  function Queried(s: State, p: nat, tab: nat, write: bool): State {
    if !Excluded(s, p) && Clash(s.locks, p, tab, write) && write then s.(pending := true) else s
  }

  /** The place of p's lock on the table, or |s|. */
  function Mine(s: seq<Lock>, p: nat, tab: nat): (i: nat)
    ensures i <= |s| && (i < |s| ==> s[i].owner == p && s[i].tab == tab)
    ensures forall j :: 0 <= j < i ==> !(s[j].owner == p && s[j].tab == tab)
  {
    if s == [] || (s[0].owner == p && s[0].tab == tab) then 0
    else
      var i := Mine(s[1..], p, tab);
      assert forall j :: 1 <= j < i + 1 ==> s[j] == s[1..][j - 1];
      i + 1
  }

  function WithLock(s: seq<Lock>, p: nat, tab: nat, write: bool): seq<Lock> {
    var i := Mine(s, p, tab);
    if i == |s| then [Lock(p, tab, write)] + s
    else s[i := Lock(p, tab, s[i].write || write)]
  }

  function Without(s: seq<Lock>, p: nat): (t: seq<Lock>)
    ensures forall l :: l in t <==> l in s && l.owner != p
  {
    if s == [] then []
    else if s[0].owner == p then Without(s[1..], p) else [s[0]] + Without(s[1..], p)
  }

  function ReadOnly(s: seq<Lock>): (t: seq<Lock>)
    ensures |t| == |s| && forall i :: 0 <= i < |s| ==> t[i] == s[i].(write := false)
  {
    seq(|s|, i requires 0 <= i < |s| => s[i].(write := false))
  }

  // ---- transactions

  predicate OthersLock(s: seq<Lock>, p: nat) {
    exists i :: 0 <= i < |s| && s[i].owner != p
  }

  /** Begin does nothing because p has such a transaction already. */
  predicate Begun(s: State, p: nat, wrflag: nat)
    requires p < |s.trans|
  {
    s.trans[p] == WriteTrans || (s.trans[p] == ReadTrans && wrflag == 0)
  }

  predicate BeginRefused(s: State, p: nat, wrflag: nat)
    requires p < |s.trans|
  {
    || (wrflag > 0 && s.inTransaction == WriteTrans) || s.pending
    || (wrflag > 1 && OthersLock(s.locks, p))
    || Refused(s, p, MASTER_ROOT, false)
  }

  /** A transaction starts; pagerOk says that the pager could start one as well. */
  function Begin(s: State, p: nat, wrflag: nat, pagerOk: bool): State
    requires p < |s.trans|
  {
    if Begun(s, p, wrflag) || BeginRefused(s, p, wrflag) || !pagerOk then s else Start(s, p, wrflag)
  }

  function Start(s: State, p: nat, wrflag: nat): State
    requires p < |s.trans|
  {
    var isNew := s.trans[p] == NoTrans;
    var t := if wrflag > 0 then WriteTrans else ReadTrans;
    s.(nTransaction := if isNew then s.nTransaction + 1 else s.nTransaction,
       locks := if isNew then [Lock(p, MASTER_ROOT, false)] + s.locks else s.locks,
       trans := s.trans[p := t],
       inTransaction := if Rank(t) > Rank(s.inTransaction) then t else s.inTransaction,
       writer := if wrflag > 0 then Some(p) else s.writer,
       exclusive := if wrflag > 0 then wrflag > 1 else s.exclusive)
  }

  function Downgraded(s: State, p: nat): State {
    if s.writer == Some(p) then
      s.(writer := None, exclusive := false, pending := false, locks := ReadOnly(s.locks))
    else s
  }

  function Cleared(s: State, p: nat): State {
    var t := s.(locks := Without(s.locks, p));
    if s.writer == Some(p) then t.(writer := None, exclusive := false, pending := false)
    else if s.nTransaction == 2 then t.(pending := false)
    else t
  }

  /** btreeEndTransaction; busy says that the connection has other statements that still read. */
  function End(s: State, p: nat, busy: bool): State
    requires p < |s.trans|
  {
    if s.trans[p] != NoTrans && busy then
      var t := Downgraded(s, p);
      t.(trans := t.trans[p := ReadTrans])
    else if s.trans[p] != NoTrans then
      var t := Cleared(s, p);
      t.(nTransaction := t.nTransaction - 1,
         inTransaction := if t.nTransaction == 1 then NoTrans else t.inTransaction,
         trans := t.trans[p := NoTrans])
    else s
  }

  /** The second phase of a commit, or a rollback: both end the transaction in the same way. */
  function Finish(s: State, p: nat, busy: bool): State
    requires p < |s.trans|
  {
    End(if s.trans[p] == WriteTrans then s.(inTransaction := ReadTrans) else s, p, busy)
  }

  // ---- what every state of every run satisfies

  predicate WriterOk(s: State) {
    && (forall c :: 0 <= c < |s.trans| ==> (s.trans[c] == WriteTrans <==> s.writer == Some(c)))
    && (s.writer.Some? ==> s.writer.value < |s.trans|)
  }

  predicate LocksOk(s: State) {
    && (forall i :: 0 <= i < |s.locks| ==>
      && s.locks[i].owner < |s.trans| && s.trans[s.locks[i].owner] != NoTrans
      && (s.locks[i].write ==> s.writer == Some(s.locks[i].owner))
      && (s.exclusive ==> s.writer == Some(s.locks[i].owner)))
    && (s.exclusive ==> s.writer.Some?)
  }

  /** No two connections hold conflicting locks on one table, and none holds two locks on one table. */
  predicate NoConflicts(s: seq<Lock>) {
    forall i, j :: 0 <= i < |s| && 0 <= j < |s| && i != j && s[i].tab == s[j].tab ==>
      s[i].owner != s[j].owner && !s[i].write
  }

  /** Each open transaction has a lock on the schema table. */
  predicate RootLocked(s: State) {
    forall c :: 0 <= c < |s.trans| && s.trans[c] != NoTrans ==> Mine(s.locks, c, MASTER_ROOT) < |s.locks|
  }

  function Open(ts: seq<Trans>): (n: nat)
    ensures n <= |ts|
  {
    if ts == [] then 0 else (if ts[0] == NoTrans then 0 else 1) + Open(ts[1..])
  }

  predicate Counted(s: State) {
    && s.nTransaction == Open(s.trans)
    && (s.inTransaction == WriteTrans <==> s.writer.Some?)
    && (s.inTransaction == NoTrans <==> s.nTransaction == 0)
  }

  /** While BTS_PENDING is set there is a writer, and someone else it waits for. */
  predicate PendingOk(s: State) {
    s.pending ==> s.writer.Some? && s.nTransaction >= 2
  }

  predicate Inv(s: State) {
    WriterOk(s) && LocksOk(s) && NoConflicts(s.locks) && RootLocked(s) && Counted(s) && PendingOk(s)
  }

  // ---- table locks keep it

  /**
    The test `pIter->eLock != eLock` finds exactly the conflicting locks, because whoever asks for a write
    lock is the only writer.
   */
  lemma TestIsExact(s: State, p: nat, tab: nat, write: bool)
    requires Inv(s) && (write ==> s.writer == Some(p))
    ensures Clash(s.locks, p, tab, write) <==> exists i :: 0 <= i < |s.locks| && Conflict(s.locks[i], p, tab, write)
  {
    if i :| 0 <= i < |s.locks| && Conflict(s.locks[i], p, tab, write) {
      assert Clashes(s.locks[i], p, tab, write);
    }
    if i :| 0 <= i < |s.locks| && Clashes(s.locks[i], p, tab, write) {
      assert Conflict(s.locks[i], p, tab, write);
    }
  }

  lemma {:induction false} OpenTwo(ts: seq<Trans>, c: nat, d: nat)
    requires c < d < |ts| && ts[c] != NoTrans && ts[d] != NoTrans
    ensures Open(ts) >= 2
  {
    if c > 0 {
      OpenTwo(ts[1..], c - 1, d - 1);
    } else {
      OpenOne(ts[1..], d - 1);
    }
  }

  lemma {:induction false} OpenOne(ts: seq<Trans>, c: nat)
    requires c < |ts| && ts[c] != NoTrans
    ensures Open(ts) >= 1
  {
    if c > 0 {
      OpenOne(ts[1..], c - 1);
    }
  }

  lemma {:induction false} OpenSet(ts: seq<Trans>, c: nat, t: Trans)
    requires c < |ts|
    ensures Open(ts[c := t]) == Open(ts) - (if ts[c] == NoTrans then 0 else 1) + if t == NoTrans then 0 else 1
  {
    if c == 0 {
      assert ts[c := t][1..] == ts[1..];
    } else {
      assert ts[c := t][1..] == ts[1..][c - 1 := t];
      OpenSet(ts[1..], c - 1, t);
    }
  }

  /** A refused write lock leaves BTS_PENDING set, and there is someone to wait for. */
  lemma QueriedKeeps(s: State, p: nat, tab: nat, write: bool)
    requires Inv(s) && (write ==> s.writer == Some(p))
    ensures Inv(Queried(s, p, tab, write))
  {
    if write && Clash(s.locks, p, tab, write) {
      var i :| 0 <= i < |s.locks| && Clashes(s.locks[i], p, tab, write);
      var q := s.locks[i].owner;
      OpenTwo(s.trans, if p < q then p else q, if p < q then q else p);
    }
  }

  lemma WithLockAt(s: seq<Lock>, p: nat, tab: nat, write: bool)
    ensures Mine(s, p, tab) == |s| ==> WithLock(s, p, tab, write) == [Lock(p, tab, write)] + s
    ensures forall c, t :: Mine(s, c, t) < |s| ==> Mine(WithLock(s, p, tab, write), c, t) < |WithLock(s, p, tab, write)|
  {
    var r := WithLock(s, p, tab, write);
    forall c, t | Mine(s, c, t) < |s| ensures Mine(r, c, t) < |r| {
      var j := Mine(s, c, t);
      var k := if Mine(s, p, tab) == |s| then j + 1 else j;
      assert r[k].owner == c && r[k].tab == t;
    }
  }

  /** A lock that was not refused conflicts with none. */
  lemma LockNoConflicts(s: seq<Lock>, p: nat, tab: nat, write: bool)
    requires NoConflicts(s) && !Clash(s, p, tab, write)
    requires write ==> forall i :: 0 <= i < |s| && s[i].write ==> s[i].owner == p
    ensures NoConflicts(WithLock(s, p, tab, write))
  {
    assert forall i :: 0 <= i < |s| ==> !Clashes(s[i], p, tab, write);
    var k, r := Mine(s, p, tab), WithLock(s, p, tab, write);
    if k == |s| {
      assert forall i :: 1 <= i < |r| ==> r[i] == s[i - 1];
    }
  }

  lemma LockKeeps(s: State, p: nat, tab: nat, write: bool)
    requires Inv(s) && p < |s.trans| && s.trans[p] != NoTrans && (write ==> s.writer == Some(p))
    requires !Refused(s, p, tab, write)
    ensures Inv(s.(locks := WithLock(s.locks, p, tab, write)))
  {
    hide Mine, NoConflicts;
    LockNoConflicts(s.locks, p, tab, write);
    WithLockAt(s.locks, p, tab, write);
  }

  // ---- transactions keep it

  lemma StartNoConflicts(s: State, p: nat)
    requires LocksOk(s) && NoConflicts(s.locks) && p < |s.trans| && s.trans[p] == NoTrans
    requires !Clash(s.locks, p, MASTER_ROOT, false)
    ensures NoConflicts([Lock(p, MASTER_ROOT, false)] + s.locks)
  {
    assert forall i :: 0 <= i < |s.locks| ==> !Clashes(s.locks[i], p, MASTER_ROOT, false) && s.locks[i].owner != p;
    var r := [Lock(p, MASTER_ROOT, false)] + s.locks;
    assert forall i :: 1 <= i < |r| ==> r[i] == s.locks[i - 1];
  }

  lemma StartLocks(s: State, p: nat, wrflag: nat)
    requires Inv(s) && p < |s.trans| && !Begun(s, p, wrflag) && !BeginRefused(s, p, wrflag)
    ensures LocksOk(Start(s, p, wrflag)) && WriterOk(Start(s, p, wrflag))
  {
    hide Mine, NoConflicts, Clash, RootLocked;
    var t := Start(s, p, wrflag);
    assert wrflag > 1 ==> forall i :: 0 <= i < |s.locks| ==> s.locks[i].owner == p;
  }

  lemma StartKeeps(s: State, p: nat, wrflag: nat)
    requires Inv(s) && p < |s.trans| && !Begun(s, p, wrflag) && !BeginRefused(s, p, wrflag)
    ensures Inv(Start(s, p, wrflag))
  {
    hide Mine, NoConflicts, Clash, RootLocked, LocksOk, OthersLock;
    OpenSet(s.trans, p, if wrflag > 0 then WriteTrans else ReadTrans);
    OpenOne(Start(s, p, wrflag).trans, p);
    StartLocks(s, p, wrflag);
    StartRoot(s, p, wrflag);
    if s.trans[p] == NoTrans {
      StartNoConflicts(s, p);
    }
  }

  lemma StartRoot(s: State, p: nat, wrflag: nat)
    requires RootLocked(s) && p < |s.trans|
    ensures RootLocked(Start(s, p, wrflag))
  {
    var t := Start(s, p, wrflag);
    forall c | 0 <= c < |t.trans| && t.trans[c] != NoTrans
      ensures Mine(t.locks, c, MASTER_ROOT) < |t.locks|
    {
      if s.trans[p] == NoTrans {
        var k := if c == p then 0 else Mine(s.locks, c, MASTER_ROOT) + 1;
        assert t.locks[k].owner == c && t.locks[k].tab == MASTER_ROOT;
      }
    }
  }

  lemma {:induction false} WithoutParts(s: seq<Lock>, p: nat)
    ensures NoConflicts(s) ==> NoConflicts(Without(s, p))
    ensures forall c, t :: c != p && Mine(s, c, t) < |s| ==> Mine(Without(s, p), c, t) < |Without(s, p)|
  {
    var r := Without(s, p);
    forall c, t | c != p && Mine(s, c, t) < |s| ensures Mine(r, c, t) < |r| {
      assert s[Mine(s, c, t)] in r;
    }
    if s != [] {
      WithoutParts(s[1..], p);
      assert forall i :: 0 <= i < |s[1..]| ==> s[1..][i] == s[i + 1];
      if NoConflicts(s) {
        assert NoConflicts(s[1..]);
        WithoutCons(s[0], Without(s[1..], p), s[1..]);
      }
    }
  }

  lemma WithoutCons(l: Lock, t: seq<Lock>, s: seq<Lock>)
    requires NoConflicts(t) && NoConflicts([l] + s) && forall x :: x in t ==> x in s
    ensures NoConflicts([l] + t)
  {
    var r := [l] + t;
    forall i | 0 <= i < |t| && t[i].tab == l.tab ensures t[i].owner != l.owner && !t[i].write && !l.write {
      assert t[i] in t;
      var j :| 0 <= j < |s| && s[j] == t[i];
      assert ([l] + s)[j + 1] == t[i] && ([l] + s)[0] == l;
    }
    assert forall i :: 1 <= i < |r| ==> r[i] == t[i - 1];
  }

  /** The locks of p are gone, those of all others stay. */
  lemma EndDrops(s: State, p: nat)
    requires Inv(s) && p < |s.trans| && s.trans[p] != NoTrans
    ensures var t := Finish(s, p, false); WriterOk(t) && LocksOk(t) && NoConflicts(t.locks) && RootLocked(t)
  {
    hide Mine, Without, NoConflicts;
    var t := Finish(s, p, false);
    WithoutParts(s.locks, p);
    forall i | 0 <= i < |t.locks|
      ensures t.locks[i].owner != p && t.locks[i] in s.locks
    {
      assert t.locks[i] in t.locks;
    }
  }

  lemma EndKeeps(s: State, p: nat)
    requires Inv(s) && p < |s.trans| && s.trans[p] != NoTrans
    ensures Inv(Finish(s, p, false))
  {
    hide Mine, Without, NoConflicts, RootLocked, LocksOk;
    EndDrops(s, p);
    OpenSet(s.trans, p, NoTrans);
    OpenOne(s.trans, p);
    if s.writer.Some? && s.writer.value != p {
      var lo := if p < s.writer.value then p else s.writer.value;
      OpenTwo(s.trans, lo, if p < s.writer.value then s.writer.value else p);
    }
  }

  /** A connection that still reads keeps its locks, for reading. */
  lemma DowngradeKeeps(s: State, p: nat)
    requires Inv(s) && p < |s.trans| && s.trans[p] != NoTrans
    ensures Inv(Finish(s, p, true))
  {
    hide RootLocked, LocksOk;
    OpenSet(s.trans, p, ReadTrans);
    OpenOne(s.trans, p);
    DowngradeLocks(s, p);
  }

  lemma DowngradeLocks(s: State, p: nat)
    requires Inv(s) && p < |s.trans| && s.trans[p] != NoTrans
    ensures LocksOk(Finish(s, p, true)) && RootLocked(Finish(s, p, true))
  {
    var t := Finish(s, p, true);
    forall c | 0 <= c < |t.trans| && t.trans[c] != NoTrans ensures Mine(t.locks, c, MASTER_ROOT) < |t.locks| {
      var k := Mine(s.locks, c, MASTER_ROOT);
      assert t.locks[k].owner == c && t.locks[k].tab == MASTER_ROOT;
    }
  }

  lemma FinishKeeps(s: State, p: nat, busy: bool)
    requires Inv(s) && p < |s.trans|
    ensures Inv(Finish(s, p, busy))
  {
    hide Inv;
    if s.trans[p] != NoTrans {
      if busy { DowngradeKeeps(s, p); } else { EndKeeps(s, p); }
    }
  }

  // ---- runs

  function Lockd(s: State, p: nat, tab: nat, write: bool): State {
    if Refused(s, p, tab, write) then Queried(s, p, tab, write)
    else s.(locks := WithLock(s.locks, p, tab, write))
  }

  lemma LockdKeeps(s: State, p: nat, tab: nat, write: bool)
    requires Inv(s) && p < |s.trans| && s.trans[p] != NoTrans && (write ==> s.writer == Some(p))
    ensures Inv(Lockd(s, p, tab, write))
  {
    hide Inv;
    if Refused(s, p, tab, write) { QueriedKeeps(s, p, tab, write); } else { LockKeeps(s, p, tab, write); }
  }

  function Initial(n: nat): State {
    State([], None, false, false, 0, NoTrans, seq(n, i => NoTrans))
  }

  datatype Op =
    | BeginOp(p: nat, wrflag: nat, pagerOk: bool)
    | LockOp(p: nat, tab: nat, write: bool)
    | FinishOp(p: nat, busy: bool)

  /** Tables are locked within a transaction, and for writing only by the writer. */
  predicate Allowed(s: State, op: Op) {
    && op.p < |s.trans|
    && (op.LockOp? ==> s.trans[op.p] != NoTrans && (op.write ==> s.writer == Some(op.p)))
  }

  function Step(s: State, op: Op): State
    requires Allowed(s, op)
  {
    match op
    case BeginOp(p, wrflag, pagerOk) => Begin(s, p, wrflag, pagerOk)
    case LockOp(p, tab, write) => Lockd(s, p, tab, write)
    case FinishOp(p, busy) => Finish(s, p, busy)
  }

  predicate Run(n: nat, tr: seq<State>, ops: seq<Op>) {
    && |tr| == |ops| + 1 && tr[0] == Initial(n)
    && forall i :: 0 <= i < |ops| ==> Allowed(tr[i], ops[i]) && tr[i + 1] == Step(tr[i], ops[i])
  }

  lemma {:induction false} NoneOpen(n: nat)
    ensures Open(seq(n, i => NoTrans)) == 0
  {
    if n > 0 {
      assert seq(n, i => NoTrans)[1..] == seq(n - 1, i => NoTrans);
      NoneOpen(n - 1);
    }
  }

  lemma {:induction false} RunKeeps(n: nat, tr: seq<State>, ops: seq<Op>, i: nat)
    requires Run(n, tr, ops) && i <= |ops|
    ensures Inv(tr[i]) && |tr[i].trans| == n
  {
    hide Inv;
    if i == 0 {
      InitialInv(n);
    } else {
      RunKeeps(n, tr, ops, i - 1);
      var s := tr[i - 1];
      match ops[i - 1]
      case BeginOp(p, wrflag, pagerOk) =>
        if !Begun(s, p, wrflag) && !BeginRefused(s, p, wrflag) && pagerOk { StartKeeps(s, p, wrflag); }
      case LockOp(p, tab, write) => LockdKeeps(s, p, tab, write);
      case FinishOp(p, busy) => FinishKeeps(s, p, busy);
    }
  }

  lemma InitialInv(n: nat)
    ensures Inv(Initial(n))
  {
    NoneOpen(n);
  }

  /**
    In every state of every run: only the writer holds write locks, no two connections hold conflicting
    locks on one table, nTransaction counts the open transactions, an exclusive transaction is alone, and
    BTS_PENDING is set only while the writer has someone to wait for.
   */
  lemma RunSafe(n: nat, tr: seq<State>, ops: seq<Op>, i: nat)
    requires Run(n, tr, ops) && i <= |ops|
    ensures var s := tr[i];
      && (forall a :: 0 <= a < |s.locks| && s.locks[a].write ==> s.writer == Some(s.locks[a].owner))
      && (forall a, b :: 0 <= a < |s.locks| && 0 <= b < |s.locks| && a != b ==>
        !Conflict(s.locks[a], s.locks[b].owner, s.locks[b].tab, s.locks[b].write))
      && s.nTransaction == Open(s.trans)
      && (s.exclusive ==> s.nTransaction == 1)
      && (s.pending ==> s.writer.Some? && s.nTransaction >= 2)
  {
    RunKeeps(n, tr, ops, i);
    var s := tr[i];
    if s.exclusive {
      ExclusiveAlone(s, s.writer.value);
    }
  }

  lemma {:induction false} OpenOnly(ts: seq<Trans>, c: nat)
    requires c < |ts| && ts[c] != NoTrans && forall d :: 0 <= d < |ts| && d != c ==> ts[d] == NoTrans
    ensures Open(ts) == 1
  {
    if c > 0 {
      OpenOnly(ts[1..], c - 1);
    } else {
      assert ts[1..] == seq(|ts| - 1, i => NoTrans);
      NoneOpen(|ts| - 1);
    }
  }

  lemma OpenIsWriter(s: State, c: nat)
    requires Inv(s) && s.exclusive && c < |s.trans|
    ensures s.trans[c] == NoTrans || s.writer == Some(c)
  {
    if s.trans[c] != NoTrans {
      assert s.locks[Mine(s.locks, c, MASTER_ROOT)].owner == c;
    }
  }

  lemma ExclusiveAlone(s: State, w: nat)
    requires Inv(s) && s.exclusive && s.writer == Some(w)
    ensures s.nTransaction == 1
  {
    forall c | 0 <= c < |s.trans| && c != w ensures s.trans[c] == NoTrans {
      OpenIsWriter(s, c);
    }
    OpenOnly(s.trans, w);
  }

  /** The number of transactions does not grow while BTS_PENDING is set. */
  lemma {:induction false} PendingDrains(n: nat, tr: seq<State>, ops: seq<Op>, i: nat, j: nat)
    requires Run(n, tr, ops) && i <= j <= |ops| && forall h :: i <= h < j ==> tr[h].pending
    ensures tr[j].nTransaction <= tr[i].nTransaction
    decreases j
  {
    if i < j {
      PendingDrains(n, tr, ops, i, j - 1);
    }
  }

  // ---- a writer that waits is not starved

  /** Another connection has a lock on the table. */
  predicate OtherLocks(s: State, p: nat, tab: nat) {
    exists i :: 0 <= i < |s.locks| && s.locks[i].owner != p && s.locks[i].tab == tab
  }

  /** Another connection has a write lock on the table. */
  predicate OtherWrites(s: State, p: nat, tab: nat) {
    exists i :: 0 <= i < |s.locks| && s.locks[i].owner != p && s.locks[i].tab == tab && s.locks[i].write
  }

  /** The writer's request for a write lock that meets a lock of another connection sets BTS_PENDING, and no more. */
  lemma WriterWaits(n: nat, tr: seq<State>, ops: seq<Op>, i: nat)
    requires Run(n, tr, ops) && i < |ops| && ops[i].LockOp? && ops[i].write
    ensures var s, op := tr[i], ops[i];
      tr[i + 1] == if OtherLocks(s, op.p, op.tab) then s.(pending := true)
                   else s.(locks := WithLock(s.locks, op.p, op.tab, true))
  {
    RunKeeps(n, tr, ops, i);
    var s, op := tr[i], ops[i];
    hide WithLock, Mine, NoConflicts, RootLocked, Counted;
    if a :| 0 <= a < |s.locks| && s.locks[a].owner != op.p && s.locks[a].tab == op.tab {
      assert Clashes(s.locks[a], op.p, op.tab, true);
    } else {
      assert forall a :: 0 <= a < |s.locks| ==> !Clashes(s.locks[a], op.p, op.tab, true);
    }
  }

  /** A request for a read lock that is refused changes nothing. */
  lemma ReaderLeavesNoTrace(n: nat, tr: seq<State>, ops: seq<Op>, i: nat)
    requires Run(n, tr, ops) && i < |ops| && ops[i].LockOp? && !ops[i].write
    ensures var s, op := tr[i], ops[i];
      tr[i + 1] == if Excluded(s, op.p) || OtherWrites(s, op.p, op.tab) then s
                   else s.(locks := WithLock(s.locks, op.p, op.tab, false))
  {
    var s, op := tr[i], ops[i];
    hide WithLock, Mine;
    if a :| 0 <= a < |s.locks| && s.locks[a].owner != op.p && s.locks[a].tab == op.tab && s.locks[a].write {
      assert Clashes(s.locks[a], op.p, op.tab, false);
    } else {
      assert forall a :: 0 <= a < |s.locks| ==> !Clashes(s.locks[a], op.p, op.tab, false);
    }
  }

  /** One step while BTS_PENDING is set: no transaction starts, and how the flag can be cleared. */
  lemma PendingStep(s: State, op: Op)
    requires Inv(s) && Allowed(s, op) && s.pending
    ensures var t := Step(s, op);
      && |t.trans| == |s.trans| && t.nTransaction <= s.nTransaction
      && (forall c :: 0 <= c < |s.trans| && s.trans[c] == NoTrans ==> t.trans[c] == NoTrans)
      && (t.pending ==> t.writer == s.writer)
      && (!t.pending ==> op.FinishOp? && (s.writer == Some(op.p) || t.nTransaction == 1))
  {
    hide WithLock, Without, ReadOnly, Mine, Clash, NoConflicts, RootLocked, LocksOk;
  }

  lemma RunLength(n: nat, tr: seq<State>, ops: seq<Op>)
    requires Run(n, tr, ops)
    ensures |tr| == |ops| + 1
  {
  }

  lemma AsksAsWriter(s: State, op: Op)
    requires Allowed(s, op) && op.LockOp? && op.write
    ensures s.writer == Some(op.p)
  {
  }

  /**
    From a step in which the writer's request meets another connection's lock, until the writer ends or downgrades its
    transaction or is the only one left: BTS_PENDING stays set, no connection without a transaction gets one, and their
    number does not grow.
   */
  lemma {:induction false} NoReaderGetsIn(n: nat, tr: seq<State>, ops: seq<Op>, i: nat, j: nat)
    requires Run(n, tr, ops) && i < j <= |ops|
    requires ops[i].LockOp? && ops[i].write && OtherLocks(tr[i], ops[i].p, ops[i].tab)
    requires forall h :: i < h < j && ops[h].FinishOp? ==> ops[h].p != ops[i].p && tr[h + 1].nTransaction != 1
    ensures tr[j].pending && tr[j].writer == Some(ops[i].p) && tr[j].nTransaction <= tr[i].nTransaction
    ensures |tr[j].trans| == |tr[i].trans| == n
    ensures forall c :: 0 <= c < n && tr[i].trans[c] == NoTrans ==> tr[j].trans[c] == NoTrans
    decreases j
  {
    hide Inv, Step, Allowed, OtherLocks, WithLock;
    RunLength(n, tr, ops);
    RunKeeps(n, tr, ops, i);
    RunKeeps(n, tr, ops, j - 1);
    StepIs(n, tr, ops, j - 1);
    if j == i + 1 {
      WriterWaits(n, tr, ops, i);
      AsksAsWriter(tr[i], ops[i]);
    } else {
      hide Run;
      NoReaderGetsIn(n, tr, ops, i, j - 1);
      PendingStep(tr[j - 1], ops[j - 1]);
    }
  }

  /** The writer gets every lock once it is the only one left. */
  lemma AloneIsServed(s: State, p: nat, tab: nat, write: bool)
    requires Inv(s) && s.writer == Some(p) && s.nTransaction == 1
    ensures !Refused(s, p, tab, write)
  {
    if i :| 0 <= i < |s.locks| && Clashes(s.locks[i], p, tab, write) {
      var q := s.locks[i].owner;
      OpenTwo(s.trans, if p < q then p else q, if p < q then q else p);
    }
  }

  const THIRD: seq<Op> :=
    [BeginOp(0, 1, true), BeginOp(1, 0, true), LockOp(1, 2, false), LockOp(0, 2, true), BeginOp(2, 0, true)]

  /**
    One connection writes, another has read table 2, and the first wants to write it: a third that asks for a
    transaction is turned away.
   */
  lemma ThirdMustWait(tr: seq<State>)
    requires Run(3, tr, THIRD)
    ensures tr[4].pending && tr[5] == tr[4]
  {
    hide Step, WithLock, Initial;
    StepIs(3, tr, THIRD, 0);
    StepIs(3, tr, THIRD, 1);
    StepIs(3, tr, THIRD, 4);
    RunKeeps(3, tr, THIRD, 4);
    RunKeeps(3, tr, THIRD, 1);
    TwoBegin(tr[0], tr[1], tr[2]);
    ReaderLeavesNoTrace(3, tr, THIRD, 2);
    LockedIn(tr[2].locks, 1, 2);
    WriterWaits(3, tr, THIRD, 3);
    TurnedAway(tr[4], 2);
  }

  lemma StepIs(n: nat, tr: seq<State>, ops: seq<Op>, i: nat)
    requires Run(n, tr, ops) && i < |ops|
    ensures Allowed(tr[i], ops[i]) && tr[i + 1] == Step(tr[i], ops[i])
  {
  }

  lemma TwoBegin(s: State, t: State, u: State)
    requires s == Initial(3) && t == Step(s, BeginOp(0, 1, true)) && |t.trans| == 3 && u == Step(t, BeginOp(1, 0, true))
    ensures u.locks == [Lock(1, MASTER_ROOT, false), Lock(0, MASTER_ROOT, false)] && !u.exclusive
  {
    assert t.locks == [Lock(0, MASTER_ROOT, false)];
  }

  lemma TurnedAway(s: State, p: nat)
    requires Inv(s) && s.pending && p < |s.trans|
    ensures Step(s, BeginOp(p, 0, true)) == s
  {
  }

  /** A lock that is granted is in the list. */
  lemma LockedIn(s: seq<Lock>, p: nat, tab: nat)
    ensures var r := WithLock(s, p, tab, false);
      exists i :: 0 <= i < |r| && r[i].owner == p && r[i].tab == tab
  {
    var i, r := Mine(s, p, tab), WithLock(s, p, tab, false);
    var k := if i == |s| then 0 else i;
    assert r[k].owner == p && r[k].tab == tab;
  }
}
