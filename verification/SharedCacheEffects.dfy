/**
  What the steps of SharedCache do to each connection, in terms of the transactions and locks of the others.
 */
module SharedCacheEffects {

  import opened Basics
  import opened SharedCache

  /** Another connection has a transaction for which p has to wait, if p wants one of the kind of wrflag. */
  predicate Bars(s: State, c: nat, p: nat, wrflag: nat)
    requires c < |s.trans|
  {
    && c != p && s.trans[c] != NoTrans
    && (wrflag >= 2 || (s.trans[c] == WriteTrans && (wrflag == 1 || s.exclusive)))
  }

  /** The writer is waited for, another transaction is in the way, or the schema is being written by another. */
  predicate Barred(s: State, p: nat, wrflag: nat) {
    || s.pending || OtherWrites(s, p, MASTER_ROOT)
    || exists c :: 0 <= c < |s.trans| && Bars(s, c, p, wrflag)
  }

  lemma OthersLockIs(s: State, p: nat)
    requires Inv(s)
    ensures OthersLock(s.locks, p) <==> exists c :: 0 <= c < |s.trans| && c != p && s.trans[c] != NoTrans
  {
    if i :| 0 <= i < |s.locks| && s.locks[i].owner != p {
      var c := s.locks[i].owner;
      assert s.trans[c] != NoTrans;
    }
    if c :| 0 <= c < |s.trans| && c != p && s.trans[c] != NoTrans {
      assert s.locks[Mine(s.locks, c, MASTER_ROOT)].owner == c;
    }
  }

  lemma OtherWritesIs(s: State, p: nat, tab: nat)
    ensures OtherWrites(s, p, tab) <==> Clash(s.locks, p, tab, false)
  {
    if i :| 0 <= i < |s.locks| && Clashes(s.locks[i], p, tab, false) {
      assert s.locks[i].owner != p && s.locks[i].tab == tab && s.locks[i].write;
    }
    if i :| 0 <= i < |s.locks| && s.locks[i].owner != p && s.locks[i].tab == tab && s.locks[i].write {
      assert Clashes(s.locks[i], p, tab, false);
    }
  }

  lemma OtherWriter(s: State, p: nat)
    requires WriterOk(s) && p < |s.trans|
    ensures (exists c :: 0 <= c < |s.trans| && c != p && s.trans[c] == WriteTrans) <==>
      s.writer.Some? && s.writer != Some(p)
  {
    if c :| 0 <= c < |s.trans| && c != p && s.trans[c] == WriteTrans {
      assert s.writer == Some(c);
    }
    if s.writer.Some? && s.writer != Some(p) {
      assert s.trans[s.writer.value] == WriteTrans;
    }
  }

  /** A transaction is refused for a reason that lies with another connection, and for no other. */
  lemma BarredIsRefused(s: State, p: nat, wrflag: nat)
    requires Inv(s) && p < |s.trans| && !Begun(s, p, wrflag)
    ensures BeginRefused(s, p, wrflag) <==> Barred(s, p, wrflag)
  {
    OthersLockIs(s, p);
    OtherWritesIs(s, p, MASTER_ROOT);
    OtherWriter(s, p);
    hide OthersLock, OtherWrites, Clash, NoConflicts, RootLocked, Mine;
    assert s.trans[p] != WriteTrans;
    assert s.exclusive ==> s.writer.Some?;
    BarsIs(s, p, wrflag);
  }

  lemma BarsIs(s: State, p: nat, wrflag: nat)
    requires p < |s.trans| && WriterOk(s) && (s.exclusive ==> s.writer.Some?) && s.writer != Some(p)
    ensures (exists c :: 0 <= c < |s.trans| && Bars(s, c, p, wrflag)) <==>
      || (wrflag > 1 && exists c :: 0 <= c < |s.trans| && c != p && s.trans[c] != NoTrans)
      || (s.writer.Some? && (wrflag > 0 || s.exclusive))
  {
    if c :| 0 <= c < |s.trans| && Bars(s, c, p, wrflag) {
      assert c != p && s.trans[c] != NoTrans;
    }
    if wrflag > 1 && exists c :: 0 <= c < |s.trans| && c != p && s.trans[c] != NoTrans {
      var c :| 0 <= c < |s.trans| && c != p && s.trans[c] != NoTrans;
      assert Bars(s, c, p, wrflag);
    }
    if s.writer.Some? && (wrflag > 0 || s.exclusive) {
      assert Bars(s, s.writer.value, p, wrflag);
    }
  }

  /** What sqlite3BtreeBeginTrans comes to: nothing at all, or exactly one transaction more or of a higher kind. */
  lemma BeginEffect(s: State, p: nat, wrflag: nat, pagerOk: bool)
    requires Inv(s) && p < |s.trans|
    ensures var t := Begin(s, p, wrflag, pagerOk);
      if s.trans[p] == WriteTrans || (s.trans[p] == ReadTrans && wrflag == 0) then t == s
      else if Barred(s, p, wrflag) || !pagerOk then t == s
      else
        && t.trans == s.trans[p := if wrflag == 0 then ReadTrans else WriteTrans]
        && t.writer == (if wrflag == 0 then s.writer else Some(p))
        && (t.exclusive <==> if wrflag == 0 then s.exclusive else wrflag >= 2)
        && !t.pending && t.nTransaction == Open(t.trans)
        && t.locks == (if s.trans[p] == NoTrans then [Lock(p, MASTER_ROOT, false)] else []) + s.locks
  {
    var has := Begun(s, p, wrflag);
    if !has {
      BarredIsRefused(s, p, wrflag);
      if !Barred(s, p, wrflag) && pagerOk { StartKeeps(s, p, wrflag); }
    }
    hide BeginRefused, Barred, WriterOk, LocksOk, NoConflicts, RootLocked, PendingOk;
    assert [] + s.locks == s.locks;
    if !has && !BeginRefused(s, p, wrflag) { NotPending(s, p, wrflag); }
  }

  lemma NotPending(s: State, p: nat, wrflag: nat)
    requires p < |s.trans| && !BeginRefused(s, p, wrflag)
    ensures !s.pending
  {
  }

  /**
    What a commit or a rollback comes to: the transaction of p is gone or has become one that reads, and so have its
    locks; everything else stays, but for BTS_PENDING, if p was the writer or left the writer alone.
   */
  lemma FinishEffect(s: State, p: nat, busy: bool)
    requires Inv(s) && p < |s.trans|
    ensures var t, w := Finish(s, p, busy), s.writer == Some(p);
      if s.trans[p] == NoTrans then t == s
      else
        && t.trans == s.trans[p := if busy then ReadTrans else NoTrans] && t.nTransaction == Open(t.trans)
        && t.writer == (if w then None else s.writer) && (t.exclusive <==> s.exclusive && !w)
        && (t.pending <==> s.pending && !w && (busy || Open(s.trans) != 2))
        && (!busy ==> t.locks == OthersLocks(s.locks, p))
        && (busy && !w ==> t.locks == s.locks)
        && (busy && w ==> |t.locks| == |s.locks| && forall i :: 0 <= i < |s.locks| ==>
             t.locks[i] == Lock(s.locks[i].owner, s.locks[i].tab, false))
  {
    FinishKeeps(s, p, busy);
    OthersAre(s.locks, p);
    hide LocksOk, NoConflicts, RootLocked, PendingOk, Without, OthersLocks;
  }

  /** The locks of the other connections, in their order. */
  function OthersLocks(s: seq<Lock>, p: nat): seq<Lock> {
    if s == [] then [] else OthersLocks(s[..|s| - 1], p) + if s[|s| - 1].owner != p then [s[|s| - 1]] else []
  }

  lemma {:induction false} OthersAre(s: seq<Lock>, p: nat)
    ensures Without(s, p) == OthersLocks(s, p)
  {
    if s != [] {
      var n := |s| - 1;
      OthersAre(s[..n], p);
      assert s == s[..n] + [s[n]];
      WithoutCat(s[..n], [s[n]], p);
      assert Without([s[n]], p) == if s[n].owner != p then [s[n]] else [];
    }
  }

  lemma {:induction false} WithoutCat(a: seq<Lock>, b: seq<Lock>, p: nat)
    ensures Without(a + b, p) == Without(a, p) + Without(b, p)
  {
    if a == [] {
      assert a + b == b;
    } else {
      assert (a + b)[1..] == a[1..] + b;
      WithoutCat(a[1..], b, p);
    }
  }
}
