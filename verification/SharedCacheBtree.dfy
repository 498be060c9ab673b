/**
  The shared part of a b-tree and the routines that begin and end transactions and lock tables.  Each
  routine takes the step of SharedCache that its contract names.
 */
module SharedCacheBtree {

  import opened Basics
  import opened SharedCache

  /** One turn of the loop of clearAllSharedCacheTableLocks: the lock at i goes or stays. */
  lemma ClearStep(s: seq<Lock>, i: nat, p: nat)
    requires i < |s|
    ensures s[i].owner == p ==>
      var t := s[..i] + s[i + 1..]; t[..i] + Without(t[i..], p) == s[..i] + Without(s[i..], p)
    ensures s[i].owner != p ==> s[..i + 1] + Without(s[i + 1..], p) == s[..i] + Without(s[i..], p)
  {
    assert s[i..][1..] == s[i + 1..];
    var t := s[..i] + s[i + 1..];
    assert t[..i] == s[..i] && t[i..] == s[i + 1..];
    assert s[..i + 1] == s[..i] + [s[i]];
  }

  lemma WithoutNone(p: nat)
    ensures Without([], p) == []
  {
  }

  /** When Begin refuses, there is a connection to blame; when it starts a writer, there is none. */
  lemma Blame(s: State)
    requires Inv(s)
    ensures s.pending || s.inTransaction == WriteTrans ==> s.writer.Some?
    ensures s.inTransaction != WriteTrans ==> s.writer == None
  {
  }

  /** Whoever holds a lock on a table that the writer asks for is in its way. */
  lemma MeetsLock(s: State, p: nat, tab: nat)
    requires Inv(s)
    ensures s.writer == Some(p) && OtherLocks(s, p, tab) ==>
      Refused(s, p, tab, true) && Queried(s, p, tab, true) == s.(pending := true)
  {
    if s.writer == Some(p) && OtherLocks(s, p, tab) {
      var i :| 0 <= i < |s.locks| && s.locks[i].owner != p && s.locks[i].tab == tab;
      assert Clashes(s.locks[i], p, tab, true);
    }
  }

  class BtShared {
    var pLock: seq<Lock>          // the list of table locks from its head
    var pWriter: Option<nat>
    var exclusive: bool           // BTS_EXCLUSIVE
    var pending: bool             // BTS_PENDING
    var nTransaction: int
    var inTransaction: Trans
    var inTrans: seq<Trans>       // Btree.inTrans of each connection

    function Snap(): State
      reads this
    {
      State(pLock, pWriter, exclusive, pending, nTransaction, inTransaction, inTrans)
    }

    constructor (n: nat)
      ensures Snap() == Initial(n)
    {
      pLock, pWriter, exclusive, pending := [], None, false, false;
      nTransaction, inTransaction, inTrans := 0, NoTrans, seq(n, i => NoTrans);
    }

    method QuerySharedCacheTableLock(p: nat, iTab: nat, write: bool) returns (rc: Rc)
      modifies this`pending
      ensures Snap() == Queried(old(Snap()), p, iTab, write)
      ensures pending == (old(pending) ||
        (write && (pWriter == Some(p) || !exclusive) &&
          exists i :: 0 <= i < |pLock| && pLock[i].owner != p && pLock[i].tab == iTab && !pLock[i].write))
      ensures rc == if Refused(old(Snap()), p, iTab, write) then LOCKED else OK
    {
      if pWriter != Some(p) && exclusive {
        return LOCKED;
      }
      var i := 0;
      while i < |pLock|
        invariant i <= |pLock| && pending == old(pending)
        invariant forall j :: 0 <= j < i ==> !Clashes(pLock[j], p, iTab, write)
        invariant write ==> forall j :: 0 <= j < i ==> pLock[j].owner == p || pLock[j].tab != iTab || pLock[j].write
      {
        var pIter := pLock[i];
        if pIter.owner != p && pIter.tab == iTab && pIter.write != write {
          assert Clashes(pLock[i], p, iTab, write);
          if write {
            pending := true;
          }
          return LOCKED;
        }
        i := i + 1;
      }
      return OK;
    }

    method SetSharedCacheTableLock(p: nat, iTable: nat, write: bool)
      modifies this`pLock
      ensures Snap() == old(Snap()).(locks := WithLock(old(pLock), p, iTable, write))
    {
      var i := 0;
      while i < |pLock| && !(pLock[i].tab == iTable && pLock[i].owner == p)
        invariant i <= |pLock|
        invariant forall j :: 0 <= j < i ==> !(pLock[j].owner == p && pLock[j].tab == iTable)
      {
        i := i + 1;
      }
      if i == |pLock| {
        pLock := [Lock(p, iTable, false)] + pLock;
        i := 0;
      }
      if write && !pLock[i].write {
        pLock := pLock[i := pLock[i].(write := true)];
      }
    }

    method ClearAllSharedCacheTableLocks(p: nat)
      modifies this`pLock, this`pWriter, this`exclusive, this`pending
      ensures Snap() == Cleared(old(Snap()), p)
    {
      hide Without;
      var i := 0;
      while i < |pLock|
        invariant i <= |pLock| && pWriter == old(pWriter) && exclusive == old(exclusive) && pending == old(pending)
        invariant pLock[..i] + Without(pLock[i..], p) == Without(old(pLock), p)
        decreases |pLock| - i
      {
        ClearStep(pLock, i, p);
        if pLock[i].owner == p {
          pLock := pLock[..i] + pLock[i + 1..];
        } else {
          i := i + 1;
        }
      }
      WithoutNone(p);
      assert pLock[..i] == pLock && pLock[i..] == [];
      if pWriter == Some(p) {
        pWriter := None;
        exclusive, pending := false, false;
      } else if nTransaction == 2 {
        pending := false;
      }
    }

    method DowngradeAllSharedCacheTableLocks(p: nat)
      modifies this`pLock, this`pWriter, this`exclusive, this`pending
      ensures Snap() == Downgraded(old(Snap()), p)
    {
      if pWriter == Some(p) {
        pWriter := None;
        exclusive, pending := false, false;
        var i := 0;
        while i < |pLock|
          invariant i <= |pLock| && |pLock| == |old(pLock)| && pWriter == None && !exclusive && !pending
          invariant forall j :: 0 <= j < i ==> pLock[j] == old(pLock)[j].(write := false)
          invariant forall j :: i <= j < |pLock| ==> pLock[j] == old(pLock)[j]
        {
          pLock := pLock[i := pLock[i].(write := false)];
          i := i + 1;
        }
      }
    }

    method AnyOthersLock(p: nat) returns (r: bool)
      ensures r <==> OthersLock(pLock, p)
    {
      var i := 0;
      while i < |pLock|
        invariant i <= |pLock| && forall j :: 0 <= j < i ==> pLock[j].owner == p
      {
        if pLock[i].owner != p { return true; }
        i := i + 1;
      }
      return false;
    }

    /** Start a transaction; pagerOk says that lockBtree and the pager succeed. */
    method BeginTrans(p: nat, wrflag: nat, readOnly: bool, pagerOk: bool) returns (rc: Rc)
      requires Inv(Snap()) && p < |inTrans|
      modifies this
      ensures Snap() == Begin(old(Snap()), p, wrflag, pagerOk && !(readOnly && wrflag > 0))
      ensures rc == OK <==> Begun(Snap(), p, wrflag)
      ensures Inv(Snap())
    {
      hide Inv, OthersLock, Refused;
      Blame(Snap());
      if inTrans[p] == WriteTrans || (inTrans[p] == ReadTrans && wrflag == 0) {
        return OK;
      }
      if readOnly && wrflag > 0 {
        return FAILED;
      }
      if (wrflag > 0 && inTransaction == WriteTrans) || pending {
        assert pWriter.Some?;   // the connection to blame
        return LOCKED;
      }
      if wrflag > 1 {
        var others := AnyOthersLock(p);
        if others { return LOCKED; }
      }
      rc := QuerySharedCacheTableLock(p, MASTER_ROOT, false);
      if rc != OK { return; }
      if !pagerOk {
        return FAILED;
      }
      StartKeeps(Snap(), p, wrflag);
      if inTrans[p] == NoTrans {
        nTransaction := nTransaction + 1;
        pLock := [Lock(p, MASTER_ROOT, false)] + pLock;
      }
      inTrans := inTrans[p := if wrflag > 0 then WriteTrans else ReadTrans];
      if Rank(inTrans[p]) > Rank(inTransaction) {
        inTransaction := inTrans[p];
      }
      if wrflag > 0 {
        assert old(pWriter) == None;
        pWriter := Some(p);
        exclusive := false;
        if wrflag > 1 {
          exclusive := true;
        }
      }
      assert Snap() == Start(old(Snap()), p, wrflag);
    }

    method EndTransaction(p: nat, busy: bool)
      requires p < |inTrans|
      modifies this
      ensures Snap() == End(old(Snap()), p, busy)
    {
      if inTrans[p] != NoTrans && busy {
        DowngradeAllSharedCacheTableLocks(p);
        inTrans := inTrans[p := ReadTrans];
      } else {
        if inTrans[p] != NoTrans {
          ClearAllSharedCacheTableLocks(p);
          nTransaction := nTransaction - 1;
          if nTransaction == 0 {
            inTransaction := NoTrans;
          }
        }
        inTrans := inTrans[p := NoTrans];
      }
    }

    /** The second phase of a commit; if the pager fails and the caller does not ignore that, nothing happens. */
    method CommitPhaseTwo(p: nat, busy: bool, pagerOk: bool, bCleanup: bool) returns (rc: Rc)
      requires Inv(Snap()) && p < |inTrans|
      modifies this
      ensures Inv(Snap())
      ensures rc == if old(inTrans[p]) == WriteTrans && !pagerOk && !bCleanup then FAILED else OK
      ensures Snap() == if rc == OK then Finish(old(Snap()), p, busy) else old(Snap())
    {
      FinishKeeps(Snap(), p, busy);
      if inTrans[p] == NoTrans { return OK; }
      if inTrans[p] == WriteTrans {
        if !pagerOk && !bCleanup {
          return FAILED;
        }
        inTransaction := ReadTrans;
      }
      EndTransaction(p, busy);
      return OK;
    }

    method Rollback(p: nat, busy: bool)
      requires Inv(Snap()) && p < |inTrans|
      modifies this
      ensures Inv(Snap())
      ensures Snap() == Finish(old(Snap()), p, busy)
    {
      FinishKeeps(Snap(), p, busy);
      if inTrans[p] == WriteTrans {
        inTransaction := ReadTrans;
      }
      EndTransaction(p, busy);
    }

    method LockTable(p: nat, iTab: nat, isWriteLock: bool) returns (rc: Rc)
      requires Inv(Snap()) && p < |inTrans| && inTrans[p] != NoTrans && (isWriteLock ==> pWriter == Some(p))
      modifies this
      ensures Inv(Snap())
      ensures Snap() == Lockd(old(Snap()), p, iTab, isWriteLock)
      ensures rc == OK <==> !Refused(old(Snap()), p, iTab, isWriteLock)
      ensures isWriteLock && old(OtherLocks(Snap(), p, iTab)) ==> rc == LOCKED && pending
      ensures !isWriteLock && rc != OK ==> Snap() == old(Snap())
    {
      MeetsLock(Snap(), p, iTab);
      LockdKeeps(Snap(), p, iTab, isWriteLock);
      rc := QuerySharedCacheTableLock(p, iTab, isWriteLock);
      if rc == OK {
        SetSharedCacheTableLock(p, iTab, isWriteLock);
      }
    }
  }
}
