/**
  The online backup: pages of the source are copied to the destination in steps, while the source may go on
  changing; a page that has already been copied is copied again whenever it is written.
 */
module Backup {

  import opened Basics
  import opened PageSpace
  import opened OverflowChain
  import opened BackupBytes
  import opened BackupFile

  datatype Rc = OK | BUSY | LOCKED | READONLY | IOERR | NOMEM | DONE

  /** isFatalError */
  predicate Fatal(rc: Rc) {
    rc != OK && rc != BUSY && rc != LOCKED
  }

  /** What a pager answers when a page cannot be had: an error that ends the backup. */
  predicate PagerError(rc: Rc) {
    Fatal(rc) && rc != DONE
  }

  /** The pages at which the pager fails, and how. */
  ghost predicate Failing(bad: map<nat, Rc>) {
    forall p :: p in bad ==> PagerError(bad[p])
  }

  type Source = seq<seq<byte>>

  ghost predicate SourceOk(src: Source, s: nat) {
    |src| < 0x8000_0000 && forall i :: 0 <= i < |src| ==> |src[i]| == s
  }

  /** An empty source counts as one page in the end. */
  function Counted(src: Source): (n: nat)
    ensures n >= 1
  {
    if src == [] then 1 else |src|
  }

  /** What a step meets: an open write transaction on the source, errors, and the change counters of the commit. */
  datatype Env = Env(writing: bool, readRc: Rc, lockRc: Rc, bad: map<nat, Rc>, badDest: map<nat, Rc>, finishRc: Rc,
                     newDb: seq<byte>, counter: seq<byte>, version: seq<byte>)

  ghost predicate EnvOk(e: Env, d: nat) {
    && e.readRc != DONE && e.lockRc != DONE && Failing(e.bad) && Failing(e.badDest)
    && (e.finishRc == OK || PagerError(e.finishRc))
    && |e.newDb| == d && |e.counter| == 4 && |e.version| == 8
  }

  /** What the commit writes into the header, and what else is in that of an empty database. */
  function HeaderFields(e: Env, wal: bool, meta: seq<byte>, isEmpty: bool): seq<Field>
    requires |e.newDb| >= 100
  {
    (if isEmpty then NewFields(e.newDb) else []) + [Field(40, meta)] + (if wal then [Field(18, [2, 2])] else [])
    + [Field(24, e.counter)] + [Field(92, e.version)]
  }

  /** The fields that are written one after the other do not touch each other. */
  lemma FieldsClear(fs: seq<Field>, e: Env, wal: bool, meta: seq<byte>, isEmpty: bool)
    requires |e.newDb| >= 100 && |e.counter| == 4 && |e.version| == 8 && |meta| == 4
    requires fs == if isEmpty then NewFields(e.newDb) else []
    ensures ClearOf(fs, 40, 4) && ClearOf(fs + [Field(40, meta)], 18, 2)
    ensures var gs := fs + [Field(40, meta)] + if wal then [Field(18, [2, 2])] else [];
      ClearOf(gs, 24, 4) && ClearOf(gs + [Field(24, e.counter)], 92, 8)
    ensures !wal ==> fs + [Field(40, meta)] + [] == fs + [Field(40, meta)]
  {
  }

  lemma HeaderInHeader(e: Env, d: nat, wal: bool, meta: seq<byte>, isEmpty: bool)
    requires EnvOk(e, d) && d >= 100 && |meta| == 4
    ensures InHeader(HeaderFields(e, wal, meta, isEmpty))
  {
  }

  class SqliteBackup {
    const s: nat               // the page size of the source
    const d: nat               // the page size of the destination
    const memdb: bool          // the destination is in memory
    const wal: bool            // the destination is in WAL mode
    var iNext: nat
    var rc: Rc
    var isAttached: bool
    var bDestLocked: bool
    var iDestSchema: nat
    var nPagecount: nat
    var nRemaining: nat
    var dest: Dest             // the pages of the destination's pager,
    var nDest: nat             // its number of pages,
    var file: seq<byte>        // and the file that a commit writes

    ghost predicate Valid()
      reads this
    {
      && PageSize(s) && PageSize(d) && Sized(dest, d) && iNext >= 1 && iDestSchema < U32
      && forall p :: p in dest ==> p <= nDest
    }

    /** What has been copied is up to date, and will be kept so. */
    ghost predicate Synced(src: Source)
      reads this
      requires Valid()
    {
      !Fatal(rc) ==> (isAttached || iNext == 1) && Copied(src, dest, s, d, iNext)
    }

    /** sqlite3_backup_init */
    constructor (s: nat, d: nat, memdb: bool, wal: bool, dest: Dest, nDest: nat)
      requires PageSize(s) && PageSize(d) && Sized(dest, d) && forall p :: p in dest ==> p <= nDest
      ensures Valid() && this.s == s && this.d == d && iNext == 1 && rc == OK && !isAttached && this.dest == dest
    {
      this.s, this.d, this.memdb, this.wal, this.dest, this.nDest := s, d, memdb, wal, dest, nDest;
      iNext, rc, isAttached, bDestLocked, iDestSchema, nPagecount, nRemaining := 1, OK, false, false, 0, 0, 0;
      file := [];
    }

    /** backupOnePage */
    method BackupOnePage(i: nat, data: seq<byte>, update: bool, n: nat, bad: map<nat, Rc>) returns (rc: Rc)
      requires Valid() && i > 0 && i != PendingPage(s) && |data| == s && Failing(bad) && n < U32
      modifies `dest, `nDest
      ensures Valid() && (rc == OK || PagerError(rc))
      ensures rc == OK ==> PageCopied(old(dest), dest, s, d, i, data, i == 1 && !update, n, Start(i, s) + s)
      ensures s != d && memdb ==> rc == READONLY && dest == old(dest)
      ensures rc != OK && (s == d || !memdb) ==> ErrorOf(bad, d, rc)
      ensures rc == OK ==> NoneBad(bad, d, Start(i, s), Start(i, s) + s)
    {
      hide PageNo, Place, Byte, Sent, Put, PageCopied, Block, NoneBad, PendingPage, ErrorOf;
      NoneYet(bad, d, Start(i, s));
      rc := if s != d && memdb then READONLY else OK;
      var nCopy := Min(s, d);
      SizesDivide(s, d);
      StartOrder(1, i, s);
      var iEnd, iOff := i * s, i * s - s;
      ghost var was, j: nat := dest, 0;
      ghost var head := i == 1 && !update;
      NoneCopied(dest, s, d, i, data, head, n);
      while rc == OK && iOff < iEnd
        invariant Valid() && (rc == OK || PagerError(rc)) && iOff == Start(i, s) + j && j % nCopy == 0
        invariant s != d && memdb ==> rc == READONLY && dest == was
        invariant rc != OK && (s == d || !memdb) ==> ErrorOf(bad, d, rc)
        invariant rc == OK ==> PageCopied(was, dest, s, d, i, data, head, n, Min(iOff, iEnd))
        invariant rc == OK ==> NoneBad(bad, d, Start(i, s), Min(iOff, iEnd))
        decreases iEnd - iOff
      {
        BlockInPage(i, s, d, j);
        OnePage(bad, d, Start(i, s), iOff, nCopy);
        NextBlock(j, nCopy, d);
        var iDest := PageNo(iOff, d);
        if iDest == PendingPage(d) {
          BlockSkipped(was, dest, s, d, i, data, head, n, iOff, nCopy);
        } else if iDest in bad {
          rc := bad[iDest];
          IsErrorOf(bad, d, iDest);
        } else {
          BlockPut(was, dest, s, d, i, data, head, n, iOff, j, nCopy);
          BlockHead(data, i, s, j, nCopy, update, n);
          PutSized(dest, d, iOff, Block(data, j, nCopy, head, n));
          var zOut := Block(data, iOff % s, nCopy, iOff == 0 && !update, n);
          dest := Put(dest, d, iOff, zOut);
          nDest := if nDest < iDest then iDest else nDest;
        }
        assert rc == OK ==> Min(iOff + d, iEnd) == iOff + nCopy;
        iOff, j := iOff + d, j + d;
      }
    }

    /** backupUpdate: page i of the source has been written, and is now what it is in now. */
    method Update(i: nat, ghost src: Source, now: Source, bad: map<nat, Rc>)
      requires Valid() && Synced(src) && isAttached && SourceOk(now, s) && Failing(bad)
      requires 1 <= i <= |now| && i != PendingPage(s) && SameBut(src, now, i)
      modifies `dest, `nDest, `rc
      ensures Valid() && Synced(now) && (rc == old(rc) || PagerError(rc))
    {
      hide Copied, PageCopied;
      if !Fatal(rc) && i < iNext {
        ghost var was := dest;
        var e := BackupOnePage(i, now[i - 1], true, 0, bad);
        if e != OK {
          rc := e;
        } else {
          CopyAdds(src, now, was, dest, s, d, iNext, i, false, 0);
        }
      } else if !Fatal(rc) {
        LaterPage(src, now, dest, s, d, iNext, i);
      }
    }

    /** sqlite3BackupRestart: the source has changed in unknown ways. */
    method Restart(ghost now: Source)
      requires Valid()
      modifies `iNext
      ensures Valid() && Synced(now) && iNext == 1
    {
      iNext := 1;
    }

    /** Writes a field of the header on page 1 of the destination. */
    method PutHeader(at: nat, c: seq<byte>, ghost src: Source, ghost next: nat, ghost fs: seq<Field>)
      requires Valid() && at + |c| <= 100 && FieldsAre(dest, d, fs) && ClearOf(fs, at, |c|)
      requires (forall k :: at <= k < at + |c| ==> Rewritten(k)) && Copied(src, dest, s, d, next)
      modifies `dest, `nDest
      ensures Valid() && Copied(src, dest, s, d, next) && nDest == if old(nDest) < 1 then 1 else old(nDest)
      ensures FieldsAre(dest, d, fs + [Field(at, c)])
    {
      hide Copied, Put, Place, PageNo, Rewritten, FieldsAre, ClearOf;
      HeaderPut(src, dest, s, d, next, at, c);
      PutSized(dest, d, at, c);
      FirstPage(at, d);
      FieldsPut(dest, d, fs, at, c);
      dest := Put(dest, d, at, c);
      nDest := if nDest < 1 then 1 else nDest;
    }

    /** The header fields that the commit changes; field is the new schema version. */
    method WriteHeader(e: Env, ghost src: Source, ghost next: nat)
      requires Valid() && EnvOk(e, d) && Copied(src, dest, s, d, next)
      requires src == [] ==> FieldsAre(dest, d, NewFields(e.newDb))
      modifies `dest, `nDest
      ensures Valid() && Copied(src, dest, s, d, next) && nDest == if old(nDest) < 1 then 1 else old(nDest)
      ensures FieldsAre(dest, d, HeaderFields(e, wal, Bytes4((iDestSchema + 1) % U32), src == []))
    {
      hide Copied, Byte, Put, Place, Bytes4, FieldIs, FieldsAre, ClearOf, NewFields;
      ghost var fs: seq<Field> := if src == [] then NewFields(e.newDb) else [];
      NoFields(dest, d);
      var meta := Bytes4((iDestSchema + 1) % U32);
      FieldsClear(fs, e, wal, meta, src == []);
      PutHeader(40, meta, src, next, fs);
      fs := fs + [Field(40, meta)];
      if wal {
        PutHeader(18, [2, 2], src, next, fs);
        fs := fs + [Field(18, [2, 2])];
      }
      PutHeader(24, e.counter, src, next, fs);
      fs := fs + [Field(24, e.counter)];
      PutHeader(92, e.version, src, next, fs);
      assert fs + [Field(92, e.version)] == HeaderFields(e, wal, meta, src == []);
    }

    /** sqlite3PagerTruncateImage */
    method TruncateImage(n: nat)
      requires Valid()
      modifies `dest, `nDest
      ensures Valid() && nDest == n && forall p :: p in dest <==> p in old(dest) && p <= n
      ensures forall p :: p in dest ==> dest[p] == old(dest)[p]
    {
      dest := map p | p in dest && p <= n :: dest[p];
      nDest := n;
    }

    /** Commits the destination when all pages are copied. */
    method Finish(src: Source, e: Env) returns (rc: Rc)
      requires Valid() && SourceOk(src, s) && EnvOk(e, d) && Copied(src, dest, s, d, iNext) && iNext > |src|
      modifies `dest, `nDest, `file
      ensures Valid() && (rc == DONE || PagerError(rc))
      ensures rc == DONE ==>
        && Matches(src, file, s) && |file| <= Counted(src) * s && e.finishRc == OK
        && FileFields(file, HeaderFields(e, wal, Bytes4((iDestSchema + 1) % U32), src == []))
    {
      hide Copied, Byte, FieldsAre, Matches, FileFields, FileUpTo, PendingPage, Bytes4;
      var nSrcPage := |src|;
      if nSrcPage == 0 {
        dest := dest[1 := e.newDb];
        nDest := if nDest < 1 then 1 else nDest;
        nSrcPage := 1;
        NothingCopied(dest, s, d, iNext);
        NewFieldsAre(old(dest), d, e.newDb);
      }
      WriteHeader(e, src, iNext);
      ghost var fields := HeaderFields(e, wal, Bytes4((iDestSchema + 1) % U32), src == []);
      HeaderInHeader(e, d, wal, Bytes4((iDestSchema + 1) % U32), src == []);
      var nDestTruncate := DestTruncate(nSrcPage, s, d);
      TruncateCovers(nSrcPage, s, d);
      if e.finishRc != OK {
        return e.finishRc;
      }
      if s < d {
        TailBegins(src, dest, s, d, iNext, nDest);
        FieldsFiled(dest, d, nDest, fields);
        file := Image(dest, d, nDest);
        rc := WriteTail(src, nSrcPage, e.bad, fields);
      } else {
        if src != [] {
          LargerMatches(src, dest, s, d, iNext);
        } else {
          NothingMatches(Image(dest, d, nDestTruncate), s);
        }
        WholePages(nSrcPage, s, d);
        FieldsFiled(dest, d, nDestTruncate, fields);
        file := Image(dest, d, nDestTruncate);
        TruncateImage(nDestTruncate);
        rc := OK;
      }
      rc := if rc == OK then DONE else rc;
    }

    /** The source pages that lie in the destination's pending page go to the file directly, and the file is cut. */
    method WriteTail(src: Source, nSrcPage: nat, bad: map<nat, Rc>, ghost fields: seq<Field>) returns (rc: Rc)
      requires Valid() && SourceOk(src, s) && Failing(bad) && s < d && InHeader(fields) && nSrcPage == Counted(src)
      requires FileUpTo(src, file, s, d, PENDING_BYTE + s) && FileFields(file, fields)
      modifies `file
      ensures rc == OK || PagerError(rc)
      ensures rc == OK ==> Matches(src, file, s) && |file| <= nSrcPage * s && FileFields(file, fields)
      ensures rc == OK ==>
        forall p :: p > PendingPage(s) && Start(p, s) < Min(PENDING_BYTE + d, s * nSrcPage) ==> p !in bad
    {
      hide FileUpTo, FileFields, Matches, PendingPage, WriteAt, Start;
      rc := OK;
      var iSize := s * nSrcPage;
      var iEnd: nat, iOff: nat := Min(PENDING_BYTE + d, iSize), PENDING_BYTE + s;
      ghost var j := PendingPage(s) + 1;
      PendingStart(s);
      StartOrder(j - 1, j, s);
      while rc == OK && iOff < iEnd
        invariant Valid() && (rc == OK || PagerError(rc)) && iOff == Start(j, s) && j > 1 && iOff >= PENDING_BYTE
        invariant FileUpTo(src, file, s, d, iOff) && FileFields(file, fields)
        invariant j > PendingPage(s) && forall p :: PendingPage(s) < p < j ==> p !in bad
        decreases iEnd - iOff, rc == OK
      {
        LocatedAt(j, 0, s);
        BehindEnd(j, nSrcPage, s);
        var iSrcPg := PageNo(iOff, s);
        if iSrcPg in bad {
          rc := bad[iSrcPg];
        } else {
          TailGrows(src, file, s, d, j);
          FieldsKept(file, fields, iOff, src[j - 1]);
          StartOrder(j, j + 1, s);
          file := WriteAt(file, iOff, src[iSrcPg - 1]);
          iOff, j := iOff + s, j + 1;
        }
      }
      if rc == OK {
        if src != [] { TailEnds(src, file, s, d, iOff); } else { NothingMatches(Truncated(file, iSize), s); }
        PageEnds(1, nSrcPage, s);
        StartOrder(1, 1, s);
        FieldsCut(file, fields, iSize);
        file := Truncated(file, iSize);
        forall p | p > PendingPage(s) && Start(p, s) < iEnd ensures p !in bad { StartOrder(j, p, s); }
      }
    }

    /** The loop of sqlite3_backup_step: at most nPage pages, or all of them if nPage is negative. */
    method CopyPages(nPage: int, src: Source, e: Env) returns (rc: Rc)
      requires Valid() && SourceOk(src, s) && EnvOk(e, d) && Copied(src, dest, s, d, iNext)
      modifies `iNext, `dest, `nDest
      ensures Valid() && (rc == OK || PagerError(rc))
      ensures rc == OK ==> Copied(src, dest, s, d, iNext) && iNext == NextAfter(old(iNext), nPage, |src|)
      ensures rc == OK ==> forall p :: old(iNext) <= p < iNext && p != PendingPage(s) ==> p !in e.bad
    {
      hide Copied, PageCopied, PendingPage, Start;
      var ii := 0;
      ghost var first := iNext;
      rc := OK;
      while (nPage < 0 || ii < nPage) && iNext <= |src| && rc == OK
        invariant Valid() && (rc == OK || PagerError(rc)) && ii >= 0 && iNext == first + ii
        invariant rc == OK ==> forall p :: first <= p < iNext && p != PendingPage(s) ==> p !in e.bad
        invariant rc == OK ==>
          Copied(src, dest, s, d, iNext) && (ii == 0 || iNext <= |src| + 1) && (nPage < 0 || ii <= nPage)
        decreases |src| - iNext
      {
        var iSrcPg := iNext;
        if iSrcPg == PendingPage(s) {
          PendingSkipped(src, dest, s, d, iNext);
        } else if iSrcPg in e.bad {
          rc := e.bad[iSrcPg];
        } else {
          ghost var was := dest;
          rc := BackupOnePage(iSrcPg, src[iSrcPg - 1], false, |src|, e.badDest);
          if rc == OK { CopyAdds(src, src, was, dest, s, d, iNext, iNext, iNext == 1, |src|); }
        }
        iNext := iNext + 1;
        ii := ii + 1;
      }
    }

    /** The first part of a step: the source must not be written to, and the destination gets locked. */
    method Lock(e: Env) returns (r: Rc)
      requires Valid() && EnvOk(e, d)
      modifies this`bDestLocked, this`iDestSchema
      ensures Valid() && r != DONE
      ensures var locked := !e.writing && e.readRc == OK && (old(bDestLocked) || e.lockRc == OK);
        && r == (if e.writing then BUSY else if e.readRc != OK then e.readRc
                 else if !locked then e.lockRc else if wal && s != d then READONLY else OK)
        && bDestLocked == (old(bDestLocked) || locked)
        && iDestSchema == if locked && !old(bDestLocked) then SchemaOf(dest, d) else old(iDestSchema)
    {
      hide PendingPage, Start;
      r := if e.writing then BUSY else OK;
      if r == OK { r := e.readRc; }
      if r == OK && !bDestLocked {
        r := e.lockRc;
        if r == OK {
          bDestLocked := true;
          iDestSchema := SchemaOf(dest, d);
        }
      }
      if r == OK && wal && s != d { r := READONLY; }
    }

    /** sqlite3_backup_step */
    method Step(nPage: int, src: Source, e: Env) returns (r: Rc)
      requires Valid() && SourceOk(src, s) && EnvOk(e, d) && Synced(src)
      modifies this
      ensures Valid() && Synced(src) && r == rc
      ensures old(Fatal(rc)) ==> rc == old(rc) && file == old(file) && dest == old(dest)
      ensures !old(Fatal(rc)) && rc == DONE ==>
        && Matches(src, file, s) && |file| <= Counted(src) * s
        && FileFields(file, HeaderFields(e, wal, Bytes4((iDestSchema + 1) % U32), src == [])) && nPagecount == |src|
        && e.finishRc == OK
      ensures !old(Fatal(rc)) && (rc == OK || rc == DONE) ==>
        forall p :: old(iNext) <= p < iNext && p != PendingPage(s) ==> p !in e.bad
      ensures !old(Fatal(rc)) && rc == OK ==>
        && isAttached && iNext == old(iNext) + nPage <= |src| && nPagecount == |src| && nRemaining == |src| + 1 - iNext
      ensures !old(Fatal(rc)) && e.writing ==> rc == BUSY && iNext == old(iNext) && dest == old(dest)
      ensures rc != DONE ==> file == old(file) || PagerError(rc)
    {
      hide Copied, PageCopied, PendingPage, Start, Matches, FileFields, Bytes4, NextAfter;
      if Fatal(rc) {
        return rc;
      }
      r := Lock(e);
      if r == OK {
        r := CopyPages(nPage, src, e);
        NextIs(old(iNext), nPage, |src|);
      }
      if r == OK {
        nPagecount := |src|;
        nRemaining := (|src| + 1 - iNext) % U32;
        if iNext > |src| {
          r := DONE;
        } else {
          isAttached := true;
        }
      }
      if r == DONE {
        r := Finish(src, e);
      }
      rc := r;
    }
  }

  // ---- whole runs

  /** What happens to a backup: a step, or a change of the source, by its own pager or by another connection. */
  datatype Event =
    | Step(nPage: int, e: Env)
    | Write(i: nat, data: seq<byte>, bad: map<nat, Rc>)   // a page is changed or appended
    | Skip(data: seq<byte>)                               // the source grows by its pending page, never written
    | Shrink(n: nat)
    | External(src: Source)

  ghost predicate EventOk(v: Event, s: nat, d: nat) {
    match v
    case Step(_, e) => EnvOk(e, d)
    case Write(i, data, bad) => i > 0 && |data| == s && Failing(bad)
    case Skip(data) => |data| == s
    case Shrink(_) => true
    case External(src) => SourceOk(src, s)
  }

  /** The source after an event; a change that does not fit it is none. */
  function Changed(src: Source, v: Event, s: nat): Source
    requires s > 0
  {
    match v
    case Step(_, _) => src
    case Write(i, data, _) =>
      if 1 <= i <= |src| && i != PendingPage(s) then src[i - 1 := data]
      else if i == |src| + 1 < 0x8000_0000 && i != PendingPage(s) then src + [data]
      else src
    case Skip(data) => if |src| + 1 == PendingPage(s) then src + [data] else src
    case Shrink(n) => if n <= |src| then src[..n] else src
    case External(new_) => new_
  }

  lemma ChangedOk(src: Source, v: Event, s: nat, d: nat)
    requires PageSize(s) && SourceOk(src, s) && EventOk(v, s, d)
    ensures SourceOk(Changed(src, v, s), s)
    ensures v.Write? ==> SameBut(src, Changed(src, v, s), v.i)
  {
  }

  lemma NothingYet(src: Source, dest: Dest, s: nat, d: nat)
    requires s > 0 && d > 0
    ensures Copied(src, dest, s, d, 1)
  {
  }

  /** A change that the backup need not hear of. */
  lemma QuietChange(src: Source, v: Event, dest: Dest, s: nat, d: nat, next: nat)
    requires s > 0 && d > 0 && Copied(src, dest, s, d, next)
    requires v.Skip? || v.Shrink? || (v.Write? && Changed(src, v, s) == src)
    ensures Copied(Changed(src, v, s), dest, s, d, next)
  {
    hide PendingPage, Copied;
    CopiedStays(src, Changed(src, v, s), dest, s, d, next);
  }

  /** The source's pager tells an attached backup what has changed. */
  method Notify(b: SqliteBackup, src: Source, v: Event)
    requires b.Valid() && SourceOk(src, b.s) && EventOk(v, b.s, b.d) && !v.Step? && b.Synced(src)
    modifies b`dest, b`nDest, b`rc, b`iNext
    ensures b.Valid() && b.Synced(Changed(src, v, b.s)) && (b.rc == old(b.rc) || PagerError(b.rc))
    ensures b.iNext == if old(b.isAttached) && v.External? then 1 else old(b.iNext)
  {
    hide Copied, PendingPage, SourceOk;
    var now := Changed(src, v, b.s);
    ChangedOk(src, v, b.s, b.d);
    NothingYet(now, b.dest, b.s, b.d);
    if b.isAttached {
      if v.External? {
        b.Restart(now);
      } else if v.Write? && now != src {
        b.Update(v.i, src, now, v.bad);
      } else if !Fatal(b.rc) {
        QuietChange(src, v, b.dest, b.s, b.d, b.iNext);
      }
    }
  }

  /** However steps and changes follow one another, the step that is DONE leaves a copy of the source. */
  method Run(b: SqliteBackup, src0: Source, events: seq<Event>) returns (src: Source, n: nat)
    requires b.Valid() && b.iNext == 1 && b.rc == OK && SourceOk(src0, b.s)
    requires forall v :: v in events ==> EventOk(v, b.s, b.d)
    modifies b
    ensures n <= |events| && (n < |events| ==> b.rc == DONE)
    ensures b.rc == DONE ==>
      && Matches(src, b.file, b.s) && |b.file| <= Counted(src) * b.s
      && FileField(b.file, 40, Bytes4((b.iDestSchema + 1) % U32))
    ensures src == After(src0, events[..n], b.s)
  {
    hide Copied, PendingPage, SourceOk, Matches, FileField, FileFields, Changed, Bytes4;
    NothingYet(src0, b.dest, b.s, b.d);
    src, n := src0, 0;
    while n < |events| && b.rc != DONE
      invariant n <= |events| && b.Valid() && SourceOk(src, b.s) && b.Synced(src)
      invariant src == After(src0, events[..n], b.s)
      invariant b.rc == DONE ==>
        && Matches(src, b.file, b.s) && |b.file| <= Counted(src) * b.s
        && FileField(b.file, 40, Bytes4((b.iDestSchema + 1) % U32))
    {
      var v := events[n];
      assert events[..n + 1][..n] == events[..n];
      assert v in events && EventOk(v, b.s, b.d);
      if v.Step? {
        StepChangesNothing(src, v, b.s);
        var r := b.Step(v.nPage, src, v.e);
        SchemaField(b.file, v.e, b.wal, Bytes4((b.iDestSchema + 1) % U32), src == []);
      } else {
        ChangedOk(src, v, b.s, b.d);
        Notify(b, src, v);
        src := Changed(src, v, b.s);
      }
      n := n + 1;
    }
  }

  function After(src: Source, events: seq<Event>, s: nat): Source
    requires s > 0
  {
    if events == [] then src else Changed(After(src, events[..|events| - 1], s), events[|events| - 1], s)
  }

  lemma StepChangesNothing(src: Source, v: Event, s: nat)
    requires s > 0 && v.Step?
    ensures Changed(src, v, s) == src
  {
  }

  /** The schema version in the header of the destination: 0 in an empty database. */
  function SchemaOf(dest: Dest, d: nat): (v: nat)
    requires PageSize(d) && Sized(dest, d)
    ensures v < U32
  {
    if 1 in dest then Get4(dest[1], 40) else 0
  }

  function NextAfter(next: nat, nPage: int, n: nat): nat {
    if next > n then next else if nPage < 0 || next + nPage > n then n + 1 else next + nPage
  }

  lemma NextIs(next: nat, nPage: int, n: nat)
    ensures NextAfter(next, nPage, n) <= n ==> NextAfter(next, nPage, n) == next + nPage
    ensures NextAfter(next, nPage, n) <= n ==> nPage >= 0
  {
  }

  lemma PendingSkipped(src: Source, dest: Dest, s: nat, d: nat, next: nat)
    requires s > 0 && d > 0 && Copied(src, dest, s, d, next) && next == PendingPage(s)
    ensures Copied(src, dest, s, d, next + 1)
  {
    hide Here, PendingPage;
  }

  lemma NothingCopied(dest: Dest, s: nat, d: nat, next: nat)
    requires s > 0 && d > 0
    ensures Copied([], dest, s, d, next)
  {
  }

  lemma NothingMatches(file: seq<byte>, s: nat)
    requires s > 0
    ensures Matches([], file, s)
  {
  }

  lemma BehindEnd(j: nat, n: nat, s: nat)
    ensures Start(j, s) < n * s ==> j <= n
  {
    StartOrder(n + 1, j, s);
  }

  lemma NoFields(dest: Dest, d: nat)
    requires d > 0
    ensures FieldsAre(dest, d, [])
  {
  }

  lemma SchemaField(file: seq<byte>, e: Env, wal: bool, meta: seq<byte>, isEmpty: bool)
    requires |e.newDb| >= 100
    ensures FileFields(file, HeaderFields(e, wal, meta, isEmpty)) ==> FileField(file, 40, meta)
  {
    hide FileField;
    var n := if isEmpty then 4 else 0;
    assert HeaderFields(e, wal, meta, isEmpty)[n] == Field(40, meta);
  }

  /** No page of the destination that the bytes from a to b belong to fails, but for the one that is left out. */
  predicate NoneBad(bad: map<nat, Rc>, d: nat, a: int, b: int)
    requires d > 0
  {
    forall x: nat :: a <= x < b ==> PageNo(x, d) == PendingPage(d) || PageNo(x, d) !in bad
  }

  /** The error is that of a page of the destination that is not left out. */
  ghost predicate ErrorOf(bad: map<nat, Rc>, d: nat, rc: Rc)
    requires d > 0
  {
    exists p :: p in bad && p != PendingPage(d) && rc == bad[p]
  }

  lemma IsErrorOf(bad: map<nat, Rc>, d: nat, p: nat)
    requires d > 0 && p in bad && p != PendingPage(d)
    ensures ErrorOf(bad, d, bad[p])
  {
  }

  lemma NoneYet(bad: map<nat, Rc>, d: nat, a: int)
    requires d > 0
    ensures NoneBad(bad, d, a, a)
  {
  }

  /** The bytes of a block lie on one page. */
  lemma OnePage(bad: map<nat, Rc>, d: nat, a: int, off: nat, n: nat)
    requires d > 0 && Place(off, d) + n <= d
    ensures NoneBad(bad, d, a, off) && (PageNo(off, d) == PendingPage(d) || PageNo(off, d) !in bad) ==>
      NoneBad(bad, d, a, off + n)
  {
    forall x: nat | off <= x < off + n ensures PageNo(x, d) == PageNo(off, d) {
      SamePage(off, x - off, d);
    }
    hide PendingPage, PageNo;
  }

  lemma SamePage(off: nat, k: nat, d: nat)
    requires d > 0 && Place(off, d) + k < d
    ensures PageNo(off + k, d) == PageNo(off, d)
  {
    Quotient(off + k, d, off / d, Place(off, d) + k);
  }

  lemma FirstPage(at: nat, d: nat)
    requires PageSize(d) && at <= 100
    ensures PageNo(at, d) == 1
  {
  }

  /** A page that is not copied yet may change as it likes. */
  lemma LaterPage(src: Source, now: Source, dest: Dest, s: nat, d: nat, next: nat, i: nat)
    requires s > 0 && d > 0 && Copied(src, dest, s, d, next) && i >= next
    requires SameBut(src, now, i)
    ensures Copied(now, dest, s, d, next)
  {
    hide PageHere, PendingPage, Start;
    forall k | 1 <= k < next && k <= |now| && k != PendingPage(s)
      ensures Here(now, dest, s, d, k)
    {
      var j := k - 1;
      assert now[j] == now[k - 1] && j < |src|;
      assert now[k - 1] == src[k - 1];
      assert Here(src, dest, s, d, k);
    }
  }

  lemma NoneCopied(dest: Dest, s: nat, d: nat, i: nat, data: seq<byte>, head: bool, n: nat)
    requires d > 0 && |data| == s
    ensures PageCopied(dest, dest, s, d, i, data, head, n, Start(i, s))
  {
  }
}
