/**
  The cursor through which accessPayload works: it parses its cell once and remembers the overflow pages
  that it has come across.
 */
module PayloadCursor {

  import opened Basics
  import opened PageSpace
  import opened CellFormat
  import opened OverflowChain
  import opened PayloadWrite
  import opened PayloadAccess
  import Varint

  ghost predicate Sized(pages: Pages, usable: nat) {
    forall p :: p in pages ==> |pages[p]| >= usable
  }

  /** nOvfl: the number of overflow pages that the cell needs. */
  function OvflPages(f: Form, cell: seq<byte>): nat
    requires f.Valid()
  {
    PagesFor(Parsed(f, cell).nPayload - Parsed(f, cell).nLocal, f.usable - 4)
  }

  /** The sum under nOvfl does not fit 32 bits. */
  predicate Wraps(f: Form, cell: seq<byte>)
    requires f.Valid()
  {
    Parsed(f, cell).nPayload - Parsed(f, cell).nLocal + f.usable - 5 >= U32
  }

  /** nOvfl as it is computed, in 32 bits: if the sum wraps, no page is counted at all. */
  lemma CountWraps(n: nat, u: nat)
    requires 0 < u < 65536 && n < U32
    ensures (n + u - 1) % U32 / u == if n + u - 1 < U32 then PagesFor(n, u) else 0
  {
    if n + u - 1 >= U32 {
      var x := (n + u - 1) % U32;
      assert x == n + u - 1 - U32;
      Quotient(x, u, 0, x);
    }
  }

  lemma SizeIn32Bits(f: Form, cell: seq<byte>)
    requires f.Valid()
    ensures Parsed(f, cell).nPayload < U32
  {
    hide Varint.Val, Varint.SizeLen, Local, SizeOf;
  }

  lemma CountIs(f: Form, cell: seq<byte>)
    requires f.Valid()
    ensures var i, u := Parsed(f, cell), f.usable - 4;
      (i.nPayload - i.nLocal + u - 1) % U32 / u == if Wraps(f, cell) then 0 else OvflPages(f, cell)
  {
    hide PagesFor, Parsed;
    var i := Parsed(f, cell);
    SizeIn32Bits(f, cell);
    CountWraps(i.nPayload - i.nLocal, f.usable - 4);
  }

  lemma SameCount(f: Form, cell: seq<byte>, cell': seq<byte>)
    requires f.Valid()
    ensures Parsed(f, cell') == Parsed(f, cell) ==>
      OvflPages(f, cell') == OvflPages(f, cell) && (Wraps(f, cell') <==> Wraps(f, cell))
  {
    hide Parsed, PagesFor;
  }

  /** No payload within the limit on the length of a record wraps. */
  lemma ShortIsCounted(f: Form, cell: seq<byte>)
    requires f.Valid()
    ensures Parsed(f, cell).nPayload < HALF ==> !Wraps(f, cell)
  {
    hide Parsed;
  }

  /** A cell of a table leaf with pages of 512 bytes whose payload size is 2^32 - 1. */
  lemma WrappingCell(rest: seq<byte>)
    ensures var f := Form(0, true, 477, 39, 512); var cell: seq<byte> := [0x8f, 0xff, 0xff, 0xff, 0x7f, 0x01] + rest;
      && f.Valid() && Wraps(f, cell) && Parsed(f, cell).nPayload == U32 - 1 && Parsed(f, cell).header == 6
      && OvflPages(f, cell) > 8_000_000
  {
    var s: seq<byte> := [0x8f, 0xff, 0xff, 0xff, 0x7f, 0x01] + rest;
    assert Varint.Lead(s, 4, 4) == 0 && Varint.Lead(s, 3, 5) == 1 && Varint.Lead(s, 2, 6) == 2;
    assert Varint.Lead(s, 1, 7) == 3 && Varint.SizeLen(s, 0) == 5;
    assert Varint.Val(s, 0, 1) == 15 && Varint.Val(s, 0, 2) == 15 * 128 + 127;
    assert Varint.Val(s, 0, 3) == 0x3ffff;
    assert Varint.Val(s, 0, 4) == 0x1ffffff;
    assert Varint.Val(s, 0, 5) == U32 - 1;
    assert Varint.SizeLen(s, 5) == 1;
  }

  /** The cell does not end on its page. */
  predicate Outside(f: Form, cell: seq<byte>)
    requires f.Valid()
  {
    Parsed(f, cell).header + Parsed(f, cell).nLocal > |cell|
  }

  /** The cell names an overflow page. */
  predicate Follows(f: Form, cell: seq<byte>)
    requires f.Valid()
  {
    First(cell, Parsed(f, cell).header + Parsed(f, cell).nLocal) != 0
  }

  /** d bytes are moved, and the walk stands before page idx of the chain, whose number is next. */
  ghost predicate AtPage(f: Form, cell: seq<byte>, pages: Pages, list: seq<nat>, payload: seq<byte>, o: nat,
                         write: bool,
                         buf: seq<byte>, d: nat, a: seq<nat>, idx: nat, offset: nat, next: nat)
    requires f.Valid()
  {
    && Moved(f, cell, pages, list, payload, o, write, buf, d) && Cached(a, list, OvflPages(f, cell))
    && idx <= |list| && next == No(list, idx) && o + d == Parsed(f, cell).nLocal + Begin(idx, f.usable - 4) + offset
  }

  lemma ChainLink(f: Form, cell: seq<byte>, pages: Pages, list: seq<nat>, payload: seq<byte>, idx: nat)
    requires f.Valid() && Reaches(f, cell, pages, list, payload) && idx < |list|
    ensures list[idx] != 0 && list[idx] in pages && |pages[list[idx]]| >= 4
    ensures Get4(pages[list[idx]], 0) == No(list, idx + 1)
  {
    hide Parsed, First, PageHolds;
  }

  /** The page is in the chain; a 0 comes only where the chain ends. */
  lemma Standing(f: Form, cell: seq<byte>, pages: Pages, list: seq<nat>, payload: seq<byte>, o: nat, write: bool,
                 buf: seq<byte>, d: nat, a: seq<nat>, idx: nat, offset: nat, next: nat)
    requires f.Valid() && AtPage(f, cell, pages, list, payload, o, write, buf, d, a, idx, offset, next)
    ensures next == 0 <==> idx == |list|
    ensures next != 0 ==> next in pages && list[idx] == next
  {
    hide Parsed, Reaches, Cached, Begin, Now;
    if idx < |list| {
      ChainLink(f, cell, pages, list, Now(payload, o, write, buf, d), idx);
    }
  }

  /** Passing a page: its successor is in the cache or in the link. */
  lemma Passed(f: Form, cell: seq<byte>, pages: Pages, list: seq<nat>, payload: seq<byte>, o: nat, write: bool,
               buf: seq<byte>, d: nat, a: seq<nat>, idx: nat, offset: nat, next: nat)
    requires f.Valid() && AtPage(f, cell, pages, list, payload, o, write, buf, d, a, idx, offset, next)
    requires next != 0 && offset >= f.usable - 4 && idx + 1 < OvflPages(f, cell)
    ensures next in pages && |pages[next]| >= 4 && idx + 1 < |a|
    ensures AtPage(f, cell, pages, list, payload, o, write, buf, d, a[idx := next], idx + 1, offset - (f.usable - 4),
                   if a[idx + 1] != 0 then a[idx + 1] else Get4(pages[next], 0))
  {
    hide Parsed, Reaches, Get4, Now, OvflPages;
    Standing(f, cell, pages, list, payload, o, write, buf, d, a, idx, offset, next);
    ChainLink(f, cell, pages, list, Now(payload, o, write, buf, d), idx);
    BeginStep(idx, f.usable - 4);
    hide Begin;
  }

  /** Moving n bytes between the page and the buffer. */
  lemma Transferred(f: Form, cell: seq<byte>, pages: Pages, list: seq<nat>, payload: seq<byte>, o: nat, write: bool,
                    buf: seq<byte>, d: nat, a: seq<nat>, idx: nat, offset: nat, next: nat, n: nat)
    requires f.Valid() && AtPage(f, cell, pages, list, payload, o, write, buf, d, a, idx, offset, next)
    requires next != 0 && offset + n <= f.usable - 4 && d + n <= |buf|
    ensures next in pages && |pages[next]| >= f.usable
    ensures o + d + n <= Parsed(f, cell).nLocal + Begin(|list|, f.usable - 4)
    ensures var p := pages[next];
      var ps, b := pages[next := PageAfter(p, 4 + offset, buf, d, n, write)], BufAfter(p, 4 + offset, buf, d, n, write);
      && Moved(f, cell, ps, list, payload, o, write, b, d + n) && Cached(a[idx := next], list, OvflPages(f, cell))
      && (n == f.usable - 4 - offset ==>
           AtPage(f, cell, ps, list, payload, o, write, b, d + n, a[idx := next], idx + 1, 0, Get4(p, 0)))
  {
    hide Parsed, Reaches, Get4, Now, OvflPages, PageAfter, BufAfter;
    Standing(f, cell, pages, list, payload, o, write, buf, d, a, idx, offset, next);
    ChainLink(f, cell, pages, list, Now(payload, o, write, buf, d), idx);
    BeginStep(idx, f.usable - 4);
    BeginOrder(idx, |list|, f.usable - 4);
    hide Begin;
    MovePage(f, cell, pages, list, payload, o, write, buf, d, idx, offset, n);
  }

  /** Where byte o of the spilled data lies. */
  lemma PageOf(o: nat, n: nat, u: nat)
    requires u > 0 && o < n
    ensures o / u < PagesFor(n, u) && Begin(o / u, u) + o % u == o
  {
    assert o / u * u + o % u == o;
    Bounds(n, u, o / u);
  }

  /** The walk starts at the first page, or at one that the cache knows. */
  lemma Started(f: Form, cell: seq<byte>, pages: Pages, list: seq<nat>, payload: seq<byte>, o: nat, write: bool,
                buf: seq<byte>, d: nat, a: seq<nat>, k: nat, offset: nat)
    requires f.Valid() && Moved(f, cell, pages, list, payload, o, write, buf, d) && Cached(a, list, OvflPages(f, cell))
    requires o + d == Parsed(f, cell).nLocal + Begin(k, f.usable - 4) + offset && k < OvflPages(f, cell)
    requires Parsed(f, cell).nLocal < Parsed(f, cell).nPayload
    ensures k == 0 ==>
      AtPage(f, cell, pages, list, payload, o, write, buf, d, a, k, offset,
             First(cell, Parsed(f, cell).header + Parsed(f, cell).nLocal))
    ensures k < |a| && (a[k] != 0 ==> AtPage(f, cell, pages, list, payload, o, write, buf, d, a, k, offset, a[k]))
  {
    hide Parsed, First, OvflPages, Now, Begin, Chained;
  }

  lemma Forgotten(list: seq<nat>, a: seq<nat>, n: nat)
    ensures |list| <= n ==> Cached(seq(n, i => 0) + a, list, n)
  {
  }

  /** A chain is no longer than the payload needs. */
  lemma ChainFits(f: Form, cell: seq<byte>, pages: Pages, list: seq<nat>, payload: seq<byte>, o: nat, write: bool,
                  buf: seq<byte>, d: nat)
    requires f.Valid() && Moved(f, cell, pages, list, payload, o, write, buf, d)
    ensures |list| <= OvflPages(f, cell)
  {
    hide Parsed, First, PagesFor, Linked, PageHolds;
  }

  /** copyPayload. */
  method CopyPayload(p: seq<byte>, at: nat, buf: seq<byte>, d: nat, n: nat, write: bool)
    returns (q: seq<byte>, b: seq<byte>)
    requires at + n <= |p| && d + n <= |buf|
    ensures q == PageAfter(p, at, buf, d, n, write) && b == BufAfter(p, at, buf, d, n, write)
  {
    if write {
      return Patch(p, at, buf[d..d + n]), buf;
    } else {
      return p, Patch(buf, d, p[at..at + n]);
    }
  }

  class BtCursor {
    const form: Form
    var cell: seq<byte>        // the page from the cell on, to the end of its usable part
    var pages: Pages
    var info: Info             // the parsed cell; nSize is 0 while it is not parsed
    var aOverflow: seq<nat>
    var validOvfl: bool

    ghost predicate Valid()
      reads this
    {
      && form.Valid() && Sized(pages, form.usable) && (info.nSize != 0 ==> info == Parsed(form, cell))
      && if Wraps(form, cell) then aOverflow == [] else validOvfl ==> OvflPages(form, cell) <= |aOverflow|
    }

    /** The cursor is at the cell of this payload, and its cache agrees with the chain. */
    ghost predicate At(list: seq<nat>, payload: seq<byte>)
      requires form.Valid()
      reads this
    {
      Reaches(form, cell, pages, list, payload) && (validOvfl ==> Cached(aOverflow, list, OvflPages(form, cell)))
    }

    constructor (f: Form, s: seq<byte>, ps: Pages)
      requires f.Valid() && Sized(ps, f.usable)
      ensures Valid() && form == f && cell == s && pages == ps && !validOvfl
    {
      form, cell, pages, aOverflow, validOvfl := f, s, ps, [], false;
      info := Info(0, 0, 0, 0, 0);
    }

    /** getCellInfo */
    method GetCellInfo()
      requires Valid()
      modifies `info
      ensures Valid() && info == Parsed(form, cell)
    {
      if info.nSize == 0 {
        info := ParseCell(form, cell);
      }
    }

    /** An empty cache, with a place for each overflow page as they are counted. */
    method NewCache(ghost list: seq<nat>)
      requires Valid() && !validOvfl && info == Parsed(form, cell)
      modifies `aOverflow, `validOvfl
      ensures Valid() && validOvfl
      ensures !Wraps(form, cell) && |list| <= OvflPages(form, cell) ==> Cached(aOverflow, list, OvflPages(form, cell))
    {
      hide Parsed, OvflPages, Wraps, Cached;
      var ovflSize := form.usable - 4;
      CountIs(form, cell);
      var nOvfl: nat := (info.nPayload - info.nLocal + ovflSize - 1) % U32 / ovflSize;
      if nOvfl > |aOverflow| {
        aOverflow := aOverflow + seq(2 * nOvfl - |aOverflow|, i => 0);
      }
      Forgotten(list, aOverflow[nOvfl..], nOvfl);
      aOverflow := seq(nOvfl, i => 0) + aOverflow[nOvfl..];
      validOvfl := true;
    }

    /** The cache is made on the first access beyond the cell; later ones may start in the middle of the chain. */
    method Enter(offset0: nat, ghost o: nat, write: bool, ghost d: nat, ghost buf: seq<byte>, ghost good: bool,
                 ghost list: seq<nat>, ghost payload: seq<byte>)
      returns (ok: bool, idx: nat, offset: nat, next: nat)
      requires Valid() && info == Parsed(form, cell) && d < |buf| && (good ==> !Wraps(form, cell))
      requires offset0 + |buf| - d <= info.nPayload - info.nLocal && info.nLocal < info.nPayload
      requires good ==> Moved(form, cell, pages, list, payload, o, write, buf, d) && o + d == info.nLocal + offset0
      requires good && validOvfl ==> Cached(aOverflow, list, OvflPages(form, cell))
      modifies `aOverflow, `validOvfl
      ensures Valid() && validOvfl && Begin(idx, form.usable - 4) + offset == offset0
      ensures ok <==> !(old(validOvfl) && Wraps(form, cell))
      ensures Wraps(form, cell) ==> next == First(cell, info.header + info.nLocal)
      ensures good ==> AtPage(form, cell, pages, list, payload, o, write, buf, d, aOverflow, idx, offset, next)
    {
      hide Parsed, Begin, Moved, Cached, AtPage, Wraps;
      var ovflSize := form.usable - 4;
      ok, idx, offset := true, 0, offset0;
      next := First(cell, info.header + info.nLocal);
      PageOf(offset, info.nPayload - info.nLocal, ovflSize);
      BeginStep(0, ovflSize);
      if !validOvfl {
        NewCache(list);
        if good {
          ChainFits(form, cell, pages, list, payload, o, write, buf, d);
          Started(form, cell, pages, list, payload, o, write, buf, d, aOverflow, 0, offset);
        }
      } else {
        if good {
          Started(form, cell, pages, list, payload, o, write, buf, d, aOverflow, 0, offset);
          Started(form, cell, pages, list, payload, o, write, buf, d, aOverflow, offset / ovflSize, offset % ovflSize);
        }
        if offset / ovflSize >= |aOverflow| {
          ok := false;
        } else if aOverflow[offset / ovflSize] != 0 {
          idx := offset / ovflSize;
          next := aOverflow[idx];
          offset := offset % ovflSize;
        }
      }
    }

    /** A page that is only passed: its successor is looked up in the cache, or else read from the page. */
    method PassPage(idx: nat, ghost offset: nat, at: nat, ghost o: nat, write: bool, ghost d: nat, ghost buf: seq<byte>,
                    ghost good: bool, ghost list: seq<nat>, ghost payload: seq<byte>)
      returns (ok: bool, next: nat)
      requires Valid() && info == Parsed(form, cell) && validOvfl && !Wraps(form, cell)
      requires at != 0 && idx + 1 < OvflPages(form, cell) && offset >= form.usable - 4
      requires good ==> AtPage(form, cell, pages, list, payload, o, write, buf, d, aOverflow, idx, offset, at)
      modifies `aOverflow
      ensures Valid()
      ensures good ==>
        ok && AtPage(form, cell, pages, list, payload, o, write, buf, d, aOverflow, idx + 1,
                     offset - (form.usable - 4), next)
    {
      hide Parsed, AtPage, OvflPages, Wraps;
      if good { Passed(form, cell, pages, list, payload, o, write, buf, d, aOverflow, idx, offset, at); }
      aOverflow := aOverflow[idx := at];
      if aOverflow[idx + 1] != 0 {
        return true, aOverflow[idx + 1];
      } else if at in pages {
        return true, Get4(pages[at], 0);
      } else {
        return false, 0;
      }
    }

    /** A page from or to which n bytes are moved. */
    method UsePage(idx: nat, offset: nat, at: nat, n: nat, ghost o: nat, write: bool, d: nat, buf0: seq<byte>,
                   ghost good: bool, ghost list: seq<nat>, ghost payload: seq<byte>)
      returns (ok: bool, next: nat, buf: seq<byte>)
      requires Valid() && info == Parsed(form, cell) && validOvfl && !Wraps(form, cell)
      requires at != 0 && idx < OvflPages(form, cell)
      requires offset + n <= form.usable - 4 && d + n <= |buf0|
      requires good ==> AtPage(form, cell, pages, list, payload, o, write, buf0, d, aOverflow, idx, offset, at)
      modifies `pages, `aOverflow
      ensures Valid() && |buf| == |buf0| && if write then buf == buf0 else pages == old(pages)
      ensures ok <==> at in old(pages)
      ensures good ==> ok && o + d + n <= info.nLocal + Begin(|list|, form.usable - 4)
      ensures good ==>
        Moved(form, cell, pages, list, payload, o, write, buf, d + n) && Cached(aOverflow, list, OvflPages(form, cell))
      ensures good && n == form.usable - 4 - offset ==>
        AtPage(form, cell, pages, list, payload, o, write, buf, d + n, aOverflow, idx + 1, 0, next)
    {
      hide Parsed, AtPage, Moved, Cached, OvflPages, Wraps;
      if good { Transferred(form, cell, pages, list, payload, o, write, buf0, d, aOverflow, idx, offset, at, n); }
      aOverflow := aOverflow[idx := at];
      if at !in pages {
        return false, 0, buf0;
      }
      ok, next := true, Get4(pages[at], 0);
      var q, b := CopyPayload(pages[at], 4 + offset, buf0, d, n, write);
      assert !write ==> pages[at := q] == pages;
      pages, buf := pages[at := q], b;
    }

    /** The loop over the overflow pages. */
    method FollowChain(idx0: nat, offset0: nat, next0: nat, d0: nat, buf0: seq<byte>, write: bool,
                       ghost o: nat, ghost good: bool, ghost list: seq<nat>, ghost payload: seq<byte>)
      returns (rc: Rc, buf: seq<byte>, ghost d: nat)
      requires Valid() && info == Parsed(form, cell) && validOvfl && d0 < |buf0| && (good ==> !Wraps(form, cell))
      requires Begin(idx0, form.usable - 4) + offset0 + |buf0| - d0 <= info.nPayload - info.nLocal
      requires good ==> AtPage(form, cell, pages, list, payload, o, write, buf0, d0, aOverflow, idx0, offset0, next0)
      modifies `pages, `aOverflow
      ensures Valid() && rc != FULL && |buf| == |buf0| && d0 <= d <= |buf|
      ensures rc == OVERRUN <==> Wraps(form, cell) && next0 != 0
      ensures Wraps(form, cell) ==> rc != OK
      ensures if write then buf == buf0 else pages == old(pages)
      ensures good ==>
        Moved(form, cell, pages, list, payload, o, write, buf, d) && Cached(aOverflow, list, OvflPages(form, cell))
      ensures good ==>
        (rc == OK <==> d == |buf|) && (rc == OK <==> o + |buf| <= info.nLocal + Begin(|list|, form.usable - 4))
    {
      hide Parsed, Begin, Moved, Cached, AtPage, Wraps;
      var ovflSize := form.usable - 4;
      ghost var spilled: nat := info.nPayload - info.nLocal;
      var idx: nat, offset: nat, next: nat := idx0, offset0, next0;
      rc, buf, d := CORRUPT, buf0, d0;
      var done: nat := d0;
      while next != 0
        invariant Valid() && |buf| == |buf0| && d0 <= done == d < |buf| && (Wraps(form, cell) ==> next == next0)
        invariant if write then buf == buf0 else pages == old(pages)
        invariant Begin(idx, ovflSize) + offset + |buf| - d <= spilled
        invariant good ==> AtPage(form, cell, pages, list, payload, o, write, buf, d, aOverflow, idx, offset, next)
        decreases |buf| - d, offset
      {
        InRange(spilled, ovflSize, idx, offset);
        if idx >= |aOverflow| {
          return OVERRUN, buf, d;
        }
        var ok;
        if offset >= ovflSize {
          ok, next := PassPage(idx, offset, next, o, write, d, buf, good, list, payload);
          offset := offset - ovflSize;
        } else {
          var n: nat := if |buf| - done + offset > ovflSize then ovflSize - offset else |buf| - done;
          ok, next, buf := UsePage(idx, offset, next, n, o, write, done, buf, good, list, payload);
          if ok {
            done, d := done + n, d + n;
          }
          if done == |buf| {
            return OK, buf, d;
          }
          offset := 0;
        }
        if !ok {
          return CORRUPT, buf, d;
        }
        idx := idx + 1;
      }
      if good { ChainEnded(form, cell, pages, list, payload, o, write, buf, d, aOverflow, idx, offset); }
    }

    /** What of the range lies in the cell is moved first. */
    method UseCell(o: nat, buf0: seq<byte>, write: bool, ghost good: bool, ghost list: seq<nat>,
                   ghost payload: seq<byte>)
      returns (offset: nat, done: nat, buf: seq<byte>)
      requires Valid() && info == Parsed(form, cell) && info.header + info.nLocal <= |cell|
      requires o + |buf0| <= info.nPayload
      requires good ==> Reaches(form, cell, pages, list, payload)
      modifies `cell
      ensures Valid() && info == Parsed(form, cell) && |buf| == |buf0| && done <= |buf|
      ensures if write then buf == buf0 else cell == old(cell)
      ensures OvflPages(form, cell) == old(OvflPages(form, cell)) && Wraps(form, cell) == old(Wraps(form, cell))
      ensures First(cell, info.header + info.nLocal) == old(First(cell, info.header + info.nLocal))
      ensures good ==> Moved(form, cell, pages, list, payload, o, write, buf, done)
      ensures done < |buf| ==> o + done == info.nLocal + offset
      ensures done == |buf| ==> buf == [] || o + |buf| <= info.nLocal
    {
      hide Parsed, Reaches, PagesFor, First, Moved, OvflPages, Wraps;
      offset, done, buf := o, 0, buf0;
      if good { MoveBegins(form, cell, pages, list, payload, o, write, buf); }
      if offset < info.nLocal {
        var a := if |buf| + offset > info.nLocal then info.nLocal - offset else |buf|;
        if good { MoveCell(form, cell, pages, list, payload, o, write, buf, a); }
        PayloadPatchParsed(form, cell, info.header + offset, buf[0..a]);
        FirstKept(cell, info.header + offset, buf[0..a], info.header + info.nLocal);
        var q, b := CopyPayload(cell, info.header + offset, buf, 0, a, write);
        SameCount(form, cell, q);
        cell, buf := q, b;
        offset, done := 0, a;
      } else {
        offset := offset - info.nLocal;
      }
    }

    /** The range lies in a cell that is on its page, and reaches beyond what the cell holds. */
    ghost predicate Beyond(o: nat, n: nat)
      requires form.Valid()
      reads this
    {
      !Outside(form, cell) && n > 0 && o + n > Parsed(form, cell).nLocal
    }

    /** Moves |buf| bytes of the payload, from place o on, to or from the buffer. */
    method AccessPayload(o: nat, buf0: seq<byte>, write: bool, ghost list: seq<nat>, ghost payload: seq<byte>)
      returns (rc: Rc, buf: seq<byte>, ghost d: nat)
      requires Valid() && o + |buf0| <= Parsed(form, cell).nPayload
      modifies this
      ensures Valid() && rc != FULL && |buf| == |buf0| && d <= |buf|
      ensures Parsed(form, cell) == old(Parsed(form, cell))
      ensures if write then buf == buf0 else pages == old(pages) && cell == old(cell)
      ensures old(Outside(form, cell)) ==> rc == CORRUPT && d == 0
      ensures rc == OVERRUN <==> old(Wraps(form, cell) && Beyond(o, |buf0|) && (validOvfl || Follows(form, cell)))
      ensures old(Wraps(form, cell) && Beyond(o, |buf0|)) ==> rc != OK
      ensures old(At(list, payload) && !Wraps(form, cell)) ==>
        && o + d <= |payload| && At(list, Now(payload, o, write, buf, d)) && (!write ==> buf[..d] == payload[o..o + d])
        && (rc == OK <==> d == |buf|)
        && (rc == OK <==> buf == [] || o + |buf| <= Parsed(form, cell).nLocal + Begin(|list|, form.usable - 4))
    {
      hide Parsed, Begin, Cached, Moved, Reaches, First, Get4, OvflPages, Wraps;
      ghost var good := At(list, payload) && !Wraps(form, cell);
      GetCellInfo();
      rc, buf, d := OK, buf0, 0;
      if good { MoveBegins(form, cell, pages, list, payload, o, write, buf); }
      if info.header > |cell| - info.nLocal {
        return CORRUPT, buf, d;
      }
      var offset, done;
      offset, done, buf := UseCell(o, buf, write, good, list, payload);
      d := done;
      if done < |buf| {
        var ok, idx, next;
        ok, idx, offset, next := Enter(offset, o, write, d, buf, good, list, payload);
        if !ok {
          return OVERRUN, buf, d;
        }
        rc, buf, d := FollowChain(idx, offset, next, done, buf, write, o, good, list, payload);
      }
      if good { AllMoved(form, cell, pages, list, payload, o, write, buf, d); }
    }
  }

  lemma MoveBegins(f: Form, cell: seq<byte>, pages: Pages, list: seq<nat>, payload: seq<byte>, o: nat, write: bool,
                   buf: seq<byte>)
    requires f.Valid() && Reaches(f, cell, pages, list, payload) && o + |buf| <= Parsed(f, cell).nPayload
    ensures |payload| == Parsed(f, cell).nPayload && Parsed(f, cell).header + Parsed(f, cell).nLocal <= |cell|
    ensures Moved(f, cell, pages, list, payload, o, write, buf, 0)
  {
    hide Parsed, Chained, First, Patch;
    NothingMoved(payload, o, write, buf);
  }

  lemma AllMoved(f: Form, cell: seq<byte>, pages: Pages, list: seq<nat>, payload: seq<byte>, o: nat, write: bool,
                 buf: seq<byte>, d: nat)
    requires f.Valid() && Moved(f, cell, pages, list, payload, o, write, buf, d)
    ensures Reaches(f, cell, pages, list, Now(payload, o, write, buf, d)) && (!write ==> buf[..d] == payload[o..o + d])
  {
    hide Reaches;
  }

  lemma InRange(n: nat, u: nat, idx: nat, offset: nat)
    requires u > 0 && Begin(idx, u) + offset < n
    ensures idx < PagesFor(n, u) && (offset >= u ==> idx + 1 < PagesFor(n, u)) && Begin(idx + 1, u) == Begin(idx, u) + u
  {
    Bounds(n, u, idx);
    Bounds(n, u, idx + 1);
    BeginStep(idx, u);
  }

  lemma ChainEnded(f: Form, cell: seq<byte>, pages: Pages, list: seq<nat>, payload: seq<byte>, o: nat, write: bool,
                   buf: seq<byte>, d: nat, a: seq<nat>, idx: nat, offset: nat)
    requires f.Valid() && AtPage(f, cell, pages, list, payload, o, write, buf, d, a, idx, offset, 0)
    ensures Moved(f, cell, pages, list, payload, o, write, buf, d) && Cached(a, list, OvflPages(f, cell))
    ensures o + d >= Parsed(f, cell).nLocal + Begin(|list|, f.usable - 4)
  {
    hide Parsed, Moved, Cached, Begin;
    Standing(f, cell, pages, list, payload, o, write, buf, d, a, idx, offset, 0);
  }

  /** What fillInCell stores, accessPayload reads back: any parts, in any order, through one cursor and its cache. */
  method StoreThenRead(f: Form, buf: seq<byte>, x: BtreePayload, pages0: Pages, alloc: seq<nat>, parts: seq<(nat, nat)>)
    returns (rc: Rc, results: seq<seq<byte>>)
    requires f.Valid() && |Payload(f, x)| < 0x8000_0000 && x.nKey < U64
    requires SizeOf(f, |Payload(f, x)|, f.childPtrSize + |Header(f, |Payload(f, x)|, x.nKey)|) <= |buf|
    requires Allocatable(pages0, alloc, f.usable) && Sized(pages0, f.usable)
    requires forall k :: 0 <= k < |parts| ==> parts[k].0 + parts[k].1 <= |Payload(f, x)|
    ensures rc == OK <==> PagesFor(|Payload(f, x)| - Local(f, |Payload(f, x)|), f.usable - 4) <= |alloc|
    ensures rc == OK ==> |results| == |parts|
    ensures rc == OK ==>
      forall k :: 0 <= k < |parts| ==> results[k] == Payload(f, x)[parts[k].0..parts[k].0 + parts[k].1]
  {
    hide Parsed, Payload, Local, SizeOf, Header, PagesFor, Allocatable, Holds, Reaches, Cached, Begin;
    var cell, nSize, pages, nUsed;
    rc, cell, nSize, pages, nUsed := FillInCell(f, buf, x, pages0, alloc);
    results := [];
    if rc != OK {
      return;
    }
    ghost var data, list := Payload(f, x), alloc[..nUsed];
    Stored(f, cell, pages, list, data);
    ShortIsCounted(f, cell);
    var cur := new BtCursor(f, cell, pages);
    while |results| < |parts|
      invariant cur.Valid() && cur.form == f && cur.At(list, data) && fresh(cur)
      invariant Parsed(f, cur.cell) == Parsed(f, cell) && |results| <= |parts|
      invariant forall k :: 0 <= k < |results| ==> results[k] == data[parts[k].0..parts[k].0 + parts[k].1]
    {
      var o, n := parts[|results|].0, parts[|results|].1;
      var got, r;
      ghost var d;
      got, r, d := cur.AccessPayload(o, seq(n, i => 0), false, list, data);
      assert got == OK && r[..d] == r;
      results := results + [r];
    }
  }

  lemma Stored(f: Form, cell: seq<byte>, pages: Pages, list: seq<nat>, data: seq<byte>)
    requires f.Valid() && Holds(f, cell, pages, list, data)
    ensures Reaches(f, cell, pages, list, data)
    ensures Parsed(f, cell).nPayload == |data| <= Parsed(f, cell).nLocal + Begin(|list|, f.usable - 4)
  {
    HoldsReaches(f, cell, pages, list, data);
    hide Parsed, Chained, Get4, First, Begin, PagesFor;
    Bounds(|data| - Parsed(f, cell).nLocal, f.usable - 4, |list|);
  }
}
