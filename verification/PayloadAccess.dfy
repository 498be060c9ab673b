/**
  accessPayload: reading and overwriting parts of a payload through a cursor, with its cache of the numbers
  of the overflow pages.
 */
module PayloadAccess {

  import opened Basics
  import opened PageSpace
  import opened CellFormat
  import opened OverflowChain
  import opened PayloadWrite
  import Varint

  /** The first overflow page.  A link that lies behind the end of the page reads as 0. */
  function First(cell: seq<byte>, i: nat): nat {
    if i + 4 <= |cell| then Get4(cell, i) else 0
  }

  /** The cell and the chain hold the payload as far as the chain goes; all that lies further is lost. */
  ghost predicate Reaches(f: Form, cell: seq<byte>, pages: Pages, list: seq<nat>, payload: seq<byte>)
    requires f.Valid()
  {
    var i := Parsed(f, cell);
    && i.nPayload == |payload| && i.header + i.nLocal <= |cell|
    && cell[i.header..i.header + i.nLocal] == payload[..i.nLocal]
    && Chained(pages, list, payload[i.nLocal..], f.usable - 4)
    && (i.nLocal < i.nPayload ==> First(cell, i.header + i.nLocal) == No(list, 0))
  }

  /** What fillInCell has stored is a chain that goes all the way. */
  lemma HoldsReaches(f: Form, cell: seq<byte>, pages: Pages, list: seq<nat>, payload: seq<byte>)
    requires f.Valid()
    ensures Holds(f, cell, pages, list, payload) <==>
      && Reaches(f, cell, pages, list, payload) && Parsed(f, cell).nSize <= |cell|
      && |list| == PagesFor(|payload| - Parsed(f, cell).nLocal, f.usable - 4)
  {
    hide Parsed, Chained, Get4, PagesFor;
  }

  /** The first n entries of the cache agree with the chain; 0 stands for a page that is not known. */
  ghost predicate Cached(a: seq<nat>, list: seq<nat>, n: nat) {
    |list| <= n <= |a| && forall t :: 0 <= t < n ==> a[t] == 0 || a[t] == No(list, t)
  }

  // ---- the payload while d bytes of the buffer have been moved

  ghost function Now(payload: seq<byte>, o: nat, write: bool, buf: seq<byte>, d: nat): seq<byte>
    requires o + d <= |payload| && d <= |buf|
  {
    if write then Patch(payload, o, buf[..d]) else payload
  }

  ghost predicate Moved(f: Form, cell: seq<byte>, pages: Pages, list: seq<nat>, payload: seq<byte>, o: nat, write: bool,
                        buf: seq<byte>, d: nat)
    requires f.Valid()
  {
    && o + |buf| <= |payload| && d <= |buf|
    && Reaches(f, cell, pages, list, Now(payload, o, write, buf, d))
    && (!write ==> buf[..d] == payload[o..o + d])
  }

  /** Where copyPayload leaves the page and the buffer. */
  function PageAfter(p: seq<byte>, at: nat, buf: seq<byte>, d: nat, n: nat, write: bool): (r: seq<byte>)
    requires at + n <= |p| && d + n <= |buf|
    ensures |r| == |p|
  {
    if write then Patch(p, at, buf[d..d + n]) else p
  }

  function BufAfter(p: seq<byte>, at: nat, buf: seq<byte>, d: nat, n: nat, write: bool): (r: seq<byte>)
    requires at + n <= |p| && d + n <= |buf|
    ensures |r| == |buf|
  {
    if write then buf else Patch(buf, d, p[at..at + n])
  }

  /** Two writes side by side are one. */
  lemma PatchTwice(payload: seq<byte>, o: nat, buf: seq<byte>, d: nat, n: nat)
    requires o + d + n <= |payload| && d + n <= |buf|
    ensures Patch(Patch(payload, o, buf[..d]), o + d, buf[d..d + n]) == Patch(payload, o, buf[..d + n])
  {
    var a, b := Patch(Patch(payload, o, buf[..d]), o + d, buf[d..d + n]), Patch(payload, o, buf[..d + n]);
    forall j | 0 <= j < |payload| ensures a[j] == b[j] {
      PatchAt(payload, o, buf[..d], j);
      PatchAt(Patch(payload, o, buf[..d]), o + d, buf[d..d + n], j);
      PatchAt(payload, o, buf[..d + n], j);
    }
  }

  /** The next part of the buffer comes from, or goes to, the place of the payload where it belongs. */
  lemma MovedOn(payload: seq<byte>, o: nat, write: bool, buf: seq<byte>, d: nat, p: seq<byte>, at: nat, n: nat)
    requires o + d + n <= |payload| && d + n <= |buf| && at + n <= |p|
    requires !write ==> buf[..d] == payload[o..o + d] && p[at..at + n] == payload[o + d..o + d + n]
    ensures var b := BufAfter(p, at, buf, d, n, write);
      && Now(payload, o, write, b, d + n) ==
         (if write then Patch(Now(payload, o, write, buf, d), o + d, buf[d..d + n]) else payload)
      && (!write ==> b[..d + n] == payload[o..o + d + n])
  {
    if write {
      PatchTwice(payload, o, buf, d, n);
    } else {
      var b := BufAfter(p, at, buf, d, n, write);
      assert b[..d + n] == buf[..d] + p[at..at + n];
      assert payload[o..o + d + n] == payload[o..o + d] + payload[o + d..o + d + n];
    }
  }

  /** A cell is parsed by its header alone. */
  lemma ParsedSame(f: Form, s: seq<byte>, t: seq<byte>)
    requires f.Valid() && forall j :: 0 <= j < KeyEnd(f, s) ==> Varint.At(s, j) == Varint.At(t, j)
    ensures Parsed(f, t) == Parsed(f, s)
  {
    hide Varint.SizeVal, Varint.KeyVal, Varint.SizeLen, Varint.At, Local, SizeOf;
    var c := f.childPtrSize;
    SizeSame(s, t, c);
    if f.intKey {
      SizeSame(s, t, c + Varint.SizeLen(s, c));
      KeySame(s, t, c + Varint.SizeLen(s, c));
    }
  }

  lemma KeySame(s: seq<byte>, t: seq<byte>, i: nat)
    requires forall j :: i <= j < i + Varint.SizeLen(s, i) ==> Varint.At(s, j) == Varint.At(t, j)
    ensures Varint.KeyVal(t, i) == Varint.KeyVal(s, i)
  {
    LeadSame(s, t, i, 8);
    ValSame(s, t, i, Varint.SizeLen(s, i));
    ValSame(s, t, i, Varint.SizeLen(s, i) - 1);
  }

  lemma PayloadPatchParsed(f: Form, cell: seq<byte>, at: nat, c: seq<byte>)
    requires f.Valid() && Parsed(f, cell).header <= at && at + |c| <= |cell|
    ensures Parsed(f, Patch(cell, at, c)) == Parsed(f, cell)
  {
    var t := Patch(cell, at, c);
    assert KeyEnd(f, cell) == Parsed(f, cell).header;
    hide KeyEnd, Parsed, Patch;
    forall j | 0 <= j < KeyEnd(f, cell) ensures Varint.At(cell, j) == Varint.At(t, j) {
      PatchAt(cell, at, c, j);
    }
    ParsedSame(f, cell, t);
  }

  /** Slices before and behind the place where the payload is cut in two. */
  lemma CutPatch(payload: seq<byte>, o: nat, c: seq<byte>, l: nat)
    requires o + |c| <= |payload| && l <= |payload|
    ensures o + |c| <= l ==>
      Patch(payload, o, c)[..l] == Patch(payload[..l], o, c) && Patch(payload, o, c)[l..] == payload[l..]
    ensures l <= o ==>
      Patch(payload, o, c)[..l] == payload[..l] && Patch(payload, o, c)[l..] == Patch(payload[l..], o - l, c)
  {
  }

  lemma PatchSlice(cell: seq<byte>, h: nat, l: nat, o: nat, c: seq<byte>)
    requires h + l <= |cell| && o + |c| <= l
    ensures Patch(cell, h + o, c)[h..h + l] == Patch(cell[h..h + l], o, c)
  {
  }

  lemma FirstKept(cell: seq<byte>, at: nat, c: seq<byte>, i: nat)
    requires at + |c| <= i && i <= |cell|
    ensures First(Patch(cell, at, c), i) == First(cell, i)
  {
    if i + 4 <= |cell| {
      Get4Other(cell, at, c, i);
    }
  }

  /** Writing into the part of the payload that is in the cell. */
  lemma CellWritten(f: Form, cell: seq<byte>, pages: Pages, list: seq<nat>, payload: seq<byte>, o: nat, c: seq<byte>)
    requires f.Valid() && Reaches(f, cell, pages, list, payload) && o + |c| <= Parsed(f, cell).nLocal
    ensures Reaches(f, Patch(cell, Parsed(f, cell).header + o, c), pages, list, Patch(payload, o, c))
  {
    hide Parsed, Chained, Patch, First;
    var i := Parsed(f, cell);
    PayloadPatchParsed(f, cell, i.header + o, c);
    PatchSlice(cell, i.header, i.nLocal, o, c);
    CutPatch(payload, o, c, i.nLocal);
    FirstKept(cell, i.header + o, c, i.header + i.nLocal);
  }

  /** Writing into the part of the payload that is on overflow page t. */
  lemma PageWritten(f: Form, cell: seq<byte>, pages: Pages, list: seq<nat>, payload: seq<byte>, t: nat, lo: nat,
                    c: seq<byte>)
    requires f.Valid() && Reaches(f, cell, pages, list, payload) && t < |list| && lo + |c| <= f.usable - 4
    requires Parsed(f, cell).nLocal + Begin(t, f.usable - 4) + lo + |c| <= |payload|
    ensures list[t] in pages && |pages[list[t]]| >= f.usable
    ensures Reaches(f, cell, pages[list[t] := Patch(pages[list[t]], 4 + lo, c)], list,
                    Patch(payload, Parsed(f, cell).nLocal + Begin(t, f.usable - 4) + lo, c))
  {
    hide Parsed, Patch, First, Begin, Chained;
    var l, u := Parsed(f, cell).nLocal, f.usable - 4;
    ChainPage(pages, list, payload[l..], u, t);
    ChainPatched(pages, list, payload[l..], u, t, lo, c);
    CutPatch(payload, l + Begin(t, u) + lo, c, l);
  }

  lemma ChainPage(pages: Pages, list: seq<nat>, data: seq<byte>, u: nat, t: nat)
    requires Chained(pages, list, data, u) && t < |list|
    ensures list[t] in pages && |pages[list[t]]| >= u + 4
  {
  }

  /** Reading from overflow page t. */
  lemma PageRead(f: Form, cell: seq<byte>, pages: Pages, list: seq<nat>, payload: seq<byte>, t: nat, lo: nat, n: nat)
    requires f.Valid() && Reaches(f, cell, pages, list, payload) && t < |list| && lo + n <= f.usable - 4
    requires Parsed(f, cell).nLocal + Begin(t, f.usable - 4) + lo + n <= |payload|
    ensures list[t] in pages && |pages[list[t]]| >= f.usable
    ensures var b := Parsed(f, cell).nLocal + Begin(t, f.usable - 4) + lo;
      pages[list[t]][4 + lo..4 + lo + n] == payload[b..b + n]
  {
    hide Parsed, First, Begin, Chained;
    var l, u := Parsed(f, cell).nLocal, f.usable - 4;
    assert payload[l..] == payload[l..|payload|];
    ChainRead(pages, list, payload[l..], u, t, lo, n);
    SubSlice(payload, l, |payload|, Begin(t, u) + lo, n);
  }

  lemma ChainRead(pages: Pages, list: seq<nat>, data: seq<byte>, u: nat, t: nat, lo: nat, n: nat)
    requires Chained(pages, list, data, u) && t < |list| && lo + n <= u && Begin(t, u) + lo + n <= |data|
    ensures list[t] in pages && |pages[list[t]]| >= u + 4
    ensures pages[list[t]][4 + lo..4 + lo + n] == data[Begin(t, u) + lo..Begin(t, u) + lo + n]
  {
    HeldAt(pages[list[t]], data, t, u, lo, n);
  }

  lemma MoveCell(f: Form, cell: seq<byte>, pages: Pages, list: seq<nat>, payload: seq<byte>, o: nat, write: bool,
                 buf: seq<byte>, n: nat)
    requires f.Valid() && Moved(f, cell, pages, list, payload, o, write, buf, 0)
    requires n <= |buf| && o + n <= Parsed(f, cell).nLocal
    ensures var at := Parsed(f, cell).header + o;
      at + n <= |cell| && Moved(f, PageAfter(cell, at, buf, 0, n, write), pages, list, payload, o, write,
                                BufAfter(cell, at, buf, 0, n, write), n)
  {
    hide Parsed, Reaches, Patch, Now;
    NothingMoved(payload, o, write, buf);
    CellRead(f, cell, pages, list, payload, o, n);
    MovedOn(payload, o, write, buf, 0, cell, Parsed(f, cell).header + o, n);
    CellWritten(f, cell, pages, list, payload, o, buf[0..n]);
  }

  lemma NothingMoved(payload: seq<byte>, o: nat, write: bool, buf: seq<byte>)
    requires o <= |payload|
    ensures Now(payload, o, write, buf, 0) == payload && buf[..0] == [] == payload[o..o]
  {
  }

  /** Reading from the part of the payload that is in the cell. */
  lemma CellRead(f: Form, cell: seq<byte>, pages: Pages, list: seq<nat>, payload: seq<byte>, o: nat, n: nat)
    requires f.Valid() && Reaches(f, cell, pages, list, payload) && o + n <= Parsed(f, cell).nLocal
    ensures var at := Parsed(f, cell).header + o;
      at + n <= |cell| && cell[at..at + n] == payload[o..o + n]
  {
    hide Parsed, Chained, First;
    var i := Parsed(f, cell);
    SubSlice(cell, i.header, i.header + i.nLocal, o, n);
    SubSlice(payload, 0, i.nLocal, o, n);
    assert payload[0..i.nLocal] == payload[..i.nLocal];
  }

  lemma MovePage(f: Form, cell: seq<byte>, pages: Pages, list: seq<nat>, payload: seq<byte>, o: nat, write: bool,
                 buf: seq<byte>, d: nat, t: nat, lo: nat, n: nat)
    requires f.Valid() && Moved(f, cell, pages, list, payload, o, write, buf, d) && t < |list| && lo + n <= f.usable - 4
    requires d + n <= |buf|
    requires o + d == Parsed(f, cell).nLocal + Begin(t, f.usable - 4) + lo
    ensures list[t] in pages && |pages[list[t]]| >= f.usable
    ensures var ps := pages[list[t] := PageAfter(pages[list[t]], 4 + lo, buf, d, n, write)];
      Moved(f, cell, ps, list, payload, o, write, BufAfter(pages[list[t]], 4 + lo, buf, d, n, write), d + n)
  {
    hide Parsed, Reaches, Patch, Begin;
    var now := Now(payload, o, write, buf, d);
    PageRead(f, cell, pages, list, now, t, lo, n);
    MovedOn(payload, o, write, buf, d, pages[list[t]], 4 + lo, n);
    PageWritten(f, cell, pages, list, now, t, lo, buf[d..d + n]);
    hide Now;
    assert pages[list[t] := pages[list[t]]] == pages;
  }
}
