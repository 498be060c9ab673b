/**
  The header of a cell and how much of its payload lies on the page: the cell parsers and cellSizePtr.
 */
module CellFormat {

  import opened Basics
  import opened PageSpace
  import opened Varint
  import PageDefragment

  /** The kind of page a cell is on. */
  datatype Form = Form(childPtrSize: nat, intKey: bool, maxLocal: nat, minLocal: nat, usable: nat) {
    predicate Valid() {
      && 480 <= usable <= 65536 && minLocal <= maxLocal <= usable - 35
      && (childPtrSize == 0 || childPtrSize == 4) && (intKey ==> childPtrSize == 0)
    }
  }

  /** CellInfo; header is the offset of the payload in the cell. */
  datatype Info = Info(nKey: nat, nPayload: nat, header: nat, nLocal: nat, nSize: nat)

  /** The size of the local part that leaves no bytes over on the last overflow page. */
  function Surplus(f: Form, n: nat): (x: nat)
    requires f.Valid() && n > f.maxLocal
    ensures x >= f.minLocal
  {
    f.minLocal + (n - f.minLocal) % (f.usable - 4)
  }

  /** How much of a payload of n bytes is stored on the page. */
  function Local(f: Form, n: nat): (l: nat)
    requires f.Valid()
    ensures l <= n && l <= f.maxLocal && (n <= f.maxLocal ==> l == n) && (n > f.maxLocal ==> l < n)
  {
    if n <= f.maxLocal then n
    else
      var surplus := Surplus(f, n);
      if surplus <= f.maxLocal then surplus else f.minLocal
  }

  /** The rest of a payload of n bytes fills whole overflow pages if l bytes stay. */
  predicate Fills(f: Form, n: int, l: int)
    requires f.Valid()
  {
    (n - l) % (f.usable - 4) == 0
  }

  /**
    The file format: a payload stays on the page if it may; otherwise the page keeps the allowed amount with which the
    rest fills whole overflow pages, and only if there is none, the least that is allowed.
   */
  predicate Stays(f: Form, n: nat, l: nat)
    requires f.Valid()
  {
    if n <= f.maxLocal then l == n
    else
      && f.minLocal <= l <= f.maxLocal
      && (Fills(f, n, l) || (l == f.minLocal && forall x :: f.minLocal <= x <= f.maxLocal ==> !Fills(f, n, x)))
  }

  /** The amount kept is the one that the file format asks for, and no other. */
  lemma LocalIsAligned(f: Form, n: nat, l: nat)
    requires f.Valid()
    ensures Stays(f, n, l) <==> l == Local(f, n)
  {
    if n > f.maxLocal {
      SurplusFills(f, n);
      forall x | f.minLocal <= x <= f.maxLocal && Fills(f, n, x) ensures x == Surplus(f, n) {
        OneFills(f, n, x, Surplus(f, n));
      }
    }
  }

  lemma SurplusFills(f: Form, n: nat)
    requires f.Valid() && n > f.maxLocal
    ensures Fills(f, n, Surplus(f, n)) && Surplus(f, n) < f.minLocal + (f.usable - 4)
  {
    var u, x := f.usable - 4, n - f.minLocal;
    assert x == x / u * u + x % u;
    Multiple(x / u, u);
  }

  /** Amounts that fill whole pages are a page apart. */
  lemma OneFills(f: Form, n: nat, x: nat, y: nat)
    requires f.Valid() && Fills(f, n, x) && Fills(f, n, y)
    requires f.minLocal <= x < f.minLocal + (f.usable - 4) && f.minLocal <= y < f.minLocal + (f.usable - 4)
    ensures x == y
  {
    var u := f.usable - 4;
    var p, q := (n - x) / u, (n - y) / u;
    assert n - x == p * u && n - y == q * u;
    Distributes(p, q, u);
    Near(p - q, u);
  }

  lemma Near(k: int, u: nat)
    requires 0 < k * u + u && k * u < u
    ensures k == 0
  {
    if k >= 1 { Grows(k, u); }
    if k <= -1 { Grows(-k, u); }
  }

  lemma Multiple(q: nat, u: nat)
    requires u > 0
    ensures (q * u) % u == 0
  {
    Quotient(q * u, u, q, 0);
  }

  function KeyEnd(f: Form, s: seq<byte>): (h: nat)
    ensures h <= f.childPtrSize + 18
  {
    var p := f.childPtrSize + SizeLen(s, f.childPtrSize);
    if f.intKey then p + SizeLen(s, p) else p
  }

  function Max(a: nat, b: nat): nat { if a < b then b else a }

  function SizeOf(f: Form, n: nat, h: nat): nat
    requires f.Valid()
  {
    if n <= f.maxLocal then Max(4, n + h) else Local(f, n) + h + 4
  }

  function Parsed(f: Form, s: seq<byte>): (i: Info)
    requires f.Valid()
    ensures i.nSize < 65536 && i.nLocal <= i.nPayload && i.header + i.nLocal <= i.nSize
    ensures i.nLocal < i.nPayload ==> i.nSize == i.header + i.nLocal + 4
  {
    var n, h := SizeVal(s, f.childPtrSize), KeyEnd(f, s);
    var k := if f.intKey then KeyVal(s, f.childPtrSize + SizeLen(s, f.childPtrSize)) else n;
    Info(k, n, h, Local(f, n), SizeOf(f, n, h))
  }

  lemma SurplusIs(f: Form, n: nat)
    requires f.Valid() && n > f.maxLocal
    ensures Surplus(f, n) == f.minLocal + (n - f.minLocal) % (f.usable - 4)
  {
  }

  lemma ParsedStays(f: Form, s: seq<byte>)
    requires f.Valid()
    ensures var i := Parsed(f, s);
      && Stays(f, i.nPayload, i.nLocal)
      && i.nSize == Max(4, i.header + i.nLocal + if i.nLocal < i.nPayload then 4 else 0)
  {
    hide SizeVal, KeyVal, SizeLen, Surplus, Stays;
    LocalIsAligned(f, Parsed(f, s).nPayload, Parsed(f, s).nLocal);
  }

  /** btreeParseCellPtr and btreeParseCellPtrIndex. */
  method ParseCell(f: Form, s: seq<byte>) returns (i: Info)
    requires f.Valid()
    ensures i == Parsed(f, s)
    ensures Stays(f, i.nPayload, i.nLocal)
    ensures i.nSize == Max(4, i.header + i.nLocal + if i.nLocal < i.nPayload then 4 else 0)
  {
    hide SizeVal, KeyVal, SizeLen, Stays, Surplus;
    ParsedStays(f, s);
    if SizeVal(s, f.childPtrSize) > f.maxLocal { SurplusIs(f, SizeVal(s, f.childPtrSize)); }
    var nPayload, pIter := GetSize(s, f.childPtrSize);
    var nKey := nPayload;
    if f.intKey {
      nKey, pIter := GetKey(s, pIter);
    }
    if nPayload <= f.maxLocal {
      var nSize := nPayload + pIter;
      if nSize < 4 { nSize := 4; }
      return Info(nKey, nPayload, pIter, nPayload, nSize);
    }
    var surplus := f.minLocal + (nPayload - f.minLocal) % (f.usable - 4);
    var nLocal := if surplus <= f.maxLocal then surplus else f.minLocal;
    return Info(nKey, nPayload, pIter, nLocal, nLocal + pIter + 4);
  }

  /** cellSizePtr agrees with a full parse. */
  method CellSizePtr(f: Form, s: seq<byte>) returns (n: nat)
    requires f.Valid()
    ensures n == Parsed(f, s).nSize
  {
    hide SizeVal, KeyVal, SizeLen;
    var nSize, pIter := GetSize(s, f.childPtrSize);
    if f.intKey {
      pIter := SkipKey(s, pIter);
    }
    if nSize <= f.maxLocal {
      nSize := nSize + pIter;
      if nSize < 4 { nSize := 4; }
    } else {
      nSize := f.minLocal + (nSize - f.minLocal) % (f.usable - 4);
      if nSize > f.maxLocal { nSize := f.minLocal; }
      nSize := nSize + 4 + pIter;
    }
    return nSize;
  }

  /** The header that fillInCell writes: the size, and for a table the key. */
  function Header(f: Form, nPayload: nat, nKey: nat): seq<byte>
    requires nPayload < U32 && nKey < U64
  {
    if f.intKey then Put(nPayload) + Put(nKey) else Put(nPayload)
  }

  /** The parsers recover the sizes that the writer used. */
  lemma HeaderIsRead(f: Form, s: seq<byte>, nPayload: nat, nKey: nat)
    requires f.Valid() && nPayload < U32 && nKey < U64 && Stands(Header(f, nPayload, nKey), s, f.childPtrSize)
    ensures var h := f.childPtrSize + |Header(f, nPayload, nKey)|;
      Parsed(f, s) == Info(if f.intKey then nKey else nPayload, nPayload, h, Local(f, nPayload), SizeOf(f, nPayload, h))
  {
    hide Put, SizeVal, KeyVal, SizeLen;
    var c := f.childPtrSize;
    if f.intKey {
      StandsParts(Put(nPayload), Put(nKey), s, c);
      PutIsRead(nKey, s, c + |Put(nPayload)|);
    }
    PutIsRead(nPayload, s, c);
  }

  lemma StandsParts(p: seq<byte>, q: seq<byte>, s: seq<byte>, i: nat)
    requires Stands(p + q, s, i)
    ensures Stands(p, s, i) && Stands(q, s, i + |p|)
  {
    assert s[i..i + |p|] == s[i..i + |p + q|][..|p|];
    assert s[i + |p|..i + |p| + |q|] == s[i..i + |p + q|][|p|..];
  }

  // ---- the pages of a database

  /** Pages of an index; interior pages have a child pointer in each cell. */
  function IndexPage(leaf: bool, usable: nat): (f: Form)
    requires 480 <= usable <= 65536
    ensures f.Valid()
  {
    Form(if leaf then 0 else 4, false, (usable - 12) * 64 / 255 - 23, (usable - 12) * 32 / 255 - 23, usable)
  }

  function TableLeaf(usable: nat): (f: Form)
    requires 480 <= usable <= 65536
    ensures f.Valid()
  {
    Form(0, true, usable - 35, (usable - 12) * 32 / 255 - 23, usable)
  }

  /** Three cells of an index, with their pointers, always have room on a page: none takes half of it. */
  lemma IndexCellsAreSmall(leaf: bool, usable: nat, s: seq<byte>)
    requires 480 <= usable <= 65536
    ensures 3 * (2 + Parsed(IndexPage(leaf, usable), s).nSize) <= usable - 12 + if leaf then 4 else 0
  {
    hide SizeVal, KeyVal, SizeLen, Surplus;
    var f := IndexPage(leaf, usable);
    assert KeyEnd(f, s) <= f.childPtrSize + 9;
  }

  /** A row of 5000 bytes on pages of 4096: 908 bytes stay and one overflow page is full. */
  lemma RowOf5000(l: nat)
    requires Stays(TableLeaf(4096), 5000, l)
    ensures l == 908 && TableLeaf(4096) == Form(0, true, 4061, 489, 4096)
  {
    LocalIsAligned(TableLeaf(4096), 5000, l);
  }

  // ---- the size of a cell is in the cell

  lemma {:induction false} LeadSame(s: seq<byte>, t: seq<byte>, i: nat, m: nat)
    requires forall j :: i <= j <= i + Lead(s, i, m) && j < i + m ==> At(s, j) == At(t, j)
    ensures Lead(t, i, m) == Lead(s, i, m)
    decreases m
  {
    if m > 0 && At(s, i) >= 128 {
      LeadSame(s, t, i + 1, m - 1);
    }
  }

  lemma {:induction false} ValSame(s: seq<byte>, t: seq<byte>, i: nat, n: nat)
    requires forall j :: i <= j < i + n ==> At(s, j) == At(t, j)
    ensures Val(s, i, n) == Val(t, i, n)
  {
    if n > 0 {
      ValSame(s, t, i, n - 1);
    }
  }

  lemma SizeSame(s: seq<byte>, t: seq<byte>, i: nat)
    requires forall j :: i <= j < i + SizeLen(s, i) ==> At(s, j) == At(t, j)
    ensures SizeLen(t, i) == SizeLen(s, i) && SizeVal(t, i) == SizeVal(s, i)
  {
    LeadSame(s, t, i, 8);
    ValSame(s, t, i, SizeLen(s, i));
  }

  /** Whatever stands behind a cell, its size is the same: what defragmentPage relies on. */
  lemma CellSizeIsLocal(f: Form)
    requires f.Valid()
    ensures PageDefragment.SizeIsLocal((s: seq<byte>) => if f.Valid() then Parsed(f, s).nSize else 0)
  {
    hide Parsed;
    var size := (s: seq<byte>) => if f.Valid() then Parsed(f, s).nSize else 0;
    forall s: seq<byte>, t: seq<byte> | size(s) <= |s| && size(s) <= |t| && s[..size(s)] == t[..size(s)]
      ensures size(t) == size(s)
    {
      SameCell(f, s, t);
    }
  }

  lemma SameCell(f: Form, s: seq<byte>, t: seq<byte>)
    requires f.Valid()
    requires var c := Parsed(f, s).nSize; c <= |s| && c <= |t| && s[..c] == t[..c]
    ensures Parsed(f, t).nSize == Parsed(f, s).nSize
  {
    hide SizeVal, SizeLen, Local, KeyVal;
    var c, h := Parsed(f, s).nSize, KeyEnd(f, s);
    forall j | 0 <= j < h ensures At(s, j) == At(t, j) {
      assert s[..c][j] == t[..c][j];
    }
    SizeSame(s, t, f.childPtrSize);
    if f.intKey {
      SizeSame(s, t, f.childPtrSize + SizeLen(s, f.childPtrSize));
    }
  }
}
