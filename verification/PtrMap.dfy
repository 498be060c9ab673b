/**
  Pointer-map pages of an auto-vacuum database, and the size the database has after a vacuum.

  Page 2 is a pointer-map page, and so is every page that is a whole number of groups behind it; where
  that would be the page of the pending byte, which is never used, the next page takes its place.
 */
module PtrMap {

  import opened Basics

  /** What fixes the layout: the usable size of a page, and the page of the pending byte. */
  datatype Layout = Layout(usable: nat, pending: nat) {
    predicate Valid() {
      480 <= usable <= 65536 && 2 <= pending <= 0x20_0001
    }

    /** The entries of one pointer-map page. */
    function Entries(): (n: nat)
      ensures Valid() ==> 96 <= n <= 13107
    {
      usable / 5
    }
  }

  /** The pointer-map page for a page; 0 for page 1. */
  function PtrmapPageno(b: Layout, pgno: nat): nat {
    if pgno < 2 then 0
    else
      var n := b.Entries() + 1;
      var ret := (pgno - 2) / n * n + 2;
      if ret == b.pending then ret + 1 else ret
  }

  predicate IsMap(b: Layout, pgno: nat) {
    PtrmapPageno(b, pgno) == pgno
  }

  /** A page that holds data: not a pointer-map page and not that of the pending byte. */
  predicate Useful(b: Layout, pgno: nat) {
    pgno > 0 && !IsMap(b, pgno) && pgno != b.pending
  }

  /** How many of the first n pages hold data. */
  function Used(b: Layout, n: nat): nat {
    if n == 0 then 0 else Used(b, n - 1) + if Useful(b, n) then 1 else 0
  }

  // ---- counting groups

  /** How many groups begin among the first n pages, for n that need not be positive. */
  function Groups(b: Layout, n: int): int
    requires b.Valid()
  {
    (n - 2) / (b.Entries() + 1) + 1
  }

  /** Used without recursion; also defined for n that are not positive. */
  function Room(b: Layout, n: int): int
    requires b.Valid()
  {
    n - Groups(b, n)
    - (if b.pending <= n then 1 else 0)
    + if n == b.pending && (n - 2) % (b.Entries() + 1) == 0 then 1 else 0
  }

  lemma DivStep(x: int, d: nat)
    requires d > 1
    ensures x / d == (x - 1) / d + if x % d == 0 then 1 else 0
  {
    var q, r := x / d, x % d;
    assert x == q * d + r;
    if r == 0 {
      Quotient(x - 1, d, q - 1, d - 1);
    } else {
      Quotient(x - 1, d, q, r - 1);
    }
  }

  /** A page is a pointer-map page exactly if its group begins there, or one before at the pending byte. */
  lemma MapPlace(b: Layout, n: nat)
    requires b.Valid() && n >= 2
    ensures IsMap(b, n) <==>
      var d := b.Entries() + 1;
      ((n - 2) % d == 0 && n != b.pending) || (n - 1 == b.pending && (n - 3) % d == 0)
  {
    var d := b.Entries() + 1;
    var q, r := (n - 2) / d, (n - 2) % d;
    assert n - 2 == q * d + r;
    if n - 1 == b.pending {
      var q1, r1 := (n - 3) / d, (n - 3) % d;
      assert n - 3 == q1 * d + r1;
      if r1 == 0 {
        Quotient(n - 2, d, q1, 1);
      } else if r == 1 {
        Quotient(n - 3, d, q, 0);
      }
    }
  }

  lemma OneIsNoMap(b: Layout)
    ensures !IsMap(b, 1)
  {
  }

  lemma {:induction false} UsedIsRoom(b: Layout, n: nat)
    requires b.Valid()
    ensures Used(b, n) == Room(b, n)
  {
    var d := b.Entries() + 1;
    hide Layout.Entries, IsMap;
    if n == 0 {
      Quotient(-2, d, -1, d - 2);
    } else {
      UsedIsRoom(b, n - 1);
      DivStep(n - 2, d);
      if n == 1 {
        OneIsNoMap(b);
        Quotient(-1, d, -1, d - 1);
        Quotient(-2, d, -1, d - 2);
      } else {
        MapPlace(b, n);
      }
    }
  }

  // ---- the size after a vacuum

  function Wrap(x: int): (r: nat)
    ensures r < U32
  {
    x % U32
  }

  /** nFin before the last loop, as an integer: the two assignments of the code. */
  function Guess(b: Layout, nOrig: nat, nFree: nat): int
    requires b.Valid()
  {
    var r := nOrig - nFree - (nFree - nOrig + PtrmapPageno(b, nOrig) + b.Entries()) / b.Entries();
    if nOrig > b.pending && 0 <= r < b.pending then r - 1 else r
  }

  /** The pointer-map page of a page by the number of its group and its place there. */
  lemma MapOf(b: Layout, n: nat, g: int, m: nat)
    requires b.Valid() && n >= 2 && g == (n - 2) / (b.Entries() + 1) && n - 2 == g * (b.Entries() + 1) + m
    ensures PtrmapPageno(b, n) == n - m + if n - m == b.pending then 1 else 0
  {
    hide Layout.Entries;
  }

  /**
    In which group the first assignment lands: q groups before that of nOrig, at place t of the group.  The
    place is never 0, and one further on if the group of nOrig begins at the pending byte.
   */
  lemma Landing(b: Layout, nOrig: nat, nFree: nat) returns (g: int, q: nat, t: nat, m: nat, shift: nat)
    requires b.Valid() && Useful(b, nOrig) && nOrig >= 2
    ensures q == (nFree - nOrig + PtrmapPageno(b, nOrig) + b.Entries()) / b.Entries()
    ensures nOrig - 2 == g * (b.Entries() + 1) + m && m <= b.Entries()
    ensures nOrig - nFree - q - 2 == (g - q) * (b.Entries() + 1) + t
    ensures shift == (if nOrig - m == b.pending then 1 else 0)
    ensures 1 + shift <= t <= b.Entries() + shift && m >= 1 + shift
  {
    var j := b.Entries();
    hide Layout.Entries, PtrmapPageno;
    g, m := Divide(nOrig - 2, j + 1);
    shift := if nOrig - m == b.pending then 1 else 0;
    MapOf(b, nOrig, g, m);
    var r;
    q, r := Divide(nFree - m + shift + j, j);
    t := shift + j - r;
    Products(g, q, j);
  }

  lemma Products(g: int, q: int, j: int)
    ensures (g - q) * (j + 1) == g * (j + 1) - q * j - q
  {
  }

  /** Room at place t of a group that is preceded by k others, for a pending byte at page p. */
  function RoomAt(n: int, k: int, t: int, p: nat): int {
    n - (k + 1) - (if p <= n then 1 else 0) + if n == p && t == 0 then 1 else 0
  }

  lemma RoomIs(b: Layout, n: int, k: int, t: nat)
    requires b.Valid() && n - 2 == k * (b.Entries() + 1) + t && t <= b.Entries()
    ensures Room(b, n) == RoomAt(n, k, t, b.pending)
  {
    hide Layout.Entries;
    Quotient(n - 2, b.Entries() + 1, k, t);
  }

  lemma FloorBelow(n: int, j: nat)
    requires n <= 0 && j > 0
    ensures (n - 2) / (j + 1) >= n - 1
  {
    var q, r := Divide(n - 2, j + 1);
    if q <= n - 2 {
      Monotone(q, n - 2, j + 1);
      Products(n - 2, 0, j);
      Products(n - 1, 0, j);
      Distributes(n - 1, 1, j);
      Monotone(n - 1, -1, j);
    }
  }

  lemma NoRoomBelow(b: Layout, n: int)
    requires b.Valid() && n <= 0
    ensures Room(b, n) <= 0
  {
    var j := b.Entries();
    hide Layout.Entries;
    FloorBelow(n, j);
  }

  /** The arithmetic of the guess: r0 is q groups before nOrig, and the pending byte may lie between. */
  lemma Crossing(nOrig: nat, nFree: nat, r0: int, g: int, q: nat, t: nat, m: nat, shift: nat, j: nat, p: nat, own: int,
                 his: int)
    requires r0 == nOrig - nFree - q && nOrig - 2 == own + m && r0 - 2 == his + t && own - his == q * (j + 1)
    requires shift == (if nOrig - m == p then 1 else 0) && nOrig != p
    requires 1 + shift <= t <= j + shift && 1 + shift <= m <= j
    ensures var u := RoomAt(nOrig, g, m, p) - nFree;
      var k, s := if t == j + 1 then g - q + 1 else g - q, if t == j + 1 then 0 else t;
      && (r0 < 0 || nOrig < p || r0 >= p ==> if r0 < 0 then RoomAt(r0, k, s, p) >= u else RoomAt(r0, k, s, p) == u)
      && (nOrig > p && 0 <= r0 < p ==> RoomAt(r0 - 1, g - q, t - 1, p) == u)
  {
    if q >= 2 {
      Monotone(2, q, j + 1);
    }
  }

  /** The first assignment has the right room, or one page too many if the pending byte was crossed. */
  lemma FirstGuess(b: Layout, nOrig: nat, nFree: nat, r: int)
    requires b.Valid() && Useful(b, nOrig) && nOrig >= 2 && r == Guess(b, nOrig, nFree)
    ensures if r > -1 then Room(b, r) == Room(b, nOrig) - nFree else Room(b, r) >= Room(b, nOrig) - nFree
  {
    var g, q, t, m, shift := Landing(b, nOrig, nFree);
    var j, r0 := b.Entries(), nOrig - nFree - q;
    hide Layout.Entries, PtrmapPageno, Room, RoomAt, IsMap, Used;
    RoomIs(b, nOrig, g, m);
    Distributes(g, q, j + 1);
    Crossing(nOrig, nFree, r0, g, q, t, m, shift, j, b.pending, g * (j + 1), (g - q) * (j + 1));
    Distributes(g - q, -1, j + 1);
    var back := nOrig > b.pending && 0 <= r0 < b.pending;
    var k := if !back && t == j + 1 then g - q + 1 else g - q;
    var s: nat := if back then t - 1 else if t == j + 1 then 0 else t;
    RoomIs(b, r, k, s);
  }

  /** The guess has room for exactly the pages that stay. */
  lemma GuessIsRight(b: Layout, nOrig: nat, nFree: nat)
    requires b.Valid() && Useful(b, nOrig)
    ensures var r := Guess(b, nOrig, nFree);
      if r > 0 then Room(b, r) == Used(b, nOrig) - nFree else nFree >= Used(b, nOrig)
  {
    hide Room, Guess, Used;
    var r := Guess(b, nOrig, nFree);
    if nOrig == 1 {
      GuessForOne(b, nFree);
    } else {
      UsedIsRoom(b, nOrig);
      FirstGuess(b, nOrig, nFree, r);
      if r <= 0 {
        NoRoomBelow(b, r);
      }
    }
  }

  lemma GuessForOne(b: Layout, nFree: nat)
    requires b.Valid()
    ensures if nFree == 0 then Guess(b, 1, 0) == 1 && Room(b, 1) == Used(b, 1)
            else Guess(b, 1, nFree) <= 0 && Used(b, 1) <= 1
  {
    var j := b.Entries();
    hide Layout.Entries, Room;
    UsedIsRoom(b, 1);
    var q, r := Divide(nFree - 1 + j, j);
    if nFree == 0 { Quotient(j - 1, j, 0, j - 1); } else { Monotone(q, 0, j); }
  }

  lemma {:induction false} UsedPositive(b: Layout, n: nat)
    requires b.Valid() && n > 0
    ensures Used(b, n) > 0
  {
    if n > 1 {
      UsedPositive(b, n - 1);
    } else {
      assert Used(b, 1) == Used(b, 0) + 1;
    }
  }

  lemma SmallQuotient(x: nat, j: nat, q: nat, r: nat)
    requires x == q * j + r && j >= 96
    ensures 96 * q <= x
  {
    Monotone(96, j, q);
  }

  /** No overflow of 32 bits spoils the first two assignments. */
  lemma NoOverflow(b: Layout, nOrig: nat, nFree: nat)
    requires b.Valid() && Useful(b, nOrig) && nOrig < HALF && nFree < HALF
    ensures var x := nFree - nOrig + PtrmapPageno(b, nOrig) + b.Entries();
      0 <= x < U32 && nFree + x / b.Entries() < U32 - 0x4000_0000
  {
    var j := b.Entries();
    var x: int;
    if nOrig == 1 {
      x := nFree - 1 + j;
    } else {
      var g, q, t, m, shift := Landing(b, nOrig, nFree);
      hide Layout.Entries;
      Quotient(nOrig - 2, j + 1, g, m);
      MapOf(b, nOrig, g, m);
      x := nFree - m + shift + j;
    }
    hide Layout.Entries, PtrmapPageno;
    var q, r := Divide(x, j);
    SmallQuotient(x, j, q, r);
  }

  /** Behind the first pages no two pointer-map pages follow each other. */
  lemma NoTwoMaps(b: Layout, n: nat)
    requires b.Valid() && n > b.pending + 1 && IsMap(b, n)
    ensures !IsMap(b, n - 1)
  {
    var j := b.Entries();
    var g, m := Divide(n - 2, j + 1);
    MapOf(b, n, g, m);
    hide Layout.Entries, PtrmapPageno;
    Distributes(g, 1, j + 1);
    Quotient(n - 3, j + 1, g - 1, j);
    MapOf(b, n - 1, g - 1, j);
  }

  // ---- in 32 bits

  /** nPtrmap, in 32 bits. */
  function MapsFreed(b: Layout, nOrig: nat, nFree: nat): nat
    requires b.Valid()
  {
    Per(Wrap(nFree - nOrig + PtrmapPageno(b, nOrig) + b.Entries()), b.Entries())
  }

  function Per(x: nat, j: nat): nat
    requires j > 0
  {
    x / j
  }

  /** nFin before the last loop, in 32 bits. */
  function Guess32(b: Layout, nOrig: nat, nFree: nat): nat
    requires b.Valid()
  {
    var r := Wrap(nOrig - nFree - MapsFreed(b, nOrig, nFree));
    if nOrig > b.pending && r < b.pending then Wrap(r - 1) else r
  }

  /**
    A free count for which the subtraction of the pages to be freed passes 0 and comes back from the other
    end, to a page that is not behind the last page of data: over is how far 2^32 is exceeded.
   */
  predicate Slips(b: Layout, nOrig: nat, nFree: nat)
    requires b.Valid()
  {
    var over := nFree + MapsFreed(b, nOrig, nFree) - U32;
    if over >= 0 then over + (if nOrig > b.pending then 1 else 0) < nOrig
    else !Useful(b, nOrig + 1) && (over == -1 || (over == -2 && !Useful(b, nOrig + 2)))
  }

  /** For free counts that a database can have, 32 bits are enough. */
  lemma Guess32IsGuess(b: Layout, nOrig: nat, nFree: nat)
    requires b.Valid() && Useful(b, nOrig) && nOrig < HALF && nFree < HALF
    ensures Guess(b, nOrig, nFree) <= nOrig && !Slips(b, nOrig, nFree)
    ensures var f := Guess32(b, nOrig, nFree);
      if Guess(b, nOrig, nFree) > 0 then f == Guess(b, nOrig, nFree) else f == 0 || f > nOrig + 2
  {
    hide PtrmapPageno, Useful, Wrap, Per;
    NoOverflow(b, nOrig, nFree);
    PerIs(b, nOrig, nFree);
    hide Layout.Entries, MapsFreed;
    var q := MapsFreed(b, nOrig, nFree);
    WrapSmall(nOrig - nFree - q);
    WrapSmall(nOrig - nFree - q - 1);
  }

  lemma PerIs(b: Layout, nOrig: nat, nFree: nat)
    requires b.Valid() && 0 <= nFree - nOrig + PtrmapPageno(b, nOrig) + b.Entries() < U32
    ensures MapsFreed(b, nOrig, nFree) == (nFree - nOrig + PtrmapPageno(b, nOrig) + b.Entries()) / b.Entries()
  {
    hide PtrmapPageno, Layout.Entries, Wrap;
    WrapSmall(nFree - nOrig + PtrmapPageno(b, nOrig) + b.Entries());
  }

  /** Of three pages in a row one holds data. */
  lemma NoThreeIdle(b: Layout, n: nat)
    requires b.Valid() && n > 0
    ensures Useful(b, n + 1) || Useful(b, n + 2) || Useful(b, n + 3)
  {
    MapPlace(b, n + 1);
    MapPlace(b, n + 2);
    MapPlace(b, n + 3);
    var d := b.Entries() + 1;
    hide IsMap, Layout.Entries;
    Near(n - 2, d);
    Near(n - 1, d);
    Near(n, d);
  }

  /** Numbers a step or two apart are not both divisible. */
  lemma Near(x: int, d: nat)
    requires d > 2
    ensures x % d == 0 ==> (x + 1) % d != 0 && (x + 2) % d != 0
  {
    var q, r := Divide(x, d);
    if r == 0 {
      Quotient(x + 1, d, q, 1);
      Quotient(x + 2, d, q, 2);
    }
  }

  lemma UsedAhead(b: Layout, n: nat, f: nat)
    requires b.Valid() && n > 0 && f >= n + 3
    ensures Used(b, f) > Used(b, n)
  {
    NoThreeIdle(b, n);
    UsedGrows(b, n + 3, f);
    UsedThree(b, n);
  }

  lemma UsedThree(b: Layout, n: nat)
    ensures Used(b, n + 1) == Used(b, n) + if Useful(b, n + 1) then 1 else 0
    ensures Used(b, n + 2) == Used(b, n + 1) + if Useful(b, n + 2) then 1 else 0
    ensures Used(b, n + 3) == Used(b, n + 2) + if Useful(b, n + 3) then 1 else 0
  {
    hide Useful;
  }

  /** Larger free counts: whether the value before the loop is behind the last page of data. */
  lemma HugeCount(b: Layout, nOrig: nat, nFree: nat)
    requires b.Valid() && 0 < nOrig < HALF <= nFree < U32
    ensures var f := Guess32(b, nOrig, nFree); 0 < f && Used(b, f) <= Used(b, nOrig) <==> Slips(b, nOrig, nFree)
  {
    hide MapsFreed, Used, Useful, Wrap;
    var f, q := Guess32(b, nOrig, nFree), MapsFreed(b, nOrig, nFree);
    QuotientBelow(b, nOrig, nFree);
    var over: int := nFree + q - U32;
    var g: int := Wrap(nOrig - nFree - q);
    WrapSmall(nOrig - over);
    Turned(nOrig - nFree - q);
    assert g == if over <= nOrig then nOrig - over else nOrig - over + U32;
    WrapSmall(g - 1);
    hide Guess32;
    Compare(b, nOrig, f);
  }

  /** Used grows with every page of data, and two pages in a row are the most without any. */
  lemma Compare(b: Layout, n: nat, f: nat)
    requires b.Valid() && n > 0
    ensures Used(b, f) <= Used(b, n) <==>
      f <= n || (!Useful(b, n + 1) && (f == n + 1 || (f == n + 2 && !Useful(b, n + 2))))
  {
    hide Used, Useful;
    UsedThree(b, n);
    if f >= n + 3 { UsedAhead(b, n, f); }
    if f <= n { UsedGrows(b, f, n); }
  }

  lemma Turned(x: int)
    ensures Wrap(x + U32) == Wrap(x)
  {
  }

  lemma QuotientBelow(b: Layout, nOrig: nat, nFree: nat)
    requires b.Valid()
    ensures 96 * MapsFreed(b, nOrig, nFree) < U32
  {
    hide Layout.Entries, PtrmapPageno;
    var x := Wrap(nFree - nOrig + PtrmapPageno(b, nOrig) + b.Entries());
    var q, r := Divide(x, b.Entries());
    SmallQuotient(x, b.Entries(), q, r);
  }

  /** What the value before the loop says, for every free count, and when the test of the callers fails. */
  lemma TestIs(b: Layout, nOrig: nat, nFree: nat)
    requires b.Valid() && Useful(b, nOrig) && nOrig < HALF && nFree < U32
    ensures var f := Guess32(b, nOrig, nFree);
      && (0 < f && Used(b, f) <= Used(b, nOrig) <==> nFree < Used(b, nOrig) || Slips(b, nOrig, nFree))
      && (nFree < Used(b, nOrig) ==> Used(b, f) == Used(b, nOrig) - nFree && !Slips(b, nOrig, nFree))
  {
    UsedAtMost(b, nOrig);
    if nFree < HALF {
      Guess32IsGuess(b, nOrig, nFree);
      GuessIsRight(b, nOrig, nFree);
      var f := Guess32(b, nOrig, nFree);
      hide Guess, Guess32, Slips, Room, Useful, Used;
      if f > 0 { UsedPositive(b, f); }
      UsedIsRoom(b, f);
      if f > nOrig + 2 { UsedAhead(b, nOrig, f); }
    } else {
      HugeCount(b, nOrig, nFree);
    }
  }

  lemma {:induction false} UsedAtMost(b: Layout, n: nat)
    ensures Used(b, n) <= n
  {
    if n > 0 { UsedAtMost(b, n - 1); }
  }

  /**
    The size after a vacuum of a database of nOrig pages, whatever the header gives as the number nFree of free
    pages.  The result exceeds nOrig, which the callers take for corruption, if there are not that many pages to
    free, unless the count slips through.  Otherwise it is the last page that holds data when just the free pages
    are gone.
   */
  method FinalDbSize(b: Layout, nOrig: nat, nFree: nat) returns (nFin: nat)
    requires b.Valid() && Useful(b, nOrig) && nOrig < HALF && nFree < U32
    ensures nFin <= nOrig <==> nFree < Used(b, nOrig) || Slips(b, nOrig, nFree)
    ensures nFree < Used(b, nOrig) ==> !Slips(b, nOrig, nFree) && Used(b, nFin) == Used(b, nOrig) - nFree
    ensures nFin <= nOrig ==> Useful(b, nFin) && Used(b, nFin) == Used(b, Guess32(b, nOrig, nFree))
  {
    hide Layout.Entries, PtrmapPageno, IsMap, Used, Slips, MapsFreed;
    TestIs(b, nOrig, nFree);
    ghost var f := Guess32(b, nOrig, nFree);
    var nPtrmap := CountMaps(b, nOrig, nFree);
    nFin := Wrap(nOrig - nFree - nPtrmap);
    if nOrig > b.pending && nFin < b.pending {
      nFin := Wrap(nFin - 1);
    }
    MapOfZero(b);
    while IsMap(b, nFin) || nFin == b.pending
      invariant nFin < U32 && (f > 0 ==> 0 < nFin <= f && Used(b, nFin) == Used(b, f))
      invariant f == 0 ==>
        || nFin == 0 || (nFin > b.pending + 2 && nFin > nOrig + 1)
        || (nFin > b.pending + 1 && nFin > nOrig && !IsMap(b, nFin))
      decreases if nFin == 0 then U32 else nFin
    {
      if f > 0 {
        UsedStep(b, nFin);
      } else if nFin > 0 {
        NoTwoMaps(b, nFin);
      }
      WrapSmall(nFin - 1);
      nFin := Wrap(nFin - 1);
    }
    if nFin <= nOrig { UsedGrows(b, nFin, nOrig); } else { UsedGrows(b, nOrig, nFin); }
  }

  /** nPtrmap: the sums are those of unsigned 32-bit numbers. */
  method CountMaps(b: Layout, nOrig: nat, nFree: nat) returns (nPtrmap: nat)
    requires b.Valid()
    ensures nPtrmap == MapsFreed(b, nOrig, nFree)
  {
    var nEntry := b.Entries();
    hide Layout.Entries, PtrmapPageno;
    nPtrmap := Per(Wrap(nFree - nOrig + PtrmapPageno(b, nOrig) + nEntry), nEntry);
  }

  lemma WrapSmall(x: int)
    requires -U32 <= x < U32
    ensures Wrap(x) == if x < 0 then x + U32 else x
  {
  }

  lemma MapOfZero(b: Layout)
    ensures IsMap(b, 0)
  {
  }

  lemma UsedStep(b: Layout, n: nat)
    requires b.Valid() && n > 0 && !Useful(b, n)
    ensures n > 1 && Used(b, n - 1) == Used(b, n)
  {
  }

  lemma {:induction false} UsedGrows(b: Layout, m: nat, n: nat)
    requires m <= n
    ensures Used(b, m) <= Used(b, n)
    ensures m < n && Useful(b, n) ==> Used(b, m) < Used(b, n)
  {
    if m < n {
      UsedGrows(b, m, n - 1);
    }
  }

  /** There is no spare page: no other size that ends with a page of data has room for the same number. */
  lemma SizeIsUnique(b: Layout, m: nat, n: nat)
    requires Useful(b, m) && Useful(b, n) && Used(b, m) == Used(b, n)
    ensures m == n
  {
    if m < n { UsedGrows(b, m, n); } else { UsedGrows(b, n, m); }
  }

  /**
    Two free counts that slip through: 10000000 less than 2^32, which comes back in the middle of the database,
    and the largest, for a database that ends right before the page of the pending byte.
   */
  lemma HugeFreeCountEscapes()
    ensures var b := Layout(480, 0x20_0001);
      Useful(b, 1940000007) && Used(b, 1940000007) <= U32 - 10000000 && Slips(b, 1940000007, U32 - 10000000)
    ensures var b := Layout(480, 0x20_0001);
      Useful(b, 0x20_0000) && Used(b, 0x20_0000) <= U32 - 1 && Slips(b, 0x20_0000, U32 - 1)
  {
    hide Used;
    UsedAtMost(Layout(480, 0x20_0001), 1940000007);
    UsedAtMost(Layout(480, 0x20_0001), 0x20_0000);
  }
}
