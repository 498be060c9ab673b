/**
  Two databases of different page sizes, byte by byte.  Page i of a database with pages of s bytes holds the
  bytes from (i - 1) * s on.
 */
module BackupBytes {

  import opened Basics
  import opened PageSpace
  import opened OverflowChain

  const PENDING_BYTE := 0x4000_0000

  predicate PageSize(n: nat) {
    n == 512 || n == 1024 || n == 2048 || n == 4096 || n == 8192 || n == 16384 || n == 32768 || n == 65536
  }

  function Start(i: int, s: nat): int { (i - 1) * s }

  function PageNo(off: nat, d: nat): nat
    requires d > 0
  {
    off / d + 1
  }

  function Place(off: nat, d: nat): (p: nat)
    requires d > 0
    ensures p < d
  {
    off % d
  }

  function PendingPage(n: nat): nat
    requires n > 0
  {
    PENDING_BYTE / n + 1
  }

  /** Powers of two divide one another. */
  lemma SizesDivide(s: nat, d: nat)
    requires PageSize(s) && PageSize(d)
    ensures s % Min(s, d) == 0 && d % Min(s, d) == 0 && PENDING_BYTE % s == 0
  {
  }

  lemma Located(off: nat, d: nat)
    requires d > 0
    ensures off == Start(PageNo(off, d), d) + Place(off, d)
  {
    assert off == off / d * d + off % d;
  }

  lemma LocatedAt(p: nat, k: nat, d: nat)
    requires p > 0 && k < d
    ensures Start(p, d) >= 0 && PageNo(Start(p, d) + k, d) == p && Place(Start(p, d) + k, d) == k
  {
    Quotient((p - 1) * d + k, d, p - 1, k);
  }

  lemma StartOrder(i: int, j: int, s: nat)
    ensures i < j ==> Start(i, s) + s <= Start(j, s)
    ensures Start(i + 1, s) == Start(i, s) + s && Start(1, s) == 0
  {
    Monotone(i, j - 1, s);
    Distributes(i, 1, s);
  }

  // ---- the destination: a page that is not there yet is a page of zeros

  type Dest = map<nat, seq<byte>>

  ghost predicate Sized(dest: Dest, d: nat) {
    forall p :: p in dest ==> p > 0 && |dest[p]| == d
  }

  function PageOf(dest: Dest, d: nat, p: nat): seq<byte> {
    if p in dest then dest[p] else seq(d, k => 0)
  }

  /** The byte at an offset, or -1 if its page is not there. */
  function Byte(dest: Dest, d: nat, off: nat): (b: int)
    requires d > 0
  {
    var p := PageNo(off, d);
    if p in dest && Place(off, d) < |dest[p]| then dest[p][Place(off, d)] else -1
  }

  function Put(dest: Dest, d: nat, off: nat, c: seq<byte>): Dest
    requires d > 0 && Sized(dest, d) && Place(off, d) + |c| <= d
  {
    var p := PageNo(off, d);
    dest[p := Patch(PageOf(dest, d, p), Place(off, d), c)]
  }

  lemma SamePage(x: nat, n: nat, y: nat, d: nat)
    requires d > 0 && Place(x, d) + n <= d
    ensures x <= y < x + n ==> PageNo(y, d) == PageNo(x, d) && Place(y, d) == Place(x, d) + (y - x)
    ensures PageNo(y, d) == PageNo(x, d) ==> Place(y, d) - Place(x, d) == y - x
  {
    Located(x, d);
    Located(y, d);
    if x <= y < x + n {
      LocatedAt(PageNo(x, d), Place(x, d) + (y - x), d);
    }
  }

  /** Writing a block that lies in one page. */
  lemma PutByte(dest: Dest, d: nat, x: nat, c: seq<byte>, y: nat)
    requires d > 0 && Sized(dest, d) && Place(x, d) + |c| <= d
    ensures x <= y < x + |c| ==> Byte(Put(dest, d, x, c), d, y) == c[y - x]
    ensures !(x <= y < x + |c|) && Byte(dest, d, y) >= 0 ==> Byte(Put(dest, d, x, c), d, y) == Byte(dest, d, y)
  {
    SamePage(x, |c|, y, d);
    hide PageNo, Place, Patch;
    if PageNo(y, d) == PageNo(x, d) {
      PatchAt(PageOf(dest, d, PageNo(x, d)), Place(x, d), c, Place(y, d));
    }
  }

  lemma PutSized(dest: Dest, d: nat, x: nat, c: seq<byte>)
    requires d > 0 && Sized(dest, d) && Place(x, d) + |c| <= d
    ensures Sized(Put(dest, d, x, c), d) && Put(dest, d, x, c).Keys == dest.Keys + {PageNo(x, d)}
  {
  }

  // ---- a block of the smaller of the two page sizes lies in one page of either database

  lemma Multiples(a: nat, m: nat, b: nat, n: nat)
    requires n > 0
    ensures (a * (m * n) + b * n) % n == 0
  {
    Quotient(a * (m * n) + b * n, n, a * m + b, 0);
  }

  lemma AlignedIn(x: nat, n: nat, d: nat)
    requires n > 0 && d > 0 && x % n == 0 && d % n == 0
    ensures x % d + n <= d
  {
    var t, z := Divide(x, n);
    var m, w := Divide(d, n);
    var q, r := Divide(x, d);
    Fits(t, q, m, n, r);
  }

  lemma Fits(t: int, q: int, m: int, n: nat, r: int)
    requires t * n == q * (m * n) + r && r < m * n
    ensures r + n <= m * n
  {
    var e := t - q * m;
    assert r == e * n;
    Sign(e - m, n);
    Sign(m - e - 1, n);
  }

  lemma NextBlock(j: nat, n: nat, d: nat)
    requires n > 0 && d % n == 0 && j % n == 0
    ensures (j + d) % n == 0 && (j > 0 ==> j >= n)
  {
    var q, r := Divide(j, n);
    var m, w := Divide(d, n);
    Quotient(j + d, n, q + m, 0);
    Sign(q - 1, n);
  }

  lemma BlockInPage(i: nat, s: nat, d: nat, j: nat)
    requires PageSize(s) && PageSize(d) && i > 0 && j < s && j % Min(s, d) == 0
    ensures Start(i, s) >= 0 && Place(Start(i, s) + j, d) + Min(s, d) <= d && j + Min(s, d) <= s
    ensures (Start(i, s) + j) % s == j
  {
    var n := Min(s, d);
    SizesDivide(s, d);
    AlignedIn(j, n, s);
    Quotient(j, s, 0, j);
    assert s == s / n * n && j == j / n * n;
    Multiples(i - 1, s / n, j / n, n);
    Quotient((i - 1) * s + j, s, i - 1, j);
    AlignedIn((i - 1) * s + j, n, d);
  }

  // ---- the pages that hold the locking byte are not copied page by page

  predicate InPending(off: nat, d: nat)
    requires d > 0
  {
    PageNo(off, d) == PendingPage(d)
  }

  /** The bytes that backupOnePage sends; head: page 1 on its first copy gets the size of the source, n pages. */
  function Sent(i: nat, s: nat, data: seq<byte>, head: bool, n: nat, off: nat): byte
    requires |data| == s && Start(i, s) <= off < Start(i, s) + s
  {
    if head && 28 <= off < 32 then Bytes4(n)[off - 28] else data[off - Start(i, s)]
  }

  /** Source page i has been copied up to offset hi, and nothing else has changed. */
  ghost predicate PageCopied(was: Dest, now: Dest, s: nat, d: nat, i: nat, data: seq<byte>, head: bool, n: nat, hi: int)
    requires d > 0 && |data| == s && hi <= Start(i, s) + s
  {
    forall off: nat {:trigger Byte(now, d, off)} ::
      if Start(i, s) <= off < hi && !InPending(off, d) then Byte(now, d, off) == Sent(i, s, data, head, n, off)
      else Byte(was, d, off) >= 0 ==> Byte(now, d, off) == Byte(was, d, off)
  }

  /** A block in the destination's pending page is left out. */
  lemma BlockSkipped(was: Dest, now: Dest, s: nat, d: nat, i: nat, data: seq<byte>, head: bool, n: nat, x: nat, m: nat)
    requires d > 0 && |data| == s && x + m <= Start(i, s) + s && Place(x, d) + m <= d && InPending(x, d)
    requires PageCopied(was, now, s, d, i, data, head, n, x)
    ensures PageCopied(was, now, s, d, i, data, head, n, x + m)
  {
    hide PageNo, Place, Byte;
    forall off: nat | x <= off < x + m ensures InPending(off, d) {
      SamePage(x, m, off, d);
    }
  }

  /** What is written in one turn of the loop of backupOnePage. */
  function Block(data: seq<byte>, j: nat, m: nat, head: bool, n: nat): (c: seq<byte>)
    requires j + m <= |data| && m >= 32
    ensures |c| == m
  {
    if j == 0 && head then Patch(data[..m], 28, Bytes4(n)) else data[j..j + m]
  }

  /** Only the block at the start of the file can be the head. */
  lemma BlockHead(data: seq<byte>, i: nat, s: nat, j: nat, m: nat, update: bool, n: nat)
    requires i >= 1 && s > 0 && j + m <= |data| && m >= 32
    ensures Block(data, j, m, Start(i, s) + j == 0 && !update, n) == Block(data, j, m, i == 1 && !update, n)
  {
    StartOrder(1, i, s);
  }

  lemma BlockPut(was: Dest, now: Dest, s: nat, d: nat, i: nat, data: seq<byte>, head: bool, n: nat, x: nat, j: nat,
                 m: nat)
    requires d > 0 && |data| == s && x == Start(i, s) + j && j + m <= s && m >= 32 && Place(x, d) + m <= d
    requires !InPending(x, d)
    requires Sized(now, d) && (head ==> i == 1) && (j > 0 ==> j >= 32)
    requires PageCopied(was, now, s, d, i, data, head, n, x)
    ensures PageCopied(was, Put(now, d, x, Block(data, j, m, head, n)), s, d, i, data, head, n, x + m)
  {
    hide PageNo, Place, Byte, Put, Patch;
    var c := Block(data, j, m, head, n);
    forall off: nat {:trigger Byte(Put(now, d, x, c), d, off)} | true
      ensures if Start(i, s) <= off < x + m && !InPending(off, d)
        then Byte(Put(now, d, x, c), d, off) == Sent(i, s, data, head, n, off)
              else Byte(was, d, off) >= 0 ==> Byte(Put(now, d, x, c), d, off) == Byte(was, d, off)
    {
      SamePage(x, m, off, d);
      PutByte(now, d, x, c, off);
      if x <= off < x + m {
        BlockAt(s, i, data, head, n, x, j, m, off);
      }
    }
  }

  lemma BlockAt(s: nat, i: nat, data: seq<byte>, head: bool, n: nat, x: nat, j: nat, m: nat, off: nat)
    requires |data| == s && x == Start(i, s) + j && j + m <= s && m >= 32 && (j > 0 ==> j >= 32) && (head ==> i == 1)
    requires x <= off < x + m
    ensures Block(data, j, m, head, n)[off - x] == Sent(i, s, data, head, n, off)
  {
    hide Start;
    StartOrder(1, 1, s);
    if j == 0 && head {
      PatchAt(data[..m], 28, Bytes4(n), off - x);
    }
  }

  // ---- the source

  /** The fields of the header that a backup or its commit writes by itself. */
  predicate Rewritten(k: nat) {
    18 <= k < 20 || 24 <= k < 32 || 40 <= k < 44 || 92 <= k < 100
  }

  ghost predicate PageHere(data: seq<byte>, dest: Dest, s: nat, d: nat, i: nat)
    requires d > 0 && Start(i, s) >= 0
  {
    forall k :: 0 <= k < |data| && !InPending(Start(i, s) + k, d) && !(i == 1 && Rewritten(k)) ==>
      Byte(dest, d, Start(i, s) + k) == data[k]
  }

  /** The bytes of source page i are in the destination, but for those that are not copied page by page. */
  ghost predicate Here(src: seq<seq<byte>>, dest: Dest, s: nat, d: nat, i: nat)
    requires d > 0
  {
    && 1 <= i <= |src| && |src[i - 1]| == s && Start(i, s) >= 0 && PageHere(src[i - 1], dest, s, d, i)
  }

  /** The source pages before page next are in the destination. */
  ghost predicate Copied(src: seq<seq<byte>>, dest: Dest, s: nat, d: nat, next: nat)
    requires s > 0 && d > 0
  {
    forall i :: 1 <= i < next && i <= |src| && i != PendingPage(s) ==> Here(src, dest, s, d, i)
  }

  /** Page i may be new; the others are as they were. */
  ghost predicate SameBut(src: seq<seq<byte>>, now: seq<seq<byte>>, i: nat) {
    forall j :: 0 <= j < |now| && j != i - 1 ==> j < |src| && now[j] == src[j]
  }

  /** One page is written anew, the others stay. */
  lemma CopyAdds(src: seq<seq<byte>>, now: seq<seq<byte>>, was: Dest, dest: Dest, s: nat, d: nat, next: nat, i: nat,
                 head: bool, n: nat)
    requires d > 0 && s > 0 && 1 <= i <= |now| && |now[i - 1]| == s && (head ==> i == 1)
    requires SameBut(src, now, i)
    requires Copied(src, was, s, d, next) && PageCopied(was, dest, s, d, i, now[i - 1], head, n, Start(i, s) + s)
    ensures Copied(now, dest, s, d, if i == next then next + 1 else next)
  {
    hide InPending, Byte, Sent, Bytes4;
    forall j | 1 <= j < (if i == next then next + 1 else next) && j <= |now| && j != PendingPage(s)
      ensures Here(now, dest, s, d, j)
    {
      if j == i {
        StartOrder(1, i, s);
        PageLands(now, was, dest, s, d, i, head, n);
      } else {
        assert Here(src, was, s, d, j) && now[j - 1] == src[j - 1];
        StartOrder(i, j, s);
        StartOrder(j, i, s);
        OtherStays(src, now, was, dest, s, d, i, j, head, n);
      }
    }
  }

  lemma PageLands(now: seq<seq<byte>>, was: Dest, dest: Dest, s: nat, d: nat, i: nat, head: bool, n: nat)
    requires d > 0 && 1 <= i <= |now| && |now[i - 1]| == s && (head ==> i == 1) && Start(i, s) >= 0
    requires PageCopied(was, dest, s, d, i, now[i - 1], head, n, Start(i, s) + s)
    ensures Here(now, dest, s, d, i)
  {
    hide InPending, Byte, Bytes4, Start;
    StartOrder(1, 1, s);
  }

  lemma OtherStays(src: seq<seq<byte>>, now: seq<seq<byte>>, was: Dest, dest: Dest, s: nat, d: nat, i: nat, j: nat,
                   head: bool, n: nat)
    requires d > 0 && 1 <= i <= |now| && |now[i - 1]| == s && 1 <= j <= |now| && j <= |src| && now[j - 1] == src[j - 1]
    requires Start(j, s) >= 0 && (Start(j, s) + s <= Start(i, s) || Start(i, s) + s <= Start(j, s))
    requires PageCopied(was, dest, s, d, i, now[i - 1], head, n, Start(i, s) + s) && Here(src, was, s, d, j)
    ensures Here(now, dest, s, d, j)
  {
    hide InPending, Byte, Sent, Start;
  }

  /** A source that has fewer pages, or whose pending page is new, needs nothing. */
  lemma CopiedStays(src: seq<seq<byte>>, now: seq<seq<byte>>, dest: Dest, s: nat, d: nat, next: nat)
    requires s > 0 && d > 0 && Copied(src, dest, s, d, next)
    requires forall j :: 0 <= j < |now| && j + 1 != PendingPage(s) ==> j < |src| && now[j] == src[j]
    ensures Copied(now, dest, s, d, next)
  {
    hide InPending, Byte, PendingPage;
    forall i | 1 <= i < next && i <= |now| && i != PendingPage(s)
      ensures Here(now, dest, s, d, i)
    {
      var j := i - 1;
      assert j + 1 != PendingPage(s);
      assert now[j] == now[i - 1] && j < |src|;
      assert now[i - 1] == src[i - 1];
      assert Here(src, dest, s, d, i);
    }
  }

  lemma HeaderPut(src: seq<seq<byte>>, dest: Dest, s: nat, d: nat, next: nat, at: nat, c: seq<byte>)
    requires s > 100 && d > 100 && Sized(dest, d) && at + |c| <= 100 && forall k :: at <= k < at + |c| ==> Rewritten(k)
    requires Copied(src, dest, s, d, next)
    ensures Place(at, d) + |c| <= d && Copied(src, Put(dest, d, at, c), s, d, next)
  {
    hide InPending, Byte, PendingPage, Put, Start;
    Quotient(at, d, 0, at);
    forall i | 1 <= i < next && i <= |src| && i != PendingPage(s)
      ensures Here(src, Put(dest, d, at, c), s, d, i)
    {
      assert Here(src, dest, s, d, i);
      StartOrder(1, i, s);
      var data := src[i - 1];
      forall k | 0 <= k < s && !InPending(Start(i, s) + k, d) && !(i == 1 && Rewritten(k))
        ensures Byte(Put(dest, d, at, c), d, Start(i, s) + k) == data[k]
      {
        assert Byte(dest, d, Start(i, s) + k) == data[k];
        PutByte(dest, d, at, c, Start(i, s) + k);
      }
    }
  }

  /** Offset PENDING_BYTE is where the pending page begins, whatever the page size. */
  lemma PendingStart(s: nat)
    requires PageSize(s)
    ensures Start(PendingPage(s), s) == PENDING_BYTE && PendingPage(s) > 1
  {
    SizesDivide(s, s);
    var q, r := Divide(PENDING_BYTE, s);
  }

  lemma InPendingIs(off: nat, d: nat)
    requires PageSize(d)
    ensures InPending(off, d) <==> PENDING_BYTE <= off < PENDING_BYTE + d
  {
    Located(off, d);
    PendingStart(d);
    hide PageNo, Place, PendingPage;
    var p := PendingPage(d);
    if PENDING_BYTE <= off < PENDING_BYTE + d {
      LocatedAt(p, off - PENDING_BYTE, d);
    }
  }

  /** A source page as large as the destination's, or larger, never meets the destination's pending page. */
  lemma NeverPending(i: nat, s: nat, d: nat, k: nat)
    requires PageSize(s) && PageSize(d) && d <= s && i >= 1 && i != PendingPage(s) && k < s && Start(i, s) >= 0
    ensures !InPending(Start(i, s) + k, d)
  {
    hide PendingPage, Start, InPending;
    InPendingIs(Start(i, s) + k, d);
    PendingStart(s);
    StartOrder(i, PendingPage(s), s);
    StartOrder(PendingPage(s), i, s);
  }

  /** A smaller source page lies in it altogether or not at all. */
  lemma AllPending(i: nat, s: nat, d: nat, k: nat)
    requires PageSize(s) && PageSize(d) && s < d && i >= 1 && k < s && Start(i, s) >= 0
    ensures InPending(Start(i, s) + k, d) <==> InPending(Start(i, s), d)
  {
    hide Place;
    SizesDivide(s, d);
    Quotient(0, s, 0, 0);
    BlockInPage(i, s, d, 0);
    SamePage(Start(i, s), s, Start(i, s) + k, d);
  }
}
