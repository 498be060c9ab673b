/**
  The file that a backup leaves: the image of the destination's pages, and behind it the source pages that
  lie in the destination's pending page.
 */
module BackupFile {

  import opened Basics
  import opened PageSpace
  import opened OverflowChain
  import opened BackupBytes

  predicate HasByte(file: seq<byte>, x: nat, b: byte) {
    x < |file| && file[x] == b
  }

  /** The bytes of source page i are in the file. */
  ghost predicate PageIn(data: seq<byte>, file: seq<byte>, s: nat, i: nat)
    requires Start(i, s) >= 0
  {
    forall k :: 0 <= k < |data| && !(i == 1 && Rewritten(k)) ==> HasByte(file, Start(i, s) + k, data[k])
  }

  /** The file is a copy of the source but for the pending page and the rewritten fields. */
  ghost predicate Matches(src: seq<seq<byte>>, file: seq<byte>, s: nat)
    requires s > 0
  {
    forall i :: 1 <= i <= |src| && i != PendingPage(s) ==> InFile(src, file, s, i)
  }

  ghost predicate InFile(src: seq<seq<byte>>, file: seq<byte>, s: nat, i: nat) {
    && 1 <= i <= |src| && |src[i - 1]| == s && Start(i, s) >= 0 && PageIn(src[i - 1], file, s, i)
  }

  /** What a commit writes: all pages of the image, one after the other. */
  function Image(dest: Dest, d: nat, n: nat): (f: seq<byte>)
    requires d > 0
    ensures |f| == n * d
  {
    seq(n * d, off requires off >= 0 => ByteOr0(dest, d, off))
  }

  function ByteOr0(dest: Dest, d: nat, off: nat): byte
    requires d > 0
  {
    if Byte(dest, d, off) >= 0 then Byte(dest, d, off) else 0
  }

  lemma ImageHolds(dest: Dest, d: nat, n: nat, off: nat)
    requires d > 0 && Byte(dest, d, off) >= 0 && (off < n * d || forall p :: p in dest ==> p <= n)
    ensures off < n * d && Image(dest, d, n)[off] == Byte(dest, d, off)
  {
    Located(off, d);
    var p := PageNo(off, d);
    StartOrder(p, n + 1, d);
    assert Start(n + 1, d) == n * d;
  }

  /** Where the source page ends, the file goes on. */
  lemma PageEnds(i: nat, n: nat, s: nat)
    ensures i <= n ==> Start(i, s) + s <= n * s
  {
    StartOrder(i, n + 1, s);
  }

  lemma WholePages(n: nat, s: nat, d: nat)
    requires PageSize(s) && PageSize(d) && d <= s
    ensures n * (s / d) * d == n * s
  {
    SizesDivide(s, d);
    assert s / d * d == s;
    assert n * (s / d) * d == n * (s / d * d);
  }

  /** The pages of the destination are no larger: the image is the whole file. */
  lemma LargerMatches(src: seq<seq<byte>>, dest: Dest, s: nat, d: nat, next: nat)
    requires PageSize(s) && PageSize(d) && d <= s && Copied(src, dest, s, d, next) && next > |src|
    ensures Matches(src, Image(dest, d, |src| * (s / d)), s)
  {
    hide InPending, Byte, PendingPage, Start, Image, Rewritten;
    var n := |src| * (s / d);
    WholePages(|src|, s, d);
    var file := Image(dest, d, n);
    forall i | 1 <= i <= |src| && i != PendingPage(s)
      ensures InFile(src, file, s, i)
    {
      assert Here(src, dest, s, d, i);
      var data := src[i - 1];
      PageEnds(i, |src|, s);
      forall k | 0 <= k < |data| && !(i == 1 && Rewritten(k))
        ensures HasByte(file, Start(i, s) + k, data[k])
      {
        NeverPending(i, s, d, k);
        assert Byte(dest, d, Start(i, s) + k) == data[k];
        ImageHolds(dest, d, n, Start(i, s) + k);
      }
    }
  }

  // ---- a destination with larger pages: what lies in its pending page is written to the file itself

  predicate Tail(i: nat, s: nat, d: nat)
    requires d > 0
  {
    Start(i, s) >= 0 && InPending(Start(i, s), d)
  }

  /** The source pages that are in the file once the tail is written up to offset x. */
  ghost predicate FileUpTo(src: seq<seq<byte>>, file: seq<byte>, s: nat, d: nat, x: int)
    requires s > 0 && d > 0
  {
    forall i :: 1 <= i <= |src| && i != PendingPage(s) && (Tail(i, s, d) ==> Start(i, s) < x) ==>
      InFile(src, file, s, i)
  }

  lemma TailBegins(src: seq<seq<byte>>, dest: Dest, s: nat, d: nat, next: nat, n: nat)
    requires PageSize(s) && PageSize(d) && s < d && Copied(src, dest, s, d, next) && next > |src|
    requires forall p :: p in dest ==> p <= n
    ensures FileUpTo(src, Image(dest, d, n), s, d, PENDING_BYTE + s)
  {
    hide InPending, Byte, PendingPage, Start, Image, Rewritten;
    var file := Image(dest, d, n);
    forall i | 1 <= i <= |src| && i != PendingPage(s) && (Tail(i, s, d) ==> Start(i, s) < PENDING_BYTE + s)
      ensures InFile(src, file, s, i)
    {
      assert Here(src, dest, s, d, i);
      NotInTail(i, s, d);
      var data := src[i - 1];
      forall k | 0 <= k < |data| && !(i == 1 && Rewritten(k))
        ensures HasByte(file, Start(i, s) + k, data[k])
      {
        AllPending(i, s, d, k);
        assert Byte(dest, d, Start(i, s) + k) == data[k];
        ImageHolds(dest, d, n, Start(i, s) + k);
      }
    }
  }

  /** The first page of the tail is the one behind the source's own pending page. */
  lemma NotInTail(i: nat, s: nat, d: nat)
    requires PageSize(s) && PageSize(d) && i >= 1 && i != PendingPage(s) && Start(i, s) >= 0
    ensures Tail(i, s, d) ==> PENDING_BYTE + s <= Start(i, s) < PENDING_BYTE + d
  {
    hide InPending, PendingPage, Start;
    InPendingIs(Start(i, s), d);
    PendingStart(s);
    StartOrder(i, PendingPage(s), s);
    StartOrder(PendingPage(s), i, s);
  }

  /** sqlite3OsWrite */
  function WriteAt(file: seq<byte>, off: nat, c: seq<byte>): (r: seq<byte>)
    ensures |r| >= |file|
  {
    if off + |c| <= |file| then Patch(file, off, c)
    else if off <= |file| then file[..off] + c
    else file + seq(off - |file|, k => 0) + c
  }

  lemma WriteAtByte(file: seq<byte>, off: nat, c: seq<byte>, x: nat)
    ensures off <= x < off + |c| ==> x < |WriteAt(file, off, c)| && WriteAt(file, off, c)[x] == c[x - off]
    ensures x < |file| && !(off <= x < off + |c|) ==> x < |WriteAt(file, off, c)| && WriteAt(file, off, c)[x] == file[x]
  {
    if off + |c| <= |file| && x < |file| {
      PatchAt(file, off, c, x);
    }
  }

  lemma TailGrows(src: seq<seq<byte>>, file: seq<byte>, s: nat, d: nat, j: nat)
    requires PageSize(s) && PageSize(d) && FileUpTo(src, file, s, d, Start(j, s)) && Start(j, s) >= 0
    requires 1 <= j <= |src| && |src[j - 1]| == s
    ensures FileUpTo(src, WriteAt(file, Start(j, s), src[j - 1]), s, d, Start(j, s) + s)
  {
    hide InPending, PendingPage, Start, WriteAt, Rewritten, Tail;
    var x := Start(j, s);
    var now := WriteAt(file, x, src[j - 1]);
    forall i | 1 <= i <= |src| && i != PendingPage(s) && (Tail(i, s, d) ==> Start(i, s) < x + s)
      ensures InFile(src, now, s, i)
    {
      StartOrder(i, j, s);
      StartOrder(j, i, s);
      if i == j {
        PageWritten(src, file, s, j);
      } else {
        assert InFile(src, file, s, i);
        PageKept(src, file, s, i, x, src[j - 1]);
      }
    }
  }

  lemma PageWritten(src: seq<seq<byte>>, file: seq<byte>, s: nat, j: nat)
    requires 1 <= j <= |src| && |src[j - 1]| == s && Start(j, s) >= 0
    ensures InFile(src, WriteAt(file, Start(j, s), src[j - 1]), s, j)
  {
    hide WriteAt;
    var data := src[j - 1];
    var now := WriteAt(file, Start(j, s), data);
    forall k | 0 <= k < |data| && !(j == 1 && Rewritten(k))
      ensures HasByte(now, Start(j, s) + k, data[k])
    {
      WriteAtByte(file, Start(j, s), data, Start(j, s) + k);
    }
    assert PageIn(data, now, s, j);
  }

  lemma PageKept(src: seq<seq<byte>>, file: seq<byte>, s: nat, i: nat, x: nat, c: seq<byte>)
    requires InFile(src, file, s, i) && (Start(i, s) + s <= x || x + |c| <= Start(i, s))
    ensures InFile(src, WriteAt(file, x, c), s, i)
  {
    hide WriteAt;
    var data := src[i - 1];
    var now := WriteAt(file, x, c);
    assert PageIn(data, file, s, i);
    forall k | 0 <= k < |data| && !(i == 1 && Rewritten(k))
      ensures HasByte(now, Start(i, s) + k, data[k])
    {
      assert HasByte(file, Start(i, s) + k, data[k]);
      WriteAtByte(file, x, c, Start(i, s) + k);
    }
    assert PageIn(data, now, s, i);
  }

  /** backupTruncateFile */
  function Truncated(file: seq<byte>, n: nat): seq<byte> {
    if |file| > n then file[..n] else file
  }

  lemma TailEnds(src: seq<seq<byte>>, file: seq<byte>, s: nat, d: nat, x: int)
    requires PageSize(s) && PageSize(d) && FileUpTo(src, file, s, d, x) && (x >= PENDING_BYTE + d || x >= |src| * s)
    ensures Matches(src, Truncated(file, |src| * s), s)
  {
    hide InPending, PendingPage, Start, Rewritten, Tail;
    forall i | 1 <= i <= |src| && i != PendingPage(s)
      ensures InFile(src, Truncated(file, |src| * s), s, i)
    {
      StartOrder(1, i, s);
      NotInTail(i, s, d);
      PageEnds(i, |src|, s);
      assert InFile(src, file, s, i);
    }
  }

  // ---- the size

  /** Where the destination is cut, in its own pages. */
  function DestTruncate(n: nat, s: nat, d: nat): nat
    requires s > 0 && d > 0
  {
    if s < d then
      var t := (n + d / s - 1) / (d / s);
      if t == PendingPage(d) then t - 1 else t
    else n * (s / d)
  }

  /** The assertions about the size that are made before the file is cut. */
  lemma TruncateCovers(n: nat, s: nat, d: nat)
    requires PageSize(s) && PageSize(d) && n > 0
    ensures DestTruncate(n, s, d) > 0
    ensures DestTruncate(n, s, d) * d >= s * n
      || (DestTruncate(n, s, d) == PendingPage(d) - 1 && PENDING_BYTE <= s * n <= PENDING_BYTE + d)
  {
    if s < d {
      RoundedTruncate(n, s, d);
    } else {
      WholePages(n, s, d);
      Whole(n, s, d);
    }
  }

  lemma RoundedTruncate(n: nat, s: nat, d: nat)
    requires PageSize(s) && PageSize(d) && n > 0 && s < d
    ensures DestTruncate(n, s, d) > 0
    ensures DestTruncate(n, s, d) * d >= s * n
      || (DestTruncate(n, s, d) == PendingPage(d) - 1 && PENDING_BYTE <= s * n <= PENDING_BYTE + d)
  {
    SizesDivide(s, d);
    PendingStart(d);
    assert s > 0;
    hide PendingPage, Start, PageSize;
    var r, z := Divide(d, s);
    var t, m := Divide(n + r - 1, r);
    assert DestTruncate(n, s, d) == if t == PendingPage(d) then t - 1 else t;
    hide DestTruncate;
    RoundedUp(n, r, s, t, m);
    LastPage(n, s, d, r, t);
  }

  lemma LastPage(n: nat, s: nat, d: nat, r: int, t: int)
    requires d == r * s && t >= 1 && s * n <= t * (r * s) && t * (r * s) - r * s < s * n
    requires Start(PendingPage(d), d) == PENDING_BYTE
    ensures t * d >= s * n && (t == PendingPage(d) ==> (t - 1) * d == PENDING_BYTE <= s * n <= PENDING_BYTE + d)
  {
    assert (t - 1) * d == t * d - d;
  }

  lemma Whole(n: nat, s: nat, d: nat)
    requires 0 < d <= s && n > 0
    ensures n * (s / d) > 0
  {
    var q, r := Divide(s, d);
    Sign(-q, d);
    Sign(n - 1, q);
    assert n * q == (n - 1) * q + q;
  }

  lemma RoundedUp(n: nat, r: nat, s: nat, t: int, m: nat)
    requires n + r - 1 == t * r + m && m < r && n > 0 && s > 0
    ensures t >= 1 && s * n <= t * (r * s) && t * (r * s) - r * s < s * n
  {
    Sign(-t, r);
    var a := t * r;
    assert t * (r * s) == a * s;
    Sign(a - n, s);
    Sign(n - (a - r) - 1, s);
    assert (a - n) * s == a * s - n * s;
    assert (n - (a - r) - 1) * s == n * s - a * s + r * s - s;
  }

  // ---- a field of the header

  ghost predicate FieldIs(dest: Dest, d: nat, at: nat, c: seq<byte>)
    requires d > 0
  {
    forall k :: 0 <= k < |c| ==> Byte(dest, d, at + k) == c[k]
  }

  ghost predicate FileField(file: seq<byte>, at: nat, c: seq<byte>) {
    forall k :: 0 <= k < |c| ==> HasByte(file, at + k, c[k])
  }

  lemma FieldPut(dest: Dest, d: nat, at: nat, c: seq<byte>)
    requires d > 0 && Sized(dest, d) && Place(at, d) + |c| <= d
    ensures FieldIs(Put(dest, d, at, c), d, at, c)
  {
    hide Byte, Put;
    forall k | 0 <= k < |c| ensures Byte(Put(dest, d, at, c), d, at + k) == c[k] {
      PutByte(dest, d, at, c, at + k);
    }
  }

  lemma FieldStays(dest: Dest, d: nat, at: nat, c: seq<byte>, x: nat, b: seq<byte>)
    requires d > 0 && Sized(dest, d) && Place(x, d) + |b| <= d && FieldIs(dest, d, at, c)
    requires x + |b| <= at || at + |c| <= x
    ensures FieldIs(Put(dest, d, x, b), d, at, c)
  {
    hide Byte, Put;
    forall k | 0 <= k < |c| ensures Byte(Put(dest, d, x, b), d, at + k) == c[k] {
      assert Byte(dest, d, at + k) == c[k];
      PutByte(dest, d, x, b, at + k);
    }
  }

  lemma FieldFiled(dest: Dest, d: nat, n: nat, at: nat, c: seq<byte>)
    requires d > 0 && FieldIs(dest, d, at, c) && at + |c| <= 100 < d && n >= 1
    ensures FileField(Image(dest, d, n), at, c)
  {
    hide Byte, Image;
    PageEnds(1, n, d);
    StartOrder(1, 1, d);
    hide Start;
    forall k | 0 <= k < |c| ensures HasByte(Image(dest, d, n), at + k, c[k]) {
      assert Byte(dest, d, at + k) == c[k];
      ImageHolds(dest, d, n, at + k);
    }
  }

  lemma FieldKept(file: seq<byte>, at: nat, c: seq<byte>, x: nat, b: seq<byte>)
    requires FileField(file, at, c) && at + |c| <= x
    ensures FileField(WriteAt(file, x, b), at, c)
  {
    hide WriteAt;
    forall k | 0 <= k < |c| ensures HasByte(WriteAt(file, x, b), at + k, c[k]) {
      WriteAtByte(file, x, b, at + k);
    }
  }

  // ---- several fields

  /** Bytes at a place of the header. */
  datatype Field = Field(at: nat, c: seq<byte>)

  ghost predicate FieldsAre(dest: Dest, d: nat, fs: seq<Field>)
    requires d > 0
  {
    forall i :: 0 <= i < |fs| ==> FieldIs(dest, d, fs[i].at, fs[i].c)
  }

  ghost predicate FileFields(file: seq<byte>, fs: seq<Field>) {
    forall i :: 0 <= i < |fs| ==> FileField(file, fs[i].at, fs[i].c)
  }

  predicate InHeader(fs: seq<Field>) {
    forall i :: 0 <= i < |fs| ==> fs[i].at + |fs[i].c| <= 100
  }

  predicate ClearOf(fs: seq<Field>, at: nat, n: nat) {
    forall i :: 0 <= i < |fs| ==> fs[i].at + |fs[i].c| <= at || at + n <= fs[i].at
  }

  lemma FieldsPut(dest: Dest, d: nat, fs: seq<Field>, at: nat, c: seq<byte>)
    requires d > 0 && Sized(dest, d) && Place(at, d) + |c| <= d && FieldsAre(dest, d, fs) && ClearOf(fs, at, |c|)
    ensures FieldsAre(Put(dest, d, at, c), d, fs + [Field(at, c)])
  {
    hide FieldIs, Put, Place;
    FieldPut(dest, d, at, c);
    forall i | 0 <= i < |fs| ensures FieldIs(Put(dest, d, at, c), d, fs[i].at, fs[i].c) {
      FieldStays(dest, d, fs[i].at, fs[i].c, at, c);
    }
  }

  lemma FieldsFiled(dest: Dest, d: nat, n: nat, fs: seq<Field>)
    requires d > 100 && FieldsAre(dest, d, fs) && InHeader(fs) && n >= 1
    ensures FileFields(Image(dest, d, n), fs)
  {
    hide FieldIs, FileField, Image;
    forall i | 0 <= i < |fs| ensures FileField(Image(dest, d, n), fs[i].at, fs[i].c) {
      FieldFiled(dest, d, n, fs[i].at, fs[i].c);
    }
  }

  lemma FieldsKept(file: seq<byte>, fs: seq<Field>, x: nat, b: seq<byte>)
    requires FileFields(file, fs) && InHeader(fs) && 100 <= x
    ensures FileFields(WriteAt(file, x, b), fs)
  {
    hide FileField, WriteAt;
    forall i | 0 <= i < |fs| ensures FileField(WriteAt(file, x, b), fs[i].at, fs[i].c) {
      FieldKept(file, fs[i].at, fs[i].c, x, b);
    }
  }

  lemma FieldsCut(file: seq<byte>, fs: seq<Field>, n: nat)
    requires FileFields(file, fs) && InHeader(fs) && 100 <= n
    ensures FileFields(Truncated(file, n), fs)
  {
  }

  /** The header of a page that is all new, but for what a commit rewrites. */
  function NewFields(p: seq<byte>): (fs: seq<Field>)
    requires |p| >= 100
    ensures InHeader(fs)
  {
    [Field(0, p[..18]), Field(20, p[20..24]), Field(32, p[32..40]), Field(44, p[44..92])]
  }

  lemma NewFieldsAre(dest: Dest, d: nat, p: seq<byte>)
    requires d > 100 && |p| == d
    ensures FieldsAre(dest[1 := p], d, NewFields(p))
    ensures forall k :: 0 <= k < 100 && Rewritten(k) ==> ClearOf(NewFields(p), k, 1)
  {
    forall k | 0 <= k < 100 ensures Byte(dest[1 := p], d, k) == p[k] {
      LocatedAt(1, k, d);
      StartOrder(1, 1, d);
    }
  }
}
