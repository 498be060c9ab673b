/**
  Bytes, 2-byte integers and the layout of a b-tree page: section 1.6 "B-tree Pages" of the SQLite
  Database File Format.  A page is a header, an array of cell pointers, a gap, and the cell content
  area.  In the content area lie cells, free blocks (linked in order of their offsets) and fragments.
 */
module PageSpace {

  import opened Basics

  type byte = b: int | 0 <= b < 256

  function Get2(d: seq<byte>, i: nat): nat
    requires i + 1 < |d|
  {
    d[i] as nat * 256 + d[i + 1] as nat
  }

  function Put2(d: seq<byte>, i: nat, v: nat): (r: seq<byte>)
    requires i + 1 < |d|
    ensures |r| == |d|
  {
    d[i := v / 256 % 256][i + 1 := v % 256]
  }

  /** A 2-byte integer reads back as it was written, and writing it changes nothing else. */
  lemma GetPut(d: seq<byte>, i: nat, v: nat, j: nat)
    requires i + 1 < |d| && j + 1 < |d|
    ensures j == i && v < 65536 ==> Get2(Put2(d, i, v), j) == v
    ensures j + 1 < i || i + 1 < j ==> Get2(Put2(d, i, v), j) == Get2(d, j)
  {
  }

  lemma PutKeeps(d: seq<byte>, i: nat, v: nat, x: nat)
    requires i + 1 < |d| && x < |d| && x != i && x != i + 1
    ensures Put2(d, i, v)[x] == d[x]
  {
  }

  /** A run of bytes on the page. */
  datatype Span = Span(off: nat, size: nat) {
    function End(): nat { off + size }
  }

  predicate Apart(a: Span, b: Span) { a.End() <= b.off || b.End() <= a.off }

  ghost predicate AllApart(s: seq<Span>) {
    forall i, j :: 0 <= i < j < |s| ==> Apart(s[i], s[j])
  }

  ghost predicate Within(s: seq<Span>, lo: nat, hi: nat) {
    forall i :: 0 <= i < |s| ==> lo <= s[i].off && s[i].End() <= hi
  }

  function Total(s: seq<Span>): nat {
    if s == [] then 0 else Total(s[..|s| - 1]) + s[|s| - 1].size
  }

  lemma {:induction false} TotalAppend(s: seq<Span>, t: seq<Span>)
    ensures Total(s + t) == Total(s) + Total(t)
  {
    if t == [] {
      assert s + t == s;
    } else {
      TotalAppend(s, t[..|t| - 1]);
      assert (s + t)[..|s + t| - 1] == s + t[..|t| - 1];
    }
  }

  /** The list without its elements [i, j). */
  function Without<T>(s: seq<T>, i: nat, j: nat): seq<T>
    requires i <= j <= |s|
  {
    s[..i] + s[j..]
  }

  lemma TotalWithout(s: seq<Span>, i: nat, j: nat)
    requires i <= j <= |s|
    ensures Total(s) == Total(Without(s, i, j)) + Total(s[i..j])
  {
    hide Total;
    assert s == s[..i] + s[i..j] + s[j..];
    TotalAppend(s[..i] + s[i..j], s[j..]);
    TotalAppend(s[..i], s[i..j]);
    TotalAppend(s[..i], s[j..]);
  }

  lemma TotalSingle(x: Span)
    ensures Total([x]) == x.size
  {
    assert [x][..0] == [];
  }

  predicate Has(s: Span, x: int) { s.off <= x < s.End() }

  /** The bytes that lie in some span. */
  function BytesOf(s: seq<Span>): set<nat> {
    if s == [] then {} else BytesOf(s[..|s| - 1]) + Range(s[|s| - 1].off, s[|s| - 1].End())
  }

  lemma {:induction false} InBytesOf(s: seq<Span>, x: nat)
    ensures x in BytesOf(s) <==> exists i :: 0 <= i < |s| && Has(s[i], x)
  {
    if s != [] {
      var n := |s| - 1;
      InBytesOf(s[..n], x);
      assert x in BytesOf(s) <==> x in BytesOf(s[..n]) || Has(s[n], x);
      if i :| 0 <= i < n && Has(s[..n][i], x) { assert Has(s[i], x); }
      if i :| 0 <= i < |s| && Has(s[i], x) { assert i < n ==> Has(s[..n][i], x); }
    }
  }

  lemma LastApart(s: seq<Span>)
    requires AllApart(s) && s != []
    ensures var n := |s| - 1;
      AllApart(s[..n]) && BytesOf(s[..n]) !! Range(s[n].off, s[n].End())
  {
    hide BytesOf;
    var n := |s| - 1;
    forall x | x in BytesOf(s[..n]) ensures x !in Range(s[n].off, s[n].End()) {
      InBytesOf(s[..n], x);
      var i :| 0 <= i < n && Has(s[..n][i], x);
      assert Apart(s[i], s[n]);
    }
  }

  /** Spans that do not overlap hold as many bytes as their sizes add up to. */
  lemma {:induction false} CountBytes(s: seq<Span>)
    requires AllApart(s)
    ensures |BytesOf(s)| == Total(s)
  {
    hide AllApart, Range;
    if s != [] {
      var n := |s| - 1;
      LastApart(s);
      CountBytes(s[..n]);
      RangeSize(s[n].off, s[n].End());
    }
  }

  /** Spans that do not overlap take no more room than there is. */
  lemma Capacity(s: seq<Span>, lo: nat, hi: nat)
    requires AllApart(s) && Within(s, lo, hi) && lo <= hi
    ensures Total(s) <= hi - lo
  {
    CountBytes(s);
    RangeSize(lo, hi);
    forall x | x in BytesOf(s) ensures x in Range(lo, hi) { InBytesOf(s, x); }
    FewerElements(BytesOf(s), Range(lo, hi));
  }
}
