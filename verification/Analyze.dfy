/**
  stat_push, stat_get and the reader of the text that stat_get prints.
 */
module Analyze {

  import opened Basics
  import opened AnalyzeRows


  // ---- numbers as text

  function Digit(d: nat): (c: char)
    requires d < 10
    ensures '0' <= c <= '9' && (c as int) - ('0' as int) == d
  {
    (('0' as int) + d) as char
  }

  predicate IsDigit(c: char) {
    '0' <= c <= '9'
  }

  /** What snprintf prints for %llu. */
  function Decimal(n: nat): (s: string)
    ensures s != [] && forall i :: 0 <= i < |s| ==> IsDigit(s[i])
    ensures if n == 0 then s == "0" else s[0] != '0'
  {
    if n < 10 then [Digit(n)] else Decimal(n / 10) + [Digit(n % 10)]
  }

  /** The number that a row of digits stands for. */
  function Number(s: string): nat
    requires forall i :: 0 <= i < |s| ==> IsDigit(s[i])
  {
    if s == [] then 0
    else
      assert IsDigit(s[|s| - 1]);
      Number(s[..|s| - 1]) * 10 + ((s[|s| - 1] as int) - ('0' as int))
  }

  lemma {:induction false} NumberOfDecimal(n: nat)
    ensures Number(Decimal(n)) == n
  {
    var s := Decimal(n);
    if n < 10 {
      assert s[..0] == [];
    } else {
      assert s[..|s| - 1] == Decimal(n / 10);
      NumberOfDecimal(n / 10);
    }
  }

  /** The value of a row of digits, in 32 bits. */
  function Value(s: string): (v: nat)
    requires forall i :: 0 <= i < |s| ==> IsDigit(s[i])
    ensures v < U32
  {
    if s == [] then 0 else (Value(s[..|s| - 1]) * 10 + ((s[|s| - 1] as int) - ('0' as int))) % U32
  }

  lemma {:induction false} ValueOfDecimal(n: nat)
    ensures Value(Decimal(n)) == n % U32
  {
    var s := Decimal(n);
    if n < 10 {
      assert s[..0] == [];
    } else {
      assert s[..|s| - 1] == Decimal(n / 10);
      ValueOfDecimal(n / 10);
      ModStep(n / 10, 10, n % 10);
    }
  }

  /** Numbers with a space before each but the first. */
  function Text(ns: seq<nat>): string {
    if ns == [] then "" else if |ns| == 1 then Decimal(ns[0])
    else Text(ns[..|ns| - 1]) + " " + Decimal(ns[|ns| - 1])
  }

  // ---- the reader

  /** How many characters at the front of the text are digits. */
  function Digits(z: string): (k: nat)
    ensures k <= |z| && (forall i :: 0 <= i < k ==> IsDigit(z[i])) && (k < |z| ==> !IsDigit(z[k]))
  {
    if z == [] || !IsDigit(z[0]) then 0
    else
      var k := Digits(z[1..]);
      assert forall i :: 1 <= i <= k ==> z[i] == z[1..][i - 1];
      k + 1
  }

  /** One number, and the text behind it and behind one space. */
  function Rest(z: string): (r: string)
  {
    var k := Digits(z);
    if k < |z| && z[k] == ' ' then z[k + 1..] else z[k..]
  }

  function Decoded(z: string, nOut: nat): (ns: seq<nat>)
    ensures |ns| <= nOut && forall i :: 0 <= i < |ns| ==> ns[i] < U32
  {
    if z == [] || nOut == 0 then [] else [Value(z[..Digits(z)])] + Decoded(Rest(z), nOut - 1)
  }

  lemma Regroup(d: string, t: string, e: string)
    ensures d + (" " + t) + " " + e == d + (" " + (t + " " + e))
  {
  }

  /** The text from the first of the numbers on, seen from the front. */
  lemma {:induction false} TextFront(ns: seq<nat>)
    requires |ns| > 1
    ensures Text(ns) == Decimal(ns[0]) + (" " + Text(ns[1..]))
  {
    hide Decimal;
    var n := |ns| - 1;
    if n == 1 {
      TextTwo(ns[0], ns[1]);
      assert ns == [ns[0], ns[1]] && ns[1..] == [ns[1]];
    } else {
      TextFront(ns[..n]);
      assert ns[..n][1..] == ns[1..][..n - 1];
      Regroup(Decimal(ns[0]), Text(ns[1..][..n - 1]), Decimal(ns[n]));
    }
  }

  lemma TextTwo(m: nat, n: nat)
    ensures Text([m, n]) == Decimal(m) + (" " + Text([n]))
  {
    hide Decimal;
    assert [m, n][..1] == [m];
    assert Decimal(m) + " " + Decimal(n) == Decimal(m) + (" " + Decimal(n));
  }

  lemma {:induction false} DigitsOf(a: string, z: string)
    requires (forall i :: 0 <= i < |a| ==> IsDigit(a[i])) && (z != [] ==> !IsDigit(z[0]))
    ensures Digits(a + z) == |a|
  {
    if a == [] {
      assert a + z == z;
    } else {
      assert (a + z)[1..] == a[1..] + z;
      DigitsOf(a[1..], z);
    }
  }

  lemma DecodedStep(a: string, z: string, t: string, nOut: nat)
    requires a != [] && (forall i :: 0 <= i < |a| ==> IsDigit(a[i])) && nOut > 0
    requires (z == "" && t == "") || z == " " + t
    ensures Decoded(a + z, nOut) == [Value(a)] + Decoded(t, nOut - 1)
  {
    hide Digits, Value;
    DigitsOf(a, z);
    assert (a + z)[..|a|] == a;
    assert Rest(a + z) == t;
  }

  lemma TextOne(n: nat)
    ensures Text([n]) == Decimal(n) + "" && Text([]) == ""
  {
    hide Decimal;
  }

  lemma DecodedNone(nOut: nat)
    ensures Decoded("", nOut) == []
  {
  }

  /** Reading gives back the numbers that were printed. */
  lemma {:induction false} RoundTrip(ns: seq<nat>, nOut: nat)
    requires |ns| <= nOut && forall i :: 0 <= i < |ns| ==> ns[i] < U32
    ensures Decoded(Text(ns), nOut) == ns
    decreases |ns|
  {
    hide Decimal, Text, Decoded, Value;
    TextOne(if ns == [] then 0 else ns[0]);
    if ns == [] {
      DecodedNone(nOut);
    } else {
      if |ns| == 1 { assert ns == [ns[0]]; } else { TextFront(ns); }
      var z, t := if |ns| == 1 then "" else " " + Text(ns[1..]), Text(ns[1..]);
      DecodedStep(Decimal(ns[0]), z, t, nOut);
      ValueOfDecimal(ns[0]);
      RoundTrip(ns[1..], nOut - 1);
      assert ns == [ns[0]] + ns[1..];
    }
  }

  /** decodeIntArray: the logarithmic estimates of the first nOut numbers in the text. */
  method DecodeIntArray(zIntArray: string, nOut: nat, logEst: nat -> int) returns (aLog: seq<int>)
    ensures var ns := Decoded(zIntArray, nOut); aLog == seq(|ns|, i requires 0 <= i < |ns| => logEst(ns[i]))
  {
    hide Digits, Value, Rest;
    ghost var ns := Decoded(zIntArray, nOut);
    var z, i := zIntArray, 0;
    aLog := [];
    while z != [] && i < nOut
      invariant i <= nOut && |aLog| == i <= |ns| && ns[i..] == Decoded(z, nOut - i)
      invariant forall j :: 0 <= j < i ==> aLog[j] == logEst(ns[j])
    {
      var v, rest := ReadNumber(z);
      assert ns[i] == ns[i..][0] && ns[i + 1..] == ns[i..][1..];
      aLog := aLog + [logEst(v)];
      RestIs(z);
      z := rest;
      if z != [] && z[0] == ' ' {
        z := z[1..];
      }
      i := i + 1;
    }
  }

  lemma RestIs(z: string)
    ensures var r := z[Digits(z)..]; Rest(z) == if r != [] && r[0] == ' ' then r[1..] else r
  {
  }

  /** The inner loop: the digits at the front of the text. */
  method ReadNumber(z0: string) returns (v: nat, z: string)
    ensures v == Value(z0[..Digits(z0)]) && z == z0[Digits(z0)..]
  {
    ghost var k := 0;
    v, z := 0, z0;
    while z != [] && IsDigit(z[0])
      invariant k <= |z0| && z == z0[k..] && (forall i :: 0 <= i < k ==> IsDigit(z0[i])) && v == Value(z0[..k])
      decreases |z|
    {
      assert z0[..k + 1][..k] == z0[..k] && z0[..k + 1][k] == z[0];
      v := (v * 10 + ((z[0] as int) - ('0' as int))) % U32;
      z := z[1..];
      k := k + 1;
    }
    assert z0 == z0[..k] + z0[k..];
    DigitsOf(z0[..k], z0[k..]);
  }

  // ---- the accumulator

  function CeilDiv(k: nat, d: nat): nat
    requires d > 0
  {
    (k + d - 1) / d
  }

  /** The estimate is the least number of rows per value that is not too small. */
  lemma CeilDivIsLeast(k: nat, d: nat)
    requires 0 < d <= k
    ensures (CeilDiv(k, d) - 1) * d < k <= CeilDiv(k, d) * d && 0 < CeilDiv(k, d) <= k
  {
    var q := CeilDiv(k, d);
    var p, r := Divide(k + d - 1, d);
    assert (q - 1) * d == q * d - d;
    assert q > k ==> q * d >= (k + 1) * d == k * d + d;
    assert k * d >= k;
  }

  /** The numbers of the stat1 entry: the rows, and for each key column the rows per distinct prefix. */
  function Stat1(nRow: nat, anDLt: seq<nat>, nKeyCol: nat): (ns: seq<nat>)
    requires nKeyCol <= |anDLt|
    ensures |ns| == nKeyCol + 1 && ns[0] == nRow
  {
    if nKeyCol == 0 then [nRow]
    else Stat1(nRow, anDLt, nKeyCol - 1) + [CeilDiv(nRow, anDLt[nKeyCol - 1] + 1)]
  }

  class Stat4Accum {
    var nRow: nat
    const nCol: nat
    const nKeyCol: nat
    const anEq: array<nat>
    const anDLt: array<nat>

    ghost predicate Valid()
      reads this
    {
      0 < nKeyCol <= nCol && anEq.Length == anDLt.Length == nCol && anEq != anDLt
    }

    /** The counters are those of the rows that were pushed. */
    ghost predicate Reflects(rows: seq<Row>)
      reads this, anEq, anDLt
    {
      && Valid() && Sorted(rows, nCol) && nRow == |rows|
      && if rows == [] then forall i :: 0 <= i < nCol ==> anDLt[i] == 0
         else Counts(rows, nCol, anEq[..], anDLt[..])
    }

    /** stat_init. */
    constructor (nCol: nat, nKeyCol: nat)
      requires 0 < nKeyCol <= nCol
      ensures Reflects([]) && this.nCol == nCol && this.nKeyCol == nKeyCol && fresh(anEq) && fresh(anDLt)
    {
      this.nRow, this.nCol, this.nKeyCol := 0, nCol, nKeyCol;
      anEq := new nat[nCol](_ => 0);
      anDLt := new nat[nCol](_ => 0);
    }

    /** stat_push: one more row, whose left-most column that differs from the row before is iChng. */
    method StatPush(iChng: nat, ghost rows: seq<Row>, ghost row: Row)
      requires Reflects(rows) && |row| == nCol && Sorted(rows + [row], nCol) && |rows| + 1 < U32
      requires rows != [] ==> iChng == FirstDiff(rows[|rows| - 1], row) < nCol
      modifies this`nRow, anEq, anDLt
      ensures Reflects(rows + [row])
    {
      hide Counts, Sorted;
      if nRow == 0 {
        for i := 0 to nCol
          invariant forall j :: 0 <= j < i ==> anEq[j] == 1
          modifies anEq
        {
          anEq[i] := 1;
        }
        assert rows == [] && [row] == rows + [row];
        assert anEq[..] == seq(nCol, i => 1) && anDLt[..] == seq(nCol, i => 0);
        PushFirst(row, nCol);
      } else {
        BumpEq(iChng);
        BumpDLt(iChng);
        assert (rows + [row])[..|rows|] == rows;
        PushKeeps(rows + [row], nCol, old(anEq[..]), old(anDLt[..]));
      }
      nRow := nRow + 1;
    }

    method BumpEq(iChng: nat)
      requires Valid() && iChng < nCol
      modifies anEq
      ensures anEq[..] == PushedEq(old(anEq[..]), iChng)
    {
      for i := 0 to iChng
        invariant forall j :: 0 <= j < nCol ==> anEq[j] == if j < i then old(anEq[j]) + 1 else old(anEq[j])
      {
        anEq[i] := anEq[i] + 1;
      }
      for i := iChng to nCol
        invariant forall j :: 0 <= j < nCol ==>
          anEq[j] == if j < iChng then old(anEq[j]) + 1 else if j < i then 1 else old(anEq[j])
      {
        anEq[i] := 1;
      }
    }

    method BumpDLt(iChng: nat)
      requires Valid() && iChng < nCol
      modifies anDLt
      ensures anDLt[..] == PushedDLt(old(anDLt[..]), iChng)
    {
      for i := iChng to nCol
        invariant forall j :: 0 <= j < nCol ==> anDLt[j] == old(anDLt[j]) + if iChng <= j < i then 1 else 0
      {
        anDLt[i] := anDLt[i] + 1;
      }
    }

    /** The stat1 part of stat_get. */
    method StatGet() returns (zRet: string)
      requires Valid() && nRow > 0
      ensures zRet == Text(Stat1(nRow, anDLt[..], nKeyCol))
    {
      hide Decimal;
      zRet := Decimal(nRow);
      for i := 0 to nKeyCol
        invariant zRet == Text(Stat1(nRow, anDLt[..], i))
      {
        var nDistinct := anDLt[i] + 1;
        var iVal := (nRow + nDistinct - 1) / nDistinct;
        TextSnoc(Stat1(nRow, anDLt[..], i), iVal);
        zRet := zRet + (" " + Decimal(iVal));
      }
    }
  }

  lemma TextSnoc(ns: seq<nat>, n: nat)
    requires ns != []
    ensures Text(ns + [n]) == Text(ns) + (" " + Decimal(n))
  {
    assert (ns + [n])[..|ns|] == ns;
  }

  /**
    From rows to text and back: after the rows were pushed, the text that stat_get prints is read back as the
    number of rows and, for each key column, the least number that times the distinct prefixes covers the rows.
   */
  lemma StatIsRead(rows: seq<Row>, n: nat, nKeyCol: nat, anEq: seq<nat>, anDLt: seq<nat>)
    requires Sorted(rows, n) && rows != [] && |rows| < U32 && Counts(rows, n, anEq, anDLt) && nKeyCol <= n
    ensures |anDLt| == n
    ensures var ns := Stat1(|rows|, anDLt, nKeyCol);
      && Decoded(Text(ns), nKeyCol + 1) == ns && ns[0] == |rows|
      && forall i :: 0 <= i < nKeyCol ==> EstimateAt(ns, rows, n, i)
  {
    StatFits(rows, n, nKeyCol, anEq, anDLt);
    RoundTrip(Stat1(|rows|, anDLt, nKeyCol), nKeyCol + 1);
    hide Text, Decoded, Counts, Sorted, EstimateAt, Stat1, Prefixes, Decimal;
    var ns := Stat1(|rows|, anDLt, nKeyCol);
    forall i | 0 <= i < nKeyCol ensures EstimateAt(ns, rows, n, i) {
      StatAt(rows, n, nKeyCol, anEq, anDLt, i);
    }
  }

  lemma StatFits(rows: seq<Row>, n: nat, nKeyCol: nat, anEq: seq<nat>, anDLt: seq<nat>)
    requires Sorted(rows, n) && rows != [] && |rows| < U32 && Counts(rows, n, anEq, anDLt) && nKeyCol <= n
    ensures |anDLt| == n && forall i :: 0 <= i <= nKeyCol ==> Stat1(|rows|, anDLt, nKeyCol)[i] < U32
  {
    var ns := Stat1(|rows|, anDLt, nKeyCol);
    hide Counts, Sorted, EstimateAt, Stat1, Prefixes;
    forall i | 0 <= i < |ns| ensures ns[i] < U32 {
      if i > 0 {
        StatAt(rows, n, nKeyCol, anEq, anDLt, i - 1);
      }
    }
  }

  lemma StatAt(rows: seq<Row>, n: nat, nKeyCol: nat, anEq: seq<nat>, anDLt: seq<nat>, i: nat)
    requires Sorted(rows, n) && rows != [] && |rows| < U32 && Counts(rows, n, anEq, anDLt) && i < nKeyCol <= n
    ensures EstimateAt(Stat1(|rows|, anDLt, nKeyCol), rows, n, i) && Stat1(|rows|, anDLt, nKeyCol)[i + 1] < U32
  {
    hide Prefixes, CeilDiv;
    Stat1At(|rows|, anDLt, nKeyCol, i);
    assert CountsAt(rows, n, i, anEq[i], anDLt[i]);
    PrefixesFew(rows, i + 1);
    CeilDivIsLeast(|rows|, anDLt[i] + 1);
  }

  /** Number i+1 of the list is the estimate for the prefixes of i+1 columns. */
  ghost predicate EstimateAt(ns: seq<nat>, rows: seq<Row>, n: nat, i: nat)
    requires Sorted(rows, n) && i < n && i + 1 < |ns|
  {
    IsEstimate(ns[i + 1], |rows|, |Prefixes(rows, i + 1)|)
  }

  /** v is the least number that times d is at least k. */
  predicate IsEstimate(v: nat, k: nat, d: nat) {
    v > 0 && (v - 1) * d < k <= v * d
  }

  lemma {:induction false} Stat1At(nRow: nat, anDLt: seq<nat>, nKeyCol: nat, i: nat)
    requires i < nKeyCol <= |anDLt|
    ensures Stat1(nRow, anDLt, nKeyCol)[i + 1] == CeilDiv(nRow, anDLt[i] + 1)
  {
    if i < nKeyCol - 1 {
      Stat1At(nRow, anDLt, nKeyCol - 1, i);
    }
  }

  lemma {:induction false} PrefixesFew(rows: seq<Row>, m: nat)
    requires forall k :: 0 <= k < |rows| ==> m <= |rows[k]|
    ensures |Prefixes(rows, m)| <= |rows|
  {
    if rows == [] {
      assert Prefixes(rows, m) == {};
    } else {
      PrefixesSnoc(rows, m);
      PrefixesFew(rows[..|rows| - 1], m);
    }
  }
}
