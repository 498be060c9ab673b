/**
  Rows of an index in order, and what ANALYZE counts: how many rows share a prefix of columns, and how
  many different prefixes there are.
 */
module AnalyzeRows {

  type Row = seq<int>

  /** Row a comes before row b: in the first column in which they differ it has the smaller value. */
  ghost predicate Less(a: Row, b: Row) {
    exists i :: LessAt(a, b, i)
  }

  predicate LessAt(a: Row, b: Row, i: int) {
    0 <= i < |a| && |a| == |b| && a[..i] == b[..i] && a[i] < b[i]
  }

  /** The left-most column in which two rows differ. */
  function FirstDiff(a: Row, b: Row): (d: nat)
    requires |a| == |b|
    ensures d <= |a| && a[..d] == b[..d] && (d < |a| ==> a[d] != b[d])
  {
    if a == [] || a[0] != b[0] then 0
    else
      var d := FirstDiff(a[1..], b[1..]);
      assert a[..d + 1] == [a[0]] + a[1..][..d] && b[..d + 1] == [b[0]] + b[1..][..d];
      d + 1
  }

  /** Rows of n columns, each before the next. */
  ghost predicate Sorted(rows: seq<Row>, n: nat) {
    && (forall k :: 0 <= k < |rows| ==> |rows[k]| == n)
    && (forall k :: 0 < k < |rows| ==> Less(rows[k - 1], rows[k]))
  }

  lemma LessTransitive(a: Row, b: Row, c: Row)
    requires Less(a, b) && Less(b, c)
    ensures Less(a, c)
  {
    var i :| LessAt(a, b, i);
    var j :| LessAt(b, c, j);
    if i <= j {
      assert a[..i] == b[..i] == b[..j][..i] == c[..j][..i] == c[..i];
      assert i < j ==> b[i] == b[..j][i] == c[i];
      assert LessAt(a, c, i);
    } else {
      assert a[..j] == a[..i][..j] == b[..i][..j] == b[..j];
      assert a[j] == a[..i][j] == b[j];
      assert LessAt(a, c, j);
    }
  }

  lemma {:induction false} SortedLess(rows: seq<Row>, n: nat, j: nat, k: nat)
    requires Sorted(rows, n) && j < k < |rows|
    ensures Less(rows[j], rows[k])
    decreases k
  {
    if j < k - 1 {
      SortedLess(rows, n, j, k - 1);
      LessTransitive(rows[j], rows[k - 1], rows[k]);
    }
  }

  /** Once two consecutive rows differ in column d, no earlier row shares a prefix beyond d with the later one. */
  lemma NewPrefix(rows: seq<Row>, n: nat, k: nat, m: nat)
    requires Sorted(rows, n) && 0 < k < |rows| && FirstDiff(rows[k - 1], rows[k]) < m <= n
    ensures forall j :: 0 <= j < k ==> rows[j][..m] != rows[k][..m]
  {
    var a, b := rows[k - 1], rows[k];
    var d := FirstDiff(a, b);
    var i :| LessAt(a, b, i);
    assert i == d;
    forall j | 0 <= j < k ensures rows[j][..m] != b[..m] {
      if rows[j][..m] == b[..m] {
        assert rows[j][..d] == rows[j][..m][..d] == b[..m][..d] == b[..d];
        assert rows[j][d] == rows[j][..m][d] == b[..m][d] == b[d];
        assert LessAt(a, rows[j], d);
        if j < k - 1 {
          SortedLess(rows, n, j, k - 1);
          LessTransitive(a, rows[j], a);
        }
        NotLess(a);
      }
    }
  }

  lemma NotLess(a: Row)
    ensures !Less(a, a)
  {
  }

  // ---- the declarative counts

  /** How many of the rows have the given prefix. */
  function Sharing(rows: seq<Row>, prefix: Row): (c: nat)
    ensures c <= |rows|
  {
    if rows == [] then 0
    else Sharing(rows[..|rows| - 1], prefix) + if prefix <= rows[|rows| - 1] then 1 else 0
  }

  /** The prefixes of m columns that the rows have. */
  ghost function Prefixes(rows: seq<Row>, m: nat): set<Row>
    requires forall k :: 0 <= k < |rows| ==> m <= |rows[k]|
  {
    set k | 0 <= k < |rows| :: rows[k][..m]
  }

  /** What the counters say of the rows, for each number m of columns. */
  ghost predicate Counts(rows: seq<Row>, n: nat, anEq: seq<nat>, anDLt: seq<nat>)
    requires Sorted(rows, n) && rows != []
  {
    && |anEq| == |anDLt| == n
    && forall i :: 0 <= i < n ==> CountsAt(rows, n, i, anEq[i], anDLt[i])
  }

  /** eq rows share the first i+1 columns of the last row, and dlt other prefixes of i+1 columns occur. */
  ghost predicate CountsAt(rows: seq<Row>, n: nat, i: nat, eq: nat, dlt: nat)
    requires Sorted(rows, n) && rows != [] && i < n
  {
    eq == Sharing(rows, rows[|rows| - 1][..i + 1]) && dlt + 1 == |Prefixes(rows, i + 1)|
  }

  /** The counters after one more row whose left-most changed column is d. */
  function PushedEq(anEq: seq<nat>, d: nat): seq<nat> {
    seq(|anEq|, i requires 0 <= i < |anEq| => if i < d then anEq[i] + 1 else 1)
  }

  function PushedDLt(anDLt: seq<nat>, d: nat): seq<nat> {
    seq(|anDLt|, i requires 0 <= i < |anDLt| => if i < d then anDLt[i] else anDLt[i] + 1)
  }

  lemma {:induction false} SharingNone(rows: seq<Row>, prefix: Row)
    requires forall k :: 0 <= k < |rows| ==> !(prefix <= rows[k])
    ensures Sharing(rows, prefix) == 0
  {
    if rows != [] {
      SharingNone(rows[..|rows| - 1], prefix);
    }
  }

  /** An unchanged prefix lengthens its group. */
  lemma PushSame(rows: seq<Row>, n: nat, i: nat)
    requires Sorted(rows, n) && |rows| > 1 && i < FirstDiff(rows[|rows| - 2], rows[|rows| - 1]) && i < n
    ensures var k := |rows| - 1;
      && Sharing(rows, rows[k][..i + 1]) == Sharing(rows[..k], rows[k - 1][..i + 1]) + 1
      && Prefixes(rows, i + 1) == Prefixes(rows[..k], i + 1)
  {
    var k, m := |rows| - 1, i + 1;
    var d := FirstDiff(rows[k - 1], rows[k]);
    hide FirstDiff, Less;
    var p := rows[k][..m];
    PrefixesSnoc(rows, m);
    assert p == rows[k][..d][..m] == rows[k - 1][..d][..m] == rows[k - 1][..m];
    assert rows[..k][k - 1][..m] in Prefixes(rows[..k], m);
  }

  /** A changed prefix starts a new group. */
  lemma PushNew(rows: seq<Row>, n: nat, i: nat)
    requires Sorted(rows, n) && |rows| > 1 && FirstDiff(rows[|rows| - 2], rows[|rows| - 1]) <= i < n
    ensures var k := |rows| - 1;
      && Sharing(rows, rows[k][..i + 1]) == 1
      && Prefixes(rows, i + 1) == Prefixes(rows[..k], i + 1) + {rows[k][..i + 1]}
      && rows[k][..i + 1] !in Prefixes(rows[..k], i + 1)
  {
    var k, m := |rows| - 1, i + 1;
    NewPrefix(rows, n, k, m);
    hide FirstDiff, Less;
    var p := rows[k][..m];
    PrefixesSnoc(rows, m);
    forall j | 0 <= j < |rows[..k]| ensures !(p <= rows[..k][j]) {
      assert rows[..k][j] == rows[j];
    }
    SharingNone(rows[..k], p);
  }

  lemma PushOne(rows: seq<Row>, n: nat, i: nat)
    requires Sorted(rows, n) && |rows| > 1 && i < n && Sorted(rows[..|rows| - 1], n)
    ensures var k := |rows| - 1; var d := FirstDiff(rows[k - 1], rows[k]);
      && Sharing(rows, rows[k][..i + 1]) == (if i < d then Sharing(rows[..k], rows[k - 1][..i + 1]) + 1 else 1)
      && |Prefixes(rows, i + 1)| == |Prefixes(rows[..k], i + 1)| + if i < d then 0 else 1
  {
    hide FirstDiff, Sharing, Prefixes;
    if i < FirstDiff(rows[|rows| - 2], rows[|rows| - 1]) { PushSame(rows, n, i); } else { PushNew(rows, n, i); }
  }

  lemma PrefixesSnoc(rows: seq<Row>, m: nat)
    requires rows != [] && forall k :: 0 <= k < |rows| ==> m <= |rows[k]|
    ensures Prefixes(rows, m) == Prefixes(rows[..|rows| - 1], m) + {rows[|rows| - 1][..m]}
  {
    var k := |rows| - 1;
    var all, was, last := Prefixes(rows, m), Prefixes(rows[..k], m), rows[k][..m];
    forall p | p in all ensures p in was || p == last {
      var j :| 0 <= j <= k && p == rows[j][..m];
      assert j < k ==> rows[..k][j] == rows[j];
    }
    forall p | p in was ensures p in all {
      var j :| 0 <= j < k && p == rows[..k][j][..m];
      assert rows[j] == rows[..k][j];
    }
    assert last in all;
  }

  lemma PushKeeps(rows: seq<Row>, n: nat, anEq: seq<nat>, anDLt: seq<nat>)
    requires Sorted(rows, n) && |rows| > 1 && Sorted(rows[..|rows| - 1], n)
    requires Counts(rows[..|rows| - 1], n, anEq, anDLt)
    ensures var k := |rows| - 1; var d := FirstDiff(rows[k - 1], rows[k]);
      Counts(rows, n, PushedEq(anEq, d), PushedDLt(anDLt, d))
  {
    var d := FirstDiff(rows[|rows| - 2], rows[|rows| - 1]);
    forall i | 0 <= i < n ensures CountsAt(rows, n, i, PushedEq(anEq, d)[i], PushedDLt(anDLt, d)[i]) {
      assert CountsAt(rows[..|rows| - 1], n, i, anEq[i], anDLt[i]);
      PushOne(rows, n, i);
    }
  }

  lemma PushFirst(row: Row, n: nat)
    requires |row| == n
    ensures Sorted([row], n) && Counts([row], n, seq(n, i => 1), seq(n, i => 0))
  {
    forall i | 0 <= i < n
      ensures CountsAt([row], n, i, 1, 0)
    {
      assert [row][..0] == [] && Sharing([], row[..i + 1]) == 0;
      assert Prefixes([row], i + 1) == {row[..i + 1]} by { assert [row][0] == row; }
    }
  }
}
