/**
  The min-heap of the integrity check.  Element 0 of the array is the number of entries; the entries
  follow from element 1 on, and the daughters of entry i are entries 2*i and 2*i+1.
 */
module CoverageHeap {

  const SENTINEL := 0xffff_ffff

  function Parent(k: nat): nat {
    k / 2
  }

  /** The entries of a heap. */
  function Items(s: seq<nat>, n: nat): multiset<nat>
    requires n < |s|
  {
    multiset(s[1..n + 1])
  }

  predicate Ordered(s: seq<nat>, n: nat)
    requires n < |s|
  {
    forall k {:trigger Parent(k)} :: 2 <= k <= n ==> s[Parent(k)] <= s[k]
  }

  /** As Ordered, but entry i may be smaller than its parent. */
  predicate OrderedAbove(s: seq<nat>, n: nat, i: nat)
    requires 1 <= i <= n < |s|
  {
    && (forall k {:trigger Parent(k)} :: 2 <= k <= n && k != i ==> s[Parent(k)] <= s[k])
    && (forall k {:trigger Parent(k)} :: 2 <= k <= n && Parent(k) == i && i >= 2 ==> s[i / 2] <= s[k])
  }

  /** As Ordered, but entry i may be greater than its daughters. */
  predicate OrderedBelow(s: seq<nat>, n: nat, i: nat)
    requires 1 <= i && n < |s|
  {
    && (forall k {:trigger Parent(k)} :: 2 <= k <= n && Parent(k) != i ==> s[Parent(k)] <= s[k])
    && (forall k {:trigger Parent(k)} :: 2 <= k <= n && Parent(k) == i && i >= 2 ==> s[i / 2] <= s[k])
  }

  function Swap(s: seq<nat>, i: nat, j: nat): (t: seq<nat>)
    requires i < |s| && j < |s|
    ensures |t| == |s|
  {
    s[i := s[j]][j := s[i]]
  }

  lemma SwapItems(s: seq<nat>, n: nat, i: nat, j: nat)
    requires 1 <= i <= n < |s| && 1 <= j <= n
    ensures Items(Swap(s, i, j), n) == Items(s, n)
  {
    var u := s[1..n + 1];
    assert Swap(s, i, j)[1..n + 1] == u[i - 1 := u[j - 1]][j - 1 := u[i - 1]];
  }

  lemma SwapUp(s: seq<nat>, n: nat, i: nat)
    requires 2 <= i <= n < |s| && OrderedAbove(s, n, i) && s[i / 2] > s[i]
    ensures OrderedAbove(Swap(s, i / 2, i), n, i / 2)
  {
    var j, t := i / 2, Swap(s, i / 2, i);
    assert Parent(i) == j;
    forall k | 2 <= k <= n && k != j ensures t[Parent(k)] <= t[k] {
      assert Parent(k) == k / 2;
    }
    forall k | 2 <= k <= n && Parent(k) == j && j >= 2 ensures t[j / 2] <= t[k] {
      assert Parent(j) == j / 2;
    }
  }

  lemma SwapDown(s: seq<nat>, n: nat, i: nat, j: nat)
    requires 1 <= i && n < |s| && 2 <= j <= n && j / 2 == i && OrderedBelow(s, n, i) && s[i] >= s[j]
    requires forall k {:trigger Parent(k)} :: 2 <= k <= n && Parent(k) == i ==> s[j] <= s[k]
    ensures OrderedBelow(Swap(s, i, j), n, j)
  {
    var t := Swap(s, i, j);
    assert Parent(j) == i && Parent(i) == i / 2;
    forall k | 2 <= k <= n && Parent(k) != j ensures t[Parent(k)] <= t[k] {
      assert Parent(k) == k / 2;
    }
  }

  /** The first entry is the least. */
  lemma {:induction false} RootIsLeast(s: seq<nat>, n: nat, k: nat)
    requires n < |s| && Ordered(s, n) && 1 <= k <= n
    ensures s[1] <= s[k]
  {
    if k > 1 {
      RootIsLeast(s, n, Parent(k));
    }
  }

  lemma LeastOfItems(s: seq<nat>, n: nat, x: nat)
    requires 1 <= n < |s| && Ordered(s, n) && x in Items(s, n)
    ensures s[1] <= x
  {
    var i :| 0 <= i < n && s[1..n + 1][i] == x;
    RootIsLeast(s, n, i + 1);
  }

  ghost predicate IsHeap(s: seq<nat>) {
    && |s| > 0 && s[0] < |s| && Ordered(s, s[0])
    && forall k :: 0 <= k < |s| ==> s[k] <= SENTINEL
  }

  lemma NoneOrdered(s: seq<nat>)
    requires |s| > 0 && s[0] == 0
    ensures Ordered(s, 0)
  {
  }

  /** btreeHeapInsert. */
  method Insert(aHeap: array<nat>, y: nat)
    requires IsHeap(aHeap[..]) && aHeap[0] + 1 < aHeap.Length <= SENTINEL && y <= SENTINEL
    modifies aHeap
    ensures IsHeap(aHeap[..]) && aHeap[0] == old(aHeap[0]) + 1
    ensures Items(aHeap[..], aHeap[0]) == Items(old(aHeap[..]), old(aHeap[0])) + multiset{y}
  {
    hide OrderedAbove, Ordered, Items;
    ghost var was: seq<nat> := aHeap[..];
    aHeap[0] := aHeap[0] + 1;
    var i: nat := aHeap[0];
    aHeap[i] := y;
    assert aHeap[..] == was[0 := i][i := y];
    Appended(was, aHeap[..], i, y);
    Rise(aHeap);
  }

  /** The loop of btreeHeapInsert: the last entry rises to its place. */
  method Rise(aHeap: array<nat>)
    requires aHeap.Length > 1 && 1 <= aHeap[0] < aHeap.Length <= SENTINEL && OrderedAbove(aHeap[..], aHeap[0], aHeap[0])
    requires forall k :: 0 <= k < aHeap.Length ==> aHeap[k] <= SENTINEL
    modifies aHeap
    ensures IsHeap(aHeap[..]) && aHeap[0] == old(aHeap[0])
    ensures Items(aHeap[..], aHeap[0]) == Items(old(aHeap[..]), aHeap[0])
  {
    hide OrderedAbove, Ordered, Items;
    ghost var n := aHeap[0];
    var i := aHeap[0];
    while i / 2 > 0 && aHeap[i / 2] > aHeap[i]
      invariant 1 <= i <= n && aHeap[0] == n && OrderedAbove(aHeap[..], n, i)
      invariant Items(aHeap[..], n) == Items(old(aHeap[..]), n)
      invariant forall k :: 0 <= k < aHeap.Length ==> aHeap[k] <= SENTINEL
    {
      var j := i / 2;
      SwapUp(aHeap[..], n, i);
      SwapItems(aHeap[..], n, j, i);
      ghost var t := Swap(aHeap[..], j, i);
      var x := aHeap[j];
      aHeap[j] := aHeap[i];
      aHeap[i] := x;
      assert aHeap[..] == t;
      i := j;
    }
    Settled(aHeap[..], n, i);
  }

  lemma Appended(s: seq<nat>, t: seq<nat>, n: nat, x: nat)
    requires IsHeap(s) && n == s[0] + 1 < |s| && t == s[0 := n][n := x]
    ensures OrderedAbove(t, n, n) && Items(t, n) == Items(s, n - 1) + multiset{x}
  {
    assert t[1..n + 1] == s[1..n] + [x];
    forall k | 2 <= k <= n && k != n ensures t[Parent(k)] <= t[k] {
      assert Parent(k) == k / 2;
    }
  }

  lemma Settled(s: seq<nat>, n: nat, i: nat)
    requires 1 <= i <= n < |s| && OrderedAbove(s, n, i) && (i / 2 > 0 ==> s[i / 2] <= s[i])
    ensures Ordered(s, n)
  {
    assert Parent(i) == i / 2;
  }

  /** btreeHeapPull: take out the least entry. */
  method Pull(aHeap: array<nat>) returns (ok: bool, least: nat)
    requires IsHeap(aHeap[..])
    modifies aHeap
    ensures IsHeap(aHeap[..]) && ok == (old(aHeap[0]) > 0)
    ensures !ok ==> aHeap[..] == old(aHeap[..])
    ensures ok ==>
      && aHeap[0] == old(aHeap[0]) - 1 && least in Items(old(aHeap[..]), old(aHeap[0]))
      && Items(aHeap[..], aHeap[0]) == Items(old(aHeap[..]), old(aHeap[0])) - multiset{least}
      && forall x :: x in Items(old(aHeap[..]), old(aHeap[0])) ==> least <= x
  {
    hide OrderedBelow, Ordered, Items;
    var x := aHeap[0];
    if x == 0 { return false, 0; }
    ghost var was := aHeap[..];
    forall y | y in Items(was, x) ensures was[1] <= y {
      LeastOfItems(was, x, y);
    }
    least := aHeap[1];
    aHeap[1] := aHeap[x];
    aHeap[x] := SENTINEL;
    aHeap[0] := aHeap[0] - 1;
    ghost var n: nat := x - 1;
    assert aHeap[..] == was[1 := was[x]][x := SENTINEL][0 := n];
    Replaced(was, aHeap[..], n);
    Sink(aHeap);
    ok := true;
  }

  /** The loop of btreeHeapPull: the entry at the root sinks to its place. */
  method Sink(aHeap: array<nat>)
    requires aHeap.Length > 1 && aHeap[0] + 1 < aHeap.Length && OrderedBelow(aHeap[..], aHeap[0], 1)
    requires (forall k :: 0 <= k < aHeap.Length ==> aHeap[k] <= SENTINEL) && aHeap[aHeap[0] + 1] == SENTINEL
    modifies aHeap
    ensures IsHeap(aHeap[..]) && aHeap[0] == old(aHeap[0])
    ensures Items(aHeap[..], aHeap[0]) == Items(old(aHeap[..]), aHeap[0])
  {
    hide OrderedBelow, Ordered, Items;
    ghost var n := aHeap[0];
    var i := 1;
    while i * 2 <= aHeap[0]
      invariant 1 <= i && aHeap[0] == n && OrderedBelow(aHeap[..], n, i)
      invariant Items(aHeap[..], n) == Items(old(aHeap[..]), n)
      invariant (forall k :: 0 <= k < aHeap.Length ==> aHeap[k] <= SENTINEL) && aHeap[n + 1] == SENTINEL
      decreases n - i
    {
      var j := i * 2;
      if aHeap[j] > aHeap[j + 1] {
        j := j + 1;
      }
      LesserDaughter(aHeap[..], n, i, j);
      if aHeap[i] < aHeap[j] {
        SunkAt(aHeap[..], n, i, j);
        return;
      }
      SwapDown(aHeap[..], n, i, j);
      SwapItems(aHeap[..], n, i, j);
      ghost var t := Swap(aHeap[..], i, j);
      var x := aHeap[i];
      aHeap[i] := aHeap[j];
      aHeap[j] := x;
      assert aHeap[..] == t;
      i := j;
    }
    Bottom(aHeap[..], n, i);
  }

  lemma Replaced(s: seq<nat>, t: seq<nat>, n: nat)
    requires IsHeap(s) && s[0] == n + 1 && t == s[1 := s[n + 1]][n + 1 := SENTINEL][0 := n]
    ensures OrderedBelow(t, n, 1)
    ensures Items(t, n) == Items(s, n + 1) - multiset{s[1]} && s[1] in Items(s, n + 1)
  {
    assert s[1..n + 2] == [s[1]] + s[2..n + 2];
    if n > 0 {
      assert t[1..n + 1] == [s[n + 1]] + s[2..n + 1];
      assert s[2..n + 2] == s[2..n + 1] + [s[n + 1]];
    }
    forall k | 2 <= k <= n && Parent(k) != 1 ensures t[Parent(k)] <= t[k] {
      assert Parent(k) == k / 2;
    }
  }

  lemma LesserDaughter(s: seq<nat>, n: nat, i: nat, j: nat)
    requires 1 <= i && i * 2 <= n && n + 1 < |s| && s[n + 1] == SENTINEL
    requires forall k :: 0 <= k < |s| ==> s[k] <= SENTINEL
    requires j == if s[i * 2] > s[i * 2 + 1] then i * 2 + 1 else i * 2
    ensures j <= n && j / 2 == i
    ensures forall k {:trigger Parent(k)} :: 2 <= k <= n && Parent(k) == i ==> s[j] <= s[k]
  {
  }

  lemma SunkAt(s: seq<nat>, n: nat, i: nat, j: nat)
    requires 1 <= i <= n < |s| && j < |s| && OrderedBelow(s, n, i) && s[i] <= s[j]
    requires forall k {:trigger Parent(k)} :: 2 <= k <= n && Parent(k) == i ==> s[j] <= s[k]
    ensures Ordered(s, n)
  {
  }

  lemma Bottom(s: seq<nat>, n: nat, i: nat)
    requires 1 <= i && n < |s| && OrderedBelow(s, n, i) && i * 2 > n
    ensures Ordered(s, n)
  {
  }
}
