/**
  The hash leaf of a Bitvec: NINT slots, 0 for empty, with linear probing from Home(v).
 */
module BitvecHash {

  const NINT := 124     // slots of a hash leaf
  const MXHASH := 62    // entries beyond which a collision splits the leaf

  type Slots = s: seq<nat> | |s| == 124 witness seq(124, _ => 0)

  function Home(v: nat): (h: nat)
    requires v > 0
    ensures h < NINT
  {
    (v - 1) % NINT
  }

  /** The values from 1 on have their homes one behind the other, and around. */
  lemma HomesInTurn(v: nat)
    requires v > 0
    ensures Home(1) == 0 && Home(v + 1) == if Home(v) == NINT - 1 then 0 else Home(v) + 1
  {
  }

  /** The slot j steps behind slot a, going round. */
  function At(a: nat, j: nat): (h: nat)
    requires a < NINT && j < NINT
    ensures h < NINT
  {
    if a + j < NINT then a + j else a + j - NINT
  }

  /** How many steps from slot a to slot h, going round. */
  function Steps(a: nat, h: nat): (j: nat)
    requires a < NINT && h < NINT
    ensures j < NINT && At(a, j) == h
  {
    if a <= h then h - a else h + NINT - a
  }

  /** Whatever is in slot h is found by probing: no slot on the way to it is empty. */
  predicate Found(s: Slots, h: nat)
    requires h < NINT && s[h] > 0
  {
    forall j :: 0 <= j <= Steps(Home(s[h]), h) ==> s[At(Home(s[h]), j)] != 0
  }

  predicate Probed(s: Slots) {
    && (forall h :: 0 <= h < NINT && s[h] > 0 ==> Found(s, h))
    && (forall g, h :: 0 <= g < h < NINT && s[g] > 0 ==> s[g] != s[h])
  }

  /** The first k slots on the way of v are taken by others. */
  predicate Walked(s: Slots, v: nat, k: nat)
    requires v > 0 && k <= NINT
  {
    forall j :: 0 <= j < k ==> s[At(Home(v), j)] != 0 && s[At(Home(v), j)] != v
  }

  function Count(s: seq<nat>): (n: nat)
    ensures n <= |s|
  {
    if s == [] then 0 else Count(s[..|s| - 1]) + if s[|s| - 1] > 0 then 1 else 0
  }

  /** Probing ends: as long as not all slots count, there is an empty one. */
  lemma {:induction false} EmptySlot(s: seq<nat>) returns (e: nat)
    requires Count(s) < |s|
    ensures e < |s| && s[e] == 0
  {
    e := |s| - 1;
    if s[e] > 0 {
      e := EmptySlot(s[..|s| - 1]);
    }
  }

  lemma {:induction false} CountPrefix(s: seq<nat>, j: nat)
    requires j <= |s|
    ensures Count(s[..j]) <= Count(s)
    ensures j > 0 ==> Count(s[..j]) == Count(s[..j - 1]) + if s[j - 1] > 0 then 1 else 0
  {
    if j < |s| {
      CountPrefix(s[..|s| - 1], j);
      assert s[..|s| - 1][..j] == s[..j];
    } else {
      assert s[..j] == s;
    }
    if j > 0 {
      assert s[..j][..j - 1] == s[..j - 1];
    }
  }

  lemma {:induction false} CountPut(s: seq<nat>, h: nat, v: nat)
    requires h < |s| && s[h] == 0 && v > 0
    ensures Count(s[h := v]) == Count(s) + 1
  {
    var n := |s| - 1;
    if h == n {
      assert s[h := v][..n] == s[..n];
    } else {
      assert s[h := v][..n] == s[..n][h := v];
      CountPut(s[..n], h, v);
    }
  }

  /** An empty slot on the way of v, and v not before it: v is nowhere. */
  lemma Absent(s: Slots, v: nat, k: nat)
    requires Probed(s) && v > 0 && k < NINT && Walked(s, v, k) && s[At(Home(v), k)] == 0
    ensures v !in s
  {
  }

  /** Putting v into the first empty slot on its way keeps every value found. */
  lemma PutProbed(s: Slots, v: nat, k: nat)
    requires Probed(s) && v > 0 && k < NINT && Walked(s, v, k) && s[At(Home(v), k)] == 0
    ensures Probed(s[At(Home(v), k) := v])
  {
    var h := At(Home(v), k);
    var t: Slots := s[h := v];
    Absent(s, v, k);
    forall g | 0 <= g < NINT && t[g] > 0
      ensures Found(t, g)
    {
      if g == h {
        assert Steps(Home(v), h) == k;
      } else {
        assert Found(s, g);
      }
    }
  }

  lemma ProbedZeros()
    ensures Probed(seq(NINT, _ => 0)) && Count([]) == 0
  {
  }

  /** No value is in two slots. */
  lemma Fresh(s: Slots, j: nat)
    requires Probed(s) && j < NINT && s[j] > 0
    ensures s[j] !in s[..j]
  {
  }

  lemma CountZeros(n: nat)
    ensures Count(seq(n, _ => 0)) == 0
  {
    if n > 0 {
      assert seq(n, _ => 0)[..n - 1] == seq(n - 1, _ => 0);
      CountZeros(n - 1);
    }
  }
}
