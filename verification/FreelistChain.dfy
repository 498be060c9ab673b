/**
  The freelist of a database as a chain of trunk pages.  A page is a sequence of 32-bit words: a trunk page
  has the next trunk in word 0, the number of its leaves in word 1 and the leaves from word 2 on.  The
  header on page 1 has the first trunk in word 8 and the number of free pages in word 9.
 */
module FreelistChain {

  type Page = seq<nat>

  datatype Trunk = Trunk(no: nat, leaves: seq<nat>)

  const SIZE := 7     // words of the header on page 1
  const FIRST := 8
  const COUNT := 9

  /** The pages of one trunk, and of a list of trunks, each with how often it occurs. */
  function One(t: Trunk): multiset<nat> {
    multiset{t.no} + multiset(t.leaves)
  }

  function All(list: seq<Trunk>): multiset<nat> {
    if list == [] then multiset{} else One(list[0]) + All(list[1..])
  }

  predicate NoRepeats(m: multiset<nat>) {
    forall x :: x in m ==> m[x] == 1
  }

  /** The number of the t-th trunk, 0 behind the last. */
  function No(list: seq<Trunk>, t: nat): nat {
    if t < |list| then list[t].no else 0
  }

  /** Page p is the trunk page of trunk x, and the trunk next follows. */
  predicate IsTrunk(p: Page, x: Trunk, next: nat) {
    |p| >= 2 + |x.leaves| && p[0] == next && p[1] == |x.leaves| && p[2..2 + |x.leaves|] == x.leaves
  }

  predicate Linked(pages: map<nat, Page>, list: seq<Trunk>) {
    forall t :: 0 <= t < |list| ==> list[t].no in pages && IsTrunk(pages[list[t].no], list[t], No(list, t + 1))
  }

  /** The header leads to the given list of trunks, in which no page occurs twice. */
  predicate Chain(pages: map<nat, Page>, list: seq<Trunk>) {
    && 1 in pages && |pages[1]| > COUNT && 1 !in All(list) && 0 !in All(list)
    && pages[1][FIRST] == No(list, 0)
    && NoRepeats(All(list)) && Linked(pages, list)
  }

  /** The freelist in the pages is the given list, and the header has the right count. */
  predicate Freelist(pages: map<nat, Page>, list: seq<Trunk>) {
    Chain(pages, list) && pages[1][COUNT] == |All(list)|
  }

  // ---- splitting the list

  lemma {:induction false} AllCat(a: seq<Trunk>, b: seq<Trunk>)
    ensures All(a + b) == All(a) + All(b)
  {
    if a == [] {
      assert a + b == b;
    } else {
      assert (a + b)[1..] == a[1..] + b;
      AllCat(a[1..], b);
    }
  }

  lemma AllSplit(list: seq<Trunk>, t: nat)
    requires t < |list|
    ensures All(list) == All(list[..t]) + One(list[t]) + All(list[t + 1..])
  {
    hide One;
    assert list == list[..t] + ([list[t]] + list[t + 1..]);
    AllCat(list[..t], [list[t]] + list[t + 1..]);
    assert ([list[t]] + list[t + 1..])[1..] == list[t + 1..];
  }

  lemma {:induction false} InSome(list: seq<Trunk>, x: nat)
    ensures x in All(list) <==> exists t :: 0 <= t < |list| && x in One(list[t])
  {
    if list != [] {
      InSome(list[1..], x);
      if x in All(list[1..]) {
        var t :| 0 <= t < |list[1..]| && x in One(list[1..][t]);
        assert x in One(list[t + 1]);
      }
      if t :| 0 <= t < |list| && x in One(list[t]) {
        assert t > 0 ==> x in One(list[1..][t - 1]);
      }
    }
  }

  /** No page is in two trunks, and a leaf is not its own trunk. */
  lemma Apart(list: seq<Trunk>, s: nat, t: nat, x: nat)
    requires NoRepeats(All(list)) && s < |list| && t < |list|
    ensures s != t && x in One(list[s]) ==> x !in One(list[t])
    ensures list[t].no !in list[t].leaves
  {
    AllSplit(list, t);
    assert list[t].no in All(list) && All(list)[list[t].no] >= One(list[t])[list[t].no];
    if s != t && x in One(list[s]) {
      InSome(list[..t], x);
      InSome(list[t + 1..], x);
      if s < t {
        assert list[..t][s] == list[s];
      } else {
        assert list[t + 1..][s - t - 1] == list[s];
      }
      assert x in All(list) && All(list)[x] >= 1 + One(list[t])[x];
    }
  }

  // ---- taking a page out

  /** Leaf c of a trunk goes: the last leaf takes its place. */
  function WithoutLeaf(x: Trunk, c: nat): Trunk
    requires c < |x.leaves|
  {
    var k := |x.leaves|;
    x.(leaves := (if c < k - 1 then x.leaves[c := x.leaves[k - 1]] else x.leaves)[..k - 1])
  }

  lemma WithoutLeafOne(x: Trunk, c: nat)
    requires c < |x.leaves|
    ensures WithoutLeaf(x, c).no == x.no && x.leaves[c] in One(x)
    ensures One(WithoutLeaf(x, c)) == One(x) - multiset{x.leaves[c]}
  {
    var k := |x.leaves|;
    var y := if c < k - 1 then x.leaves[c := x.leaves[k - 1]] else x.leaves;
    assert y == y[..k - 1] + [y[k - 1]];
    assert x.leaves == x.leaves[..k - 1] + [x.leaves[k - 1]];
  }

  /** The first leaf of a trunk becomes the trunk. */
  function Promoted(x: Trunk): Trunk
    requires x.leaves != []
  {
    Trunk(x.leaves[0], x.leaves[1..])
  }

  lemma PromotedOne(x: Trunk)
    requires x.leaves != []
    ensures One(Promoted(x)) == One(x) - multiset{x.no}
  {
    assert x.leaves == [x.leaves[0]] + x.leaves[1..];
  }

  lemma Replaced(list: seq<Trunk>, t: nat, y: Trunk, p: nat)
    requires t < |list| && p in One(list[t]) && One(y) == One(list[t]) - multiset{p}
    ensures All(list[t := y]) == All(list) - multiset{p}
  {
    hide All, One;
    AllSplit(list, t);
    AllSplit(list[t := y], t);
    assert list[t := y][..t] == list[..t] && list[t := y][t + 1..] == list[t + 1..];
  }

  lemma Dropped(list: seq<Trunk>, t: nat)
    requires t < |list| && list[t].leaves == []
    ensures All(list[..t] + list[t + 1..]) == All(list) - multiset{list[t].no}
  {
    AllSplit(list, t);
    AllCat(list[..t], list[t + 1..]);
  }

  lemma StillNoRepeats(m: multiset<nat>, p: nat)
    requires NoRepeats(m) && p in m
    ensures NoRepeats(m - multiset{p}) && p !in m - multiset{p} && |m - multiset{p}| == |m| - 1
    ensures forall x :: x in m - multiset{p} <==> x in m && x != p
  {
  }

  // ---- the pages of the shortened list

  function FirstSet(p: Page, v: nat): (q: Page)
    requires |p| > COUNT
    ensures |q| == |p|
  {
    p[FIRST := v]
  }

  /** Write v where the number of the t-th trunk is kept. */
  function SetLink(pages: map<nat, Page>, list: seq<Trunk>, t: nat, v: nat): map<nat, Page>
    requires Chain(pages, list) && t <= |list|
  {
    if t == 0 then
      pages[1 := FirstSet(pages[1], v)]
    else
      assert IsTrunk(pages[list[t - 1].no], list[t - 1], No(list, t));
      var p: Page := pages[list[t - 1].no];
      pages[list[t - 1].no := p[0 := v]]
  }

  lemma Trunks(list: seq<Trunk>, s: nat, t: nat)
    requires NoRepeats(All(list)) && 1 !in All(list) && s < |list| && t < |list|
    ensures list[s].no != 1 && list[s].no in All(list) && (s != t ==> list[s].no != list[t].no)
  {
    AllSplit(list, s);
    if s != t {
      Apart(list, s, t, list[s].no);
    }
  }

  /** A trunk page with other leaves, and the same next trunk. */
  lemma Rewritten(pages: map<nat, Page>, list: seq<Trunk>, t: nat, q: Page, y: Trunk)
    requires Chain(pages, list) && t < |list| && y.no == list[t].no && IsTrunk(q, y, No(list, t + 1))
    ensures Linked(pages[y.no := q], list[t := y])
  {
    hide All, IsTrunk;
    var ps, ys := pages[y.no := q], list[t := y];
    forall s | 0 <= s < |ys| ensures ys[s].no in ps && IsTrunk(ps[ys[s].no], ys[s], No(ys, s + 1)) {
      Trunks(list, s, t);
    }
  }

  lemma Relinked(p: Page, x: Trunk, next: nat, v: nat)
    requires IsTrunk(p, x, next)
    ensures IsTrunk(p[0 := v], x, v)
  {
    assert p[0 := v][2..2 + |x.leaves|] == p[2..2 + |x.leaves|];
  }

  /** The t-th trunk is skipped. */
  lemma Skipped(pages: map<nat, Page>, list: seq<Trunk>, t: nat)
    requires Chain(pages, list) && t < |list|
    ensures Linked(SetLink(pages, list, t, No(list, t + 1)), list[..t] + list[t + 1..])
  {
    hide Chain, All, IsTrunk;
    var ps, ys := SetLink(pages, list, t, No(list, t + 1)), list[..t] + list[t + 1..];
    forall s | 0 <= s < |ys| ensures ys[s].no in ps && IsTrunk(ps[ys[s].no], ys[s], No(ys, s + 1)) {
      var r := if s < t then s else s + 1;
      assert ys[s] == list[r] && No(ys, s + 1) == if s == t - 1 then No(list, t + 1) else No(list, r + 1);
      LinkSeen(pages, list, t, No(list, t + 1), r);
    }
  }

  /** After a link is written, the other trunks are as they were, and the trunk before leads to the new one. */
  lemma LinkSeen(pages: map<nat, Page>, list: seq<Trunk>, t: nat, v: nat, r: nat)
    requires Chain(pages, list) && t <= |list| && r < |list|
    ensures var ps := SetLink(pages, list, t, v);
      list[r].no in ps && IsTrunk(ps[list[r].no], list[r], if r == t - 1 then v else No(list, r + 1))
  {
    hide All, IsTrunk;
    assert IsTrunk(pages[list[r].no], list[r], No(list, r + 1));
    Trunks(list, r, if t == 0 then r else t - 1);
    Relinked(pages[list[r].no], list[r], No(list, r + 1), v);
  }

  /** The first leaf of the t-th trunk takes over from it. */
  lemma TakenOver(pages: map<nat, Page>, list: seq<Trunk>, t: nat, q: Page)
    requires Chain(pages, list) && t < |list| && list[t].leaves != [] && IsTrunk(q, Promoted(list[t]), No(list, t + 1))
    ensures var v := list[t].leaves[0];
      && (forall s :: 0 <= s < |list| ==> list[s].no != v)
      && Linked(SetLink(pages, list, t, v)[v := q], list[t := Promoted(list[t])])
  {
    hide All;
    var v := list[t].leaves[0];
    var ps, ys := SetLink(pages, list, t, v)[v := q], list[t := Promoted(list[t])];
    forall s | 0 <= s < |list| ensures list[s].no != v {
      assert v in One(list[t]);
      Apart(list, t, s, v);
    }
    forall s | 0 <= s < |ys| ensures ys[s].no in ps && IsTrunk(ps[ys[s].no], ys[s], No(ys, s + 1)) {
      if s != t {
        assert IsTrunk(pages[list[s].no], list[s], No(list, s + 1));
        Trunks(list, s, if t == 0 then s else t - 1);
      }
    }
  }

  // ---- what one call does to the chain

  /** A changed link shows in the header only for the first trunk. */
  lemma LinkHeader(pages: map<nat, Page>, list: seq<Trunk>, t: nat, v: nat)
    requires Chain(pages, list) && t <= |list|
    ensures var ps := SetLink(pages, list, t, v);
      && ps.Keys == pages.Keys && |ps[1]| == |pages[1]| && ps[1][FIRST] == (if t == 0 then v else pages[1][FIRST])
      && ps[1][COUNT] == pages[1][COUNT]
  {
    if t > 0 {
      Trunks(list, t - 1, t - 1);
    }
  }

  lemma ChainShrunk(ps: map<nat, Page>, ys: seq<Trunk>, m: multiset<nat>, p: nat)
    requires NoRepeats(m) && 1 !in m && 0 !in m && All(ys) == m - multiset{p}
    requires 1 in ps && |ps[1]| > COUNT && ps[1][FIRST] == No(ys, 0) && Linked(ps, ys)
    ensures Chain(ps, ys)
  {
    hide All, Linked;
  }

  lemma ChainGrown(ps: map<nat, Page>, ys: seq<Trunk>, m: multiset<nat>, p: nat)
    requires NoRepeats(m) && 1 !in m && 0 !in m && All(ys) == m + multiset{p} && p !in m && p > 1
    requires 1 in ps && |ps[1]| > COUNT && ps[1][FIRST] == No(ys, 0) && Linked(ps, ys)
    ensures Chain(ps, ys)
  {
    hide All, Linked;
  }

  /** A trunk without leaves is taken. */
  lemma TrunkTaken(pages: map<nat, Page>, list: seq<Trunk>, t: nat)
    requires Chain(pages, list) && t < |list| && list[t].leaves == []
    ensures var ys := list[..t] + list[t + 1..];
      && Chain(SetLink(pages, list, t, No(list, t + 1)), ys)
      && All(ys) == All(list) - multiset{list[t].no} && list[t].no in All(list)
  {
    var ys, x := list[..t] + list[t + 1..], list[t].no;
    Skipped(pages, list, t);
    Dropped(list, t);
    Trunks(list, t, t);
    LinkHeader(pages, list, t, No(list, t + 1));
    assert No(ys, 0) == if t == 0 then No(list, 1) else No(list, 0);
    hide IsTrunk, Linked, All, One, NoRepeats, SetLink;
    ChainShrunk(SetLink(pages, list, t, No(list, t + 1)), ys, All(list), x);
  }

  /** A trunk with leaves is taken: the first leaf takes its place. */
  lemma TrunkReplaced(pages: map<nat, Page>, list: seq<Trunk>, t: nat, q: Page)
    requires Chain(pages, list) && t < |list| && list[t].leaves != [] && IsTrunk(q, Promoted(list[t]), No(list, t + 1))
    ensures var v, ys := list[t].leaves[0], list[t := Promoted(list[t])];
      && v != 1 && v != 0 && (forall s :: 0 <= s < |list| ==> list[s].no != v)
      && Chain(SetLink(pages, list, t, v)[v := q], ys) && All(ys) == All(list) - multiset{list[t].no}
      && list[t].no in All(list)
  {
    var v, x, ys := list[t].leaves[0], list[t], list[t := Promoted(list[t])];
    TakenOver(pages, list, t, q);
    PromotedOne(x);
    Trunks(list, t, t);
    assert v in One(x) && x.no in One(x);
    InSome(list, v);
    LinkHeader(pages, list, t, v);
    hide IsTrunk, Linked, All, One, NoRepeats, SetLink;
    Replaced(list, t, Promoted(x), x.no);
    ChainShrunk(SetLink(pages, list, t, v)[v := q], ys, All(list), x.no);
  }

  /** A leaf is taken. */
  lemma LeafTaken(pages: map<nat, Page>, list: seq<Trunk>, t: nat, c: nat, q: Page)
    requires Chain(pages, list) && t < |list| && c < |list[t].leaves|
    requires IsTrunk(q, WithoutLeaf(list[t], c), No(list, t + 1))
    ensures var ys, p := list[t := WithoutLeaf(list[t], c)], list[t].leaves[c];
      Chain(pages[list[t].no := q], ys) && All(ys) == All(list) - multiset{p} && p in All(list) && list[t].no != 1
  {
    hide IsTrunk, Linked, All, One, NoRepeats, WithoutLeaf;
    var p, y := list[t].leaves[c], WithoutLeaf(list[t], c);
    WithoutLeafOne(list[t], c);
    Rewritten(pages, list, t, q, y);
    InSome(list, p);
    Trunks(list, t, t);
    Replaced(list, t, y, p);
    ChainShrunk(pages[list[t].no := q], list[t := y], All(list), p);
  }

  /** A page becomes a leaf of the first trunk. */
  lemma LeafAdded(pages: map<nat, Page>, list: seq<Trunk>, x: nat, q: Page)
    requires Chain(pages, list) && list != [] && x !in All(list) && x > 1
    requires IsTrunk(q, Trunk(list[0].no, list[0].leaves + [x]), No(list, 1))
    ensures var ys := list[0 := Trunk(list[0].no, list[0].leaves + [x])];
      Chain(pages[list[0].no := q], ys) && All(ys) == All(list) + multiset{x} && list[0].no != 1
  {
    var y := Trunk(list[0].no, list[0].leaves + [x]);
    Rewritten(pages, list, 0, q, y);
    assert list[0 := y][1..] == list[1..];
    Trunks(list, 0, 0);
    assert One(y) == One(list[0]) + multiset{x};
    assert All(list[0 := y]) == All(list) + multiset{x};
    hide IsTrunk, Linked, All, One, NoRepeats;
    ChainGrown(pages[list[0].no := q], list[0 := y], All(list), x);
  }

  /** A page becomes the first trunk. */
  lemma TrunkAdded(pages: map<nat, Page>, list: seq<Trunk>, x: nat, q: Page)
    requires Chain(pages, list) && x !in All(list) && x > 1 && IsTrunk(q, Trunk(x, []), No(list, 0))
    ensures var ys := [Trunk(x, [])] + list;
      Chain(pages[x := q][1 := FirstSet(pages[1], x)], ys) && All(ys) == All(list) + multiset{x}
  {
    hide IsTrunk, Linked, NoRepeats, All;
    var ys := [Trunk(x, [])] + list;
    LinkedBehind(pages, list, x, q);
    TrunkInFront(list, x);
    ChainGrown(pages[x := q][1 := FirstSet(pages[1], x)], ys, All(list), x);
  }

  lemma TrunkInFront(list: seq<Trunk>, x: nat)
    ensures All([Trunk(x, [])] + list) == All(list) + multiset{x}
  {
    assert ([Trunk(x, [])] + list)[1..] == list;
  }

  lemma LinkedBehind(pages: map<nat, Page>, list: seq<Trunk>, x: nat, q: Page)
    requires Chain(pages, list) && x !in All(list) && x > 1 && IsTrunk(q, Trunk(x, []), No(list, 0))
    ensures Linked(pages[x := q][1 := FirstSet(pages[1], x)], [Trunk(x, [])] + list)
  {
    hide IsTrunk, All, NoRepeats;
    var ys, ps := [Trunk(x, [])] + list, pages[x := q][1 := FirstSet(pages[1], x)];
    forall s | 0 <= s < |ys| ensures ys[s].no in ps && IsTrunk(ps[ys[s].no], ys[s], No(ys, s + 1)) {
      if s > 0 {
        assert ys[s] == list[s - 1];
        Trunks(list, s - 1, s - 1);
      }
    }
  }

  lemma {:induction false} FewTrunks(list: seq<Trunk>)
    ensures |list| <= |All(list)|
  {
    if list != [] {
      FewTrunks(list[1..]);
    }
  }
}
