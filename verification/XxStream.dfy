/**
  Hashing a stream by stripes: four lanes are updated by whole stripes of the input, and what is left of
  an update waits in a buffer for the next one.  Both forms of xxHash are instances.
 */
module XxStream {

  import opened Basics

  type Byte = bv8

  datatype Lanes<W> = Lanes(v1: W, v2: W, v3: W, v4: W)

  /** The size of a stripe, and how the lanes take one in. */
  datatype Striper<!W> = Striper(size: nat, round: (Lanes<W>, seq<Byte>) -> Lanes<W>)

  /** The state of a stream between updates; the total length is kept in 64 bits. */
  datatype State<W> = State(total: nat, lanes: Lanes<W>, memory: seq<Byte>)

  /** The lanes after the first k stripes of the data. */
  function Stripes<W>(a: Striper<W>, l: Lanes<W>, data: seq<Byte>, k: nat): Lanes<W>
    requires k * a.size <= |data|
  {
    if k == 0 then l
    else
      Below(k - 1, k, a.size);
      a.round(Stripes(a, l, data, k - 1), data[(k - 1) * a.size..k * a.size])
  }

  lemma Below(j: nat, k: nat, n: nat)
    requires j <= k
    ensures j * n <= k * n
    ensures (k + 1) * n == k * n + n
  {
  }

  /** All whole stripes of the data. */
  function Whole<W>(a: Striper<W>, data: seq<Byte>): (k: nat)
    requires 0 < a.size
    ensures k * a.size <= |data| < k * a.size + a.size
    ensures |data| - k * a.size == |data| % a.size
  {
    |data| / a.size
  }

  lemma LastStripe<W>(a: Striper<W>, l: Lanes<W>, data: seq<Byte>, k: nat)
    requires k > 0 && k * a.size <= |data|
    ensures 0 <= (k - 1) * a.size == k * a.size - a.size
    ensures Stripes(a, l, data, k) == a.round(Stripes(a, l, data, k - 1), data[k * a.size - a.size..k * a.size])
  {
    Below(k - 1, k, a.size);
  }

  lemma SliceBefore<T>(p: seq<T>, q: seq<T>, b: nat, e: nat)
    requires b <= e <= |p|
    ensures (p + q)[b..e] == p[b..e]
  {
  }

  lemma SliceBehind<T>(p: seq<T>, q: seq<T>, b: nat, e: nat)
    requires b <= e <= |q|
    ensures (p + q)[|p| + b..|p| + e] == q[b..e]
  {
  }

  /** What follows the first stripes does not matter to them. */
  lemma {:induction false} StripesPrefix<W>(a: Striper<W>, l: Lanes<W>, data: seq<Byte>, more: seq<Byte>, k: nat)
    requires k * a.size <= |data|
    ensures Stripes(a, l, data + more, k) == Stripes(a, l, data, k)
  {
    if k > 0 {
      LastStripe(a, l, data, k);
      LastStripe(a, l, data + more, k);
      hide Stripes;
      StripesPrefix(a, l, data, more, k - 1);
      SliceBefore(data, more, k * a.size - a.size, k * a.size);
    }
  }

  /** Stripes are taken in one after the other: j of the data, then k of the rest. */
  lemma {:induction false} StripesSplit<W>(a: Striper<W>, l: Lanes<W>, data: seq<Byte>, rest: seq<Byte>, j: nat, k: nat)
    requires j * a.size == |data| && k * a.size <= |rest|
    ensures (j + k) * a.size == j * a.size + k * a.size
    ensures Stripes(a, l, data + rest, j + k) == Stripes(a, Stripes(a, l, data, j), rest, k)
  {
    Sum(j, k, a.size);
    if k == 0 {
      StripesPrefix(a, l, data, rest, j);
    } else {
      hide Stripes;
      LastStripe(a, l, data + rest, j + k);
      LastStripe(a, Stripes(a, l, data, j), rest, k);
      StripesSplit(a, l, data, rest, j, k - 1);
      SliceBehind(data, rest, k * a.size - a.size, k * a.size);
    }
  }

  lemma Sum(j: nat, k: nat, n: nat)
    ensures (j + k) * n == j * n + k * n
  {
  }

  // ---- the stream

  /** One update, as the code does it: fill the buffer, or empty it and take in what whole stripes there are. */
  function Updated<W>(a: Striper<W>, s: State<W>, input: seq<Byte>): State<W>
    requires |s.memory| < a.size
  {
    var total := (s.total + |input|) % U64;
    if |s.memory| + |input| < a.size then State(total, s.lanes, s.memory + input)
    else
      var fill := if s.memory == [] then 0 else a.size - |s.memory|;
      var lanes := if s.memory == [] then s.lanes else a.round(s.lanes, s.memory + input[..fill]);
      var rest := input[fill..];
      var k := Whole(a, rest);
      State(total, Stripes(a, lanes, rest, k), rest[k * a.size..])
  }

  /** The state is what the data leaves behind, taken in at once from lanes l. */
  predicate Shows<W(==)>(a: Striper<W>, l: Lanes<W>, s: State<W>, data: seq<Byte>)
    requires 0 < a.size
  {
    var k := Whole(a, data);
    s == State(|data| % U64, Stripes(a, l, data, k), data[k * a.size..])
  }

  lemma WholeIs<W>(a: Striper<W>, data: seq<Byte>, k: nat)
    requires 0 < a.size && k * a.size <= |data| < k * a.size + a.size
    ensures Whole(a, data) == k
  {
    var d := Whole(a, data);
    if d < k { Below(d + 1, k, a.size); Below(d, d, a.size); }
    if k < d { Below(k + 1, d, a.size); Below(k, k, a.size); }
  }

  /** The buffer is filled up to a whole number of stripes, which are taken in. */
  lemma Filled<W>(a: Striper<W>, l: Lanes<W>, s: State<W>, data: seq<Byte>, input: seq<Byte>) returns (i: nat)
    requires 0 < a.size && Shows(a, l, s, data) && |s.memory| + |input| >= a.size
    ensures var fill := if s.memory == [] then 0 else a.size - |s.memory|;
      && fill <= |input| && i * a.size == |data| + fill
      && Stripes(a, l, data + input[..fill], i) ==
        if s.memory == [] then s.lanes else a.round(s.lanes, s.memory + input[..fill])
  {
    var j := Whole(a, data);
    if s.memory == [] {
      i := j;
      assert data + input[..0] == data;
    } else {
      i := j + 1;
      var x := input[..a.size - |s.memory|];
      Below(j, j, a.size);
      StripesPrefix(a, l, data, x, j);
      assert (data + x)[j * a.size..(j + 1) * a.size] == s.memory + x;
    }
  }

  /** An update leads from what shows the data to what shows the data with the input behind it. */
  lemma UpdateShows<W>(a: Striper<W>, l: Lanes<W>, s: State<W>, data: seq<Byte>, input: seq<Byte>)
    requires 0 < a.size && Shows(a, l, s, data)
    ensures |s.memory| == |data| % a.size && Shows(a, l, Updated(a, s, input), data + input)
  {
    hide Stripes;
    var j, all := Whole(a, data), data + input;
    if |s.memory| + |input| < a.size {
      WholeIs(a, all, j);
      StripesPrefix(a, l, data, input, j);
      assert all[j * a.size..] == s.memory + input;
      TotalStep(|data|, |input|);
    } else {
      var i := Filled(a, l, s, data, input);
      var fill := if s.memory == [] then 0 else a.size - |s.memory|;
      TakenIn(a, l, data, input, fill, i);
    }
  }

  lemma TotalStep(x: nat, n: nat)
    ensures (x % U64 + n) % U64 == (x + n) % U64
  {
  }

  lemma TakenIn<W>(a: Striper<W>, l: Lanes<W>, data: seq<Byte>, input: seq<Byte>, fill: nat, i: nat)
    requires 0 < a.size && fill <= |input| && i * a.size == |data| + fill
    ensures var lanes := Stripes(a, l, data + input[..fill], i); var rest := input[fill..];
      var k := Whole(a, rest);
      Shows(a, l, State((|data| % U64 + |input|) % U64, Stripes(a, lanes, rest, k), rest[k * a.size..]), data + input)
  {
    hide Stripes, Whole;
    var done, rest := data + input[..fill], input[fill..];
    var k := Whole(a, rest);
    assert done + rest == data + input;
    StripesSplit(a, l, done, rest, i, k);
    WholeIs(a, data + input, i + k);
    assert (data + input)[(i + k) * a.size..] == rest[k * a.size..];
    TotalStep(|data|, |input|);
  }

  // ---- calls: the length of an update is a signed 32-bit number, and so is its sum with what is buffered

  /** A signed number as an argument of memcpy. */
  function SizeOf(len: int): (n: int)
    ensures -HALF <= len < HALF ==> 0 <= n < U64 && (n - len) % U64 == 0
  {
    if len < 0 then U64 + len else len
  }

  /** The sum of the bytes in the buffer and of n more, as the guard of the buffer computes it. */
  function Buffered(memsize: nat, n: nat): int {
    IntOf((memsize + n) % U32)
  }

  /**
    One call of the update function, or None if memcpy is asked to write past the end of the buffer.  (Where the
    sum overflows, the language gives no result at all; the one that wraps around leads there.)
   */
  function Called<W>(a: Striper<W>, s: State<W>, input: seq<Byte>): Option<State<W>>
    requires |s.memory| < a.size && |input| < U32
  {
    if Buffered(|s.memory|, |input|) < a.size && |s.memory| + SizeOf(IntOf(|input|)) > a.size then None
    else Some(Updated(a, s, input))
  }

  /** A call stays within the buffer exactly if what is buffered and the input together are shorter than 2^31. */
  lemma CalledIs<W>(a: Striper<W>, s: State<W>, input: seq<Byte>)
    requires |s.memory| < a.size <= 32 && |input| < U32
    ensures Called(a, s, input) == if |s.memory| + |input| < HALF then Some(Updated(a, s, input)) else None
    ensures |s.memory| + |input| < HALF ==> Buffered(|s.memory|, |input|) == |s.memory| + |input|
    ensures |s.memory| + |input| >= HALF ==>
      Buffered(|s.memory|, |input|) < a.size && |s.memory| + SizeOf(IntOf(|input|)) >= HALF
  {
    hide Updated;
  }

  function Flat(pieces: seq<seq<Byte>>): seq<Byte> {
    if pieces == [] then [] else Flat(pieces[..|pieces| - 1]) + pieces[|pieces| - 1]
  }

  function UpdatedAll<W>(a: Striper<W>, s: State<W>, pieces: seq<seq<Byte>>): (r: State<W>)
    requires 0 < a.size && |s.memory| < a.size
    ensures |r.memory| < a.size
  {
    if pieces == [] then s
    else Updated(a, UpdatedAll(a, s, pieces[..|pieces| - 1]), pieces[|pieces| - 1])
  }

  /** However the data is cut into updates, the state shows all of it. */
  lemma {:induction false} AllShows<W>(a: Striper<W>, l: Lanes<W>, pieces: seq<seq<Byte>>)
    requires 0 < a.size
    ensures Shows(a, l, UpdatedAll(a, State(0, l, []), pieces), Flat(pieces))
  {
    if pieces == [] {
      WholeIs(a, [], 0);
    } else {
      var n := |pieces| - 1;
      AllShows(a, l, pieces[..n]);
      UpdateShows(a, l, UpdatedAll(a, State(0, l, []), pieces[..n]), Flat(pieces[..n]), pieces[n]);
    }
  }

  predicate AllSized(pieces: seq<seq<Byte>>) {
    forall i :: 0 <= i < |pieces| ==> |pieces[i]| < U32
  }

  /** Each piece, with what is in the buffer before it, is shorter than 2^31 bytes. */
  predicate AllFit(size: nat, pieces: seq<seq<Byte>>)
    requires size > 0
  {
    forall i :: 0 <= i < |pieces| ==> |Flat(pieces[..i])| % size + |pieces[i]| < HALF
  }

  lemma AllFitStep(size: nat, pieces: seq<seq<Byte>>)
    requires size > 0 && pieces != []
    ensures var n := |pieces| - 1;
      AllFit(size, pieces) <==> AllFit(size, pieces[..n]) && |Flat(pieces[..n])| % size + |pieces[n]| < HALF
  {
    hide Flat;
    var n := |pieces| - 1;
    forall i | 0 <= i < n ensures pieces[..n][..i] == pieces[..i] && pieces[..n][i] == pieces[i] {
    }
  }

  function CalledAll<W>(a: Striper<W>, s: State<W>, pieces: seq<seq<Byte>>): (r: Option<State<W>>)
    requires |s.memory| < a.size && AllSized(pieces)
    ensures r.Some? ==> |r.value.memory| < a.size
  {
    if pieces == [] then Some(s)
    else
      var r := CalledAll(a, s, pieces[..|pieces| - 1]);
      if r.None? then None else Called(a, r.value, pieces[|pieces| - 1])
  }

  /** A run of calls stays within the buffer exactly if all pieces fit, and then it is a run of updates. */
  lemma {:induction false} CallsAreUpdates<W>(a: Striper<W>, l: Lanes<W>, pieces: seq<seq<Byte>>)
    requires 0 < a.size <= 32 && AllSized(pieces)
    ensures CalledAll(a, State(0, l, []), pieces) ==
      if AllFit(a.size, pieces) then Some(UpdatedAll(a, State(0, l, []), pieces)) else None
  {
    if pieces != [] {
      var n := |pieces| - 1;
      hide Called, Updated, Shows;
      CallsAreUpdates(a, l, pieces[..n]);
      AllFitStep(a.size, pieces);
      var s := UpdatedAll(a, State(0, l, []), pieces[..n]);
      AllShows(a, l, pieces[..n]);
      UpdateShows(a, l, s, Flat(pieces[..n]), pieces[n]);
      CalledIs(a, s, pieces[n]);
    }
  }

  /** A piece shorter than 2^31 bytes need not fit: one byte before it is enough. */
  lemma ShortPieceOverruns<W>(a: Striper<W>, l: Lanes<W>, x: seq<Byte>, y: seq<Byte>)
    requires 1 < a.size <= 32 && |x| == 1 && |y| == HALF - 1
    ensures AllSized([x, y]) && CalledAll(a, State(0, l, []), [x, y]) == None
    ensures CalledAll(a, State(0, l, []), [y]) != None
  {
    hide CalledAll, UpdatedAll, Flat, AllFit;
    OneFits(a.size, y);
    AllFitStep(a.size, [x, y]);
    assert [x, y][..1] == [x];
    FlatOne(x);
    CallsAreUpdates(a, l, [x, y]);
    CallsAreUpdates(a, l, [y]);
  }

  lemma FlatOne(x: seq<Byte>)
    ensures Flat([x]) == x
  {
    assert [x][..0] == [] && Flat([x]) == Flat([]) + x;
  }

  lemma OneFits(size: nat, y: seq<Byte>)
    requires size > 0 && |y| < HALF
    ensures AllFit(size, [y])
  {
    assert Flat([]) == [];
    Quotient(0, size, 0, 0);
    hide Flat;
    assert [y][..0] == [];
  }
}
