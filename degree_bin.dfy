/**
 * The degree bin as values: the seed layout make_list writes, the
 * preferential sampling of one attachment step (draw a bin entry, then drop
 * every copy of the drawn node before the next draw), and np.bincount.
 */
module DegreeBin {
  import opened Seqs

  /** numpy's trimmed[trimmed != x]: s with every copy of x removed, in order. */
  function Filter(s: seq<nat>, x: nat): (r: seq<nat>)
    ensures multiset(r) == multiset(s)[x := 0]
    ensures forall y :: y in r <==> y in s && y != x
  {
    if s == [] then []
    else
      assert s == [s[0]] + s[1..];
      (if s[0] == x then [] else [s[0]]) + Filter(s[1..], x)
  }

  /** xs in front of the drawn sequence, or no sequence when the draw failed. */
  function Prefixed(xs: seq<nat>, o: Option<seq<nat>>): Option<seq<nat>>
  {
    match o
    case None => None
    case Some(ys) => Some(xs + ys)
  }

  lemma PrefixedFacts(xs: seq<nat>, ys: seq<nat>, o: Option<seq<nat>>)
    ensures Prefixed([], o) == o
    ensures Prefixed(xs, Prefixed(ys, o)) == Prefixed(xs + ys, o)
  {
    if o.Some? {
      assert [] + o.value == o.value;
      assert xs + (ys + o.value) == (xs + ys) + o.value;
    }
  }

  /**
   * The targets one attachment step draws from pool, one per entry of draws.
   * random.choice(trimmed) is trimmed[r % |trimmed|] for the draw's random
   * number r, so every element of the current array can be the outcome.
   * After a draw every copy of the drawn node leaves the array. An empty
   * array makes random.choice fail (None).
   */
  function Draw(pool: seq<nat>, draws: seq<nat>): (r: Option<seq<nat>>)
    ensures r.Some? ==> |r.value| == |draws|
    ensures r.Some? ==> Distinct(r.value)
    ensures r.Some? ==> forall i :: 0 <= i < |r.value| ==> r.value[i] in pool
    decreases |draws|
  {
    if draws == [] then Some([])
    else if pool == [] then None
    else
      var x := pool[draws[0] % |pool|];
      Prefixed([x], Draw(Filter(pool, x), draws[1..]))
  }

  /** Sampling succeeds exactly when the pool holds at least as many distinct nodes as there are draws. */
  lemma {:induction false} DrawSucceeds(pool: seq<nat>, draws: seq<nat>)
    ensures Draw(pool, draws).Some? <==> |draws| <= |Values(pool)|
    decreases |draws|
  {
    if draws != [] {
      if pool == [] {
        assert Values(pool) == {};
      } else {
        var x := pool[draws[0] % |pool|];
        var rest := Filter(pool, x);
        DrawSucceeds(rest, draws[1..]);
        assert Draw(pool, draws).Some? <==> Draw(rest, draws[1..]).Some?;
        forall y ensures y in Values(rest) <==> y in Values(pool) - {x} {
          assert y in Values(rest) <==> y in rest;
        }
        assert Values(rest) == Values(pool) - {x};
        assert x in Values(pool);
        assert |Values(rest)| == |Values(pool)| - 1;
      }
    }
  }

  /** The first k seed nodes, each written m times in a row. */
  function SeedLayout(m: nat, k: nat): seq<nat>
  {
    if k == 0 then [] else SeedLayout(m, k - 1) + Repeat(k - 1, m)
  }

  /**
   * The seed layout has k*m slots; each node below k occurs m times and no
   * other value occurs.
   */
  lemma {:induction false} SeedLayoutCounts(m: nat, k: nat)
    ensures |SeedLayout(m, k)| == k * m
    ensures forall v: nat :: multiset(SeedLayout(m, k))[v] == if v < k then m else 0
  {
    if k > 0 {
      SeedLayoutCounts(m, k - 1);
      RepeatCount(k - 1, m);
      assert k * m == (k - 1) * m + m;
    }
  }

  /** Slot p of the seed layout holds the node i with i*m <= p < i*m + m, so slot i*m + j holds i. */
  lemma {:induction false} SeedLayoutSlots(m: nat, k: nat)
    ensures |SeedLayout(m, k)| == k * m
    ensures forall p :: 0 <= p < |SeedLayout(m, k)| ==>
              SeedLayout(m, k)[p] * m <= p < SeedLayout(m, k)[p] * m + m
  {
    SeedLayoutCounts(m, k);
    if k > 0 {
      var i := k - 1;
      SeedLayoutSlots(m, i);
      assert k * m == i * m + m;
      forall p | 0 <= p < |SeedLayout(m, k)|
        ensures SeedLayout(m, k)[p] * m <= p < SeedLayout(m, k)[p] * m + m
      {
        if p >= i * m {
          assert SeedLayout(m, k)[p] == i;
        }
      }
    }
  }

  /** Counts d with one more copy of x, lengthened with zeros when x is new. */
  function Bump(d: seq<nat>, x: nat): (r: seq<nat>)
    ensures |r| == if x < |d| then |d| else x + 1
    ensures forall v :: 0 <= v < |r| ==> r[v] == (if v < |d| then d[v] else 0) + (if v == x then 1 else 0)
  {
    if x < |d| then d[x := d[x] + 1] else d + Repeat(0, x - |d|) + [1]
  }

  /**
   * np.bincount(s): entry v is the number of copies of v in s; the length is
   * one more than the largest value, or 0 for an empty s.
   */
  function BinCount(s: seq<nat>): (d: seq<nat>)
    ensures |d| == if s == [] then 0 else Max(s) + 1
    ensures forall v :: 0 <= v < |d| ==> d[v] == multiset(s)[v]
    decreases |s|
  {
    if s == [] then []
    else
      var init, x := s[..|s| - 1], s[|s| - 1];
      assert s == init + [x];
      Bump(BinCount(init), x)
  }

  /** One more copy of x adds one to the total of the counts. */
  lemma SumBump(d: seq<nat>, x: nat)
    ensures Sum(Bump(d, x)) == Sum(d) + 1
  {
    if x < |d| {
      SumUpdate(d, x, d[x] + 1);
    } else {
      SumAppend(d + Repeat(0, x - |d|), [1]);
      SumAppend(d, Repeat(0, x - |d|));
      SumZeros(x - |d|);
      assert Sum([1]) == 1 by { assert [1][..0] == []; }
    }
  }

  /** The counts of np.bincount add up to the length of the counted sequence. */
  lemma {:induction false} SumBinCount(s: seq<nat>)
    ensures Sum(BinCount(s)) == |s|
    decreases |s|
  {
    if s != [] {
      var init, x := s[..|s| - 1], s[|s| - 1];
      SumBinCount(init);
      SumBump(BinCount(init), x);
    }
  }
}
