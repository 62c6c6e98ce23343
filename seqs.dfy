/**
 * Small facts about sequences and sets of node identifiers that the
 * degree bin and the graph model share.
 */
module Seqs {

  datatype Option<T> = None | Some(value: T)

  /** The distinct values occurring in s. */
  function Values(s: seq<nat>): set<nat>
  {
    set x | x in s
  }

  /** No value occurs twice in s. */
  predicate Distinct(s: seq<nat>)
  {
    forall i, j :: 0 <= i < j < |s| ==> s[i] != s[j]
  }

  /** k copies of x. */
  function Repeat(x: nat, k: nat): seq<nat>
  {
    seq(k, _ => x)
  }

  lemma {:induction false} RepeatCount(x: nat, k: nat)
    ensures forall v: nat :: multiset(Repeat(x, k))[v] == if v == x then k else 0
  {
    if k == 0 {
      assert Repeat(x, 0) == [];
    } else {
      RepeatCount(x, k - 1);
      assert Repeat(x, k) == Repeat(x, k - 1) + [x];
    }
  }

  /** The identifiers 0, 1, ..., k-1 in increasing order. */
  function Iota(k: nat): seq<nat>
  {
    seq(k, i requires 0 <= i => i as nat)
  }

  lemma {:induction false} IotaCount(k: nat)
    ensures forall v: nat :: multiset(Iota(k))[v] == if v < k then 1 else 0
  {
    if k > 0 {
      IotaCount(k - 1);
      assert Iota(k) == Iota(k - 1) + [k - 1];
    }
  }

  /** The identifiers 0 .. k-1 as a set. */
  function Range(k: nat): set<nat>
  {
    if k == 0 then {} else Range(k - 1) + {k - 1}
  }

  lemma {:induction false} RangeFacts(k: nat)
    ensures forall v: nat :: v in Range(k) <==> v < k
    ensures |Range(k)| == k
  {
    if k > 0 {
      RangeFacts(k - 1);
    }
  }

  /** A subset of a finite set is no larger than the set. */
  lemma SubsetSize(a: set<nat>, b: set<nat>)
    requires a <= b
    ensures |a| <= |b|
  {
    assert b == a + (b - a);
  }

  /** The largest value of a non-empty sequence. */
  function Max(s: seq<nat>): (r: nat)
    requires s != []
    ensures r in s
    ensures forall i :: 0 <= i < |s| ==> s[i] <= r
  {
    if |s| == 1 then s[0]
    else
      var rest := Max(s[..|s| - 1]);
      if s[|s| - 1] > rest then s[|s| - 1] else rest
  }

  function Sum(s: seq<nat>): nat
  {
    if s == [] then 0 else Sum(s[..|s| - 1]) + s[|s| - 1]
  }

  lemma {:induction false} SumAppend(a: seq<nat>, b: seq<nat>)
    ensures Sum(a + b) == Sum(a) + Sum(b)
    decreases |b|
  {
    if b == [] {
      assert a + b == a;
    } else {
      var init := b[..|b| - 1];
      assert (a + b)[..|a + b| - 1] == a + init;
      SumAppend(a, init);
    }
  }

  lemma {:induction false} SumZeros(k: nat)
    ensures Sum(Repeat(0, k)) == 0
  {
    if k > 0 {
      assert Repeat(0, k)[..k - 1] == Repeat(0, k - 1);
      SumZeros(k - 1);
    }
  }

  /** Replacing one entry changes the sum by the difference. */
  lemma {:induction false} SumUpdate(d: seq<nat>, x: nat, y: nat)
    requires x < |d|
    ensures Sum(d[x := y]) + d[x] == Sum(d) + y
    decreases |d|
  {
    var n := |d| - 1;
    if x == n {
      assert d[x := y][..n] == d[..n];
    } else {
      assert d[x := y][..n] == d[..n][x := y];
      SumUpdate(d[..n], x, y);
    }
  }

  /** 0 + 1 + ... + (k-1): the number of edges of a complete graph on k nodes. */
  function Triangle(k: nat): nat
  {
    if k == 0 then 0 else Triangle(k - 1) + (k - 1)
  }

  lemma {:induction false} TriangleValue(k: nat)
    ensures 2 * Triangle(k) == k * (k - 1)
  {
    if k > 0 {
      TriangleValue(k - 1);
      assert k * (k - 1) == (k - 1) * (k - 2) + 2 * (k - 1);
    }
  }
}
