/**
 * Barabási–Albert preferential attachment around a pre-allocated degree bin:
 * make_list, the attachment step (BA_step and BA_test_step), the generator
 * gen_BA and the integer bookkeeping of the instrumented loop test_BA.
 *
 * At step t the used prefix of the bin has Used(m, t) slots, and every node
 * occurs in it once per unit of its degree; that is Invariant below, and
 * each step keeps it.
 */
module BarabasiAlbert {
  import opened Seqs
  import opened Graphs
  import opened DegreeBin

  datatype Error =
    | NegativeLength   // np.zeros with a negative length
    | IndexOutOfRange  // the seed loop of make_list writes past the end of the bin
    | EmptyChoice      // random.choice on an empty array

  datatype Result<T> = Success(value: T) | Failure(error: Error)

  datatype Outcome = Pass | Fail(error: Error)

  /** What gen_BA returns: the graph, and with dist the counts of the bin. */
  datatype Built = Built(graph: Graph, hist: Option<seq<nat>>)

  /** The integer series test_BA records; see TestBA. */
  datatype Record = Record(nodeCounts: seq<nat>, edgeCounts: seq<nat>,
                           degreeSums: seq<nat>, luckyDegrees: seq<seq<nat>>)

  /** The largest N whose node identifiers 0 .. N-1 fit the bin's uint16 entries. */
  const MaxNodes: int := 65536

  /** make_list's length: the seed's m*(m+1) slots plus 2m for each later node. */
  function BinLength(N: int, m: nat): int
  {
    m * (m + 1) + 2 * m * (N - m - 1)
  }

  /**
   * used_posns at step t: the seed's slots, then 2m more per step
   * (UsedValue gives the closed form m*(m+1) + 2*m*t).
   */
  function Used(m: nat, t: nat): nat
  {
    if t == 0 then SeedSlots(m) else Used(m, t - 1) + 2 * m
  }

  /**
   * used_posns at t = 0, m*(m+1), written as the sum 2 + 4 + ... + 2m so
   * that no product of two variables appears (SeedSlotsValue gives the
   * product form).
   */
  function SeedSlots(m: nat): nat
  {
    if m == 0 then 0 else SeedSlots(m - 1) + 2 * m
  }

  lemma {:induction false} SeedSlotsValue(m: nat)
    ensures SeedSlots(m) == m * (m + 1)
  {
    if m > 0 {
      SeedSlotsValue(m - 1);
      assert m * (m + 1) == (m - 1) * m + 2 * m;
    }
  }

  lemma {:induction false} UsedValue(m: nat, t: nat)
    ensures Used(m, t) == m * (m + 1) + 2 * m * t
  {
    if t == 0 {
      SeedSlotsValue(m);
    } else {
      UsedValue(m, t - 1);
      assert 2 * m * t == 2 * m * (t - 1) + 2 * m;
    }
  }

  /** The number of iterations of range(N - m - 1). */
  function Steps(N: int, m: nat): nat
  {
    if N - m - 1 > 0 then N - m - 1 else 0
  }

  /**
   * The edge count before step t: the seed's m(m+1)/2 edges plus m per
   * step (EdgesAtValue gives the closed form).
   */
  function EdgesAt(m: nat, t: nat): nat
  {
    if t == 0 then Triangle(m + 1) else EdgesAt(m, t - 1) + m
  }

  lemma {:induction false} EdgesAtValue(m: nat, t: nat)
    ensures EdgesAt(m, t) == Triangle(m + 1) + m * t
  {
    if t == 0 {
    } else {
      EdgesAtValue(m, t - 1);
      assert m * t == m * (t - 1) + m;
    }
  }

  /** The used prefix has two slots per edge: Used(m, t) == 2 * EdgesAt(m, t). */
  lemma {:induction false} UsedEdges(m: nat, t: nat)
    ensures Used(m, t) == 2 * EdgesAt(m, t)
  {
    if t == 0 {
      SeedSlotsValue(m);
      TriangleValue(m + 1);
      assert (m + 1) * (m + 1 - 1) == m * (m + 1);
    } else {
      UsedEdges(m, t - 1);
    }
  }

  /**
   * The state before step t: the nodes are 0 .. m+t, every edge joins two of
   * them and none is a loop, each node's count in the used prefix is its
   * degree, the prefix has two slots per edge, and every node has degree at
   * least m.
   */
  ghost predicate Invariant(nodes: set<nat>, edges: set<Edge>, prefix: seq<nat>, m: nat, t: nat)
  {
    && |prefix| == Used(m, t)
    && nodes == Range(m + t + 1)
    && (forall e :: e in edges ==> e.lo < e.hi <= m + t)
    && (forall k :: 0 <= k < |prefix| ==> prefix[k] <= m + t)
    && (forall v: nat :: multiset(prefix)[v] == Degree(edges, v))
    && 2 * |edges| == |prefix|
    && (forall v :: v in nodes ==> Degree(edges, v) >= m)
  }

  /** The graph and the bin together satisfy Invariant before step t. */
  ghost predicate Consistent(g: Graph, a: array<nat>, m: nat, t: nat)
    reads g, a
  {
    Used(m, t) <= a.Length && Invariant(g.nodes, g.edges, a[..Used(m, t)], m, t)
  }

  /** The seed layout fills the seed's Used(m, 0) slots, two per seed edge. */
  lemma SeedLength(m: nat)
    ensures |SeedLayout(m, m + 1)| == Used(m, 0) == 2 * Triangle(m + 1)
  {
    SeedLayoutCounts(m, m + 1);
    SeedSlotsValue(m);
    UsedEdges(m, 0);
    assert (m + 1) * m == m * (m + 1);
  }

  /** The seed graph and the seed layout of the bin satisfy Invariant before step 0. */
  lemma SeedInvariant(m: nat)
    ensures Invariant(Range(m + 1), CompleteEdges(m + 1), SeedLayout(m, m + 1), m, 0)
  {
    SeedEntries(m, m + 1);
    SeedLayoutCounts(m, m + 1);
    SeedLength(m);
    CompleteDegrees(m + 1);
    CompleteEdgesAre(m + 1);
    RangeFacts(m + 1);
  }

  /** Every slot of the seed layout of k nodes holds one of them. */
  lemma SeedEntries(m: nat, k: nat)
    ensures forall p :: 0 <= p < |SeedLayout(m, k)| ==> SeedLayout(m, k)[p] < k
  {
    var prefix := SeedLayout(m, k);
    SeedLayoutCounts(m, k);
    forall p | 0 <= p < |prefix|
      ensures prefix[p] < k
    {
      assert multiset(prefix)[prefix[p]] > 0;
    }
  }

  /** One more step adds 2m slots to the used prefix. */
  lemma UsedNext(m: nat, t: nat)
    ensures Used(m, t + 1) == Used(m, t) + 2 * m
  {
  }

  /** Before step t the used prefix holds at least m distinct nodes. */
  lemma EnoughValues(nodes: set<nat>, edges: set<Edge>, prefix: seq<nat>, m: nat, t: nat)
    requires Invariant(nodes, edges, prefix, m, t)
    ensures |Values(prefix)| >= m
  {
    RangeFacts(m + t + 1);
    if m > 0 {
      forall v | v in Range(m + t + 1)
        ensures v in Values(prefix)
      {
        assert multiset(prefix)[v] == Degree(edges, v) >= 1;
      }
      SubsetSize(Range(m + t + 1), Values(prefix));
    }
  }

  /** The m targets of a step are distinct nodes taken from the used prefix. */
  lemma DrawnTargets(nodes: set<nat>, edges: set<Edge>, prefix: seq<nat>, m: nat, t: nat, draws: seq<nat>)
    requires Invariant(nodes, edges, prefix, m, t)
    requires |draws| == m
    ensures Draw(prefix, draws).Some?
    ensures var lucky := Draw(prefix, draws).value;
      && |lucky| == m && Distinct(lucky)
      && forall i :: 0 <= i < m ==> lucky[i] in prefix && lucky[i] <= m + t
  {
    EnoughValues(nodes, edges, prefix, m, t);
    DrawSucceeds(prefix, draws);
  }

  /**
   * Appending the targets and |targets| copies of the new node n to a prefix
   * whose counts are the degrees gives the counts of the graph with the star
   * from n added.
   */
  lemma AppendedCounts(edges: set<Edge>, prefix: seq<nat>, n: nat, lucky: seq<nat>)
    requires forall v: nat :: multiset(prefix)[v] == Degree(edges, v)
    requires forall e :: e in edges ==> !Touches(e, n)
    requires n !in lucky && Distinct(lucky)
    ensures edges !! Star(n, lucky)
    ensures |edges + Star(n, lucky)| == |edges| + |lucky|
    ensures forall v: nat :: multiset(prefix + lucky + Repeat(n, |lucky|))[v] == Degree(edges + Star(n, lucky), v)
    ensures forall v: nat :: Degree(edges + Star(n, lucky), v) >= Degree(edges, v)
    ensures Degree(edges + Star(n, lucky), n) >= |lucky|
  {
    StarDegrees(edges, n, lucky);
    RepeatCount(n, |lucky|);
    forall v: nat
      ensures multiset(prefix + lucky + Repeat(n, |lucky|))[v] == Degree(edges + Star(n, lucky), v)
    {
      assert multiset(prefix + lucky + Repeat(n, |lucky|))
          == multiset(prefix) + multiset(lucky) + multiset(Repeat(n, |lucky|));
    }
  }

  /**
   * One attachment step keeps Invariant: sampling finds its m targets, the m
   * new edges from node m+t+1 are new and not loops, and after appending the
   * targets and m copies of the new node each count is again the degree.
   */
  lemma StepPreserves(nodes: set<nat>, edges: set<Edge>, prefix: seq<nat>, m: nat, t: nat, draws: seq<nat>)
    requires Invariant(nodes, edges, prefix, m, t)
    requires |draws| == m
    ensures Draw(prefix, draws).Some?
    ensures var lucky, n := Draw(prefix, draws).value, m + t + 1;
      && edges !! Star(n, lucky)
      && |edges + Star(n, lucky)| == |edges| + m
      && (forall e :: e in Star(n, lucky) ==> e.lo < e.hi == n)
      && nodes + {n} + Values(lucky) == Range(m + t + 2)
      && Invariant(nodes + {n} + Values(lucky), edges + Star(n, lucky), prefix + lucky + Repeat(n, m), m, t + 1)
  {
    DrawnTargets(nodes, edges, prefix, m, t, draws);
    var lucky, n := Draw(prefix, draws).value, m + t + 1;
    assert n !in lucky;
    AppendedCounts(edges, prefix, n, lucky);
    StarMembers(n, lucky);
    RangeFacts(m + t + 1);
    RangeFacts(m + t + 2);
    UsedNext(m, t);
    GrownNodes(m, t, lucky);
    GrownBound(prefix, lucky, m + t, n);
    var edges', prefix' := edges + Star(n, lucky), prefix + lucky + Repeat(n, m);
    forall e | e in Star(n, lucky)
      ensures e.lo < e.hi == n
    {
      assert Other(e, n) in lucky;
    }
    assert forall e :: e in edges' ==> e.lo < e.hi <= m + t + 1;
    forall v | v in nodes + {n} + Values(lucky)
      ensures Degree(edges', v) >= m
    {
      if v != n {
        assert v in nodes;
      }
    }
  }

  /** The nodes after a step: the old ones, the new one, and the targets, which were old. */
  lemma GrownNodes(m: nat, t: nat, lucky: seq<nat>)
    requires forall i :: 0 <= i < |lucky| ==> lucky[i] <= m + t
    ensures Range(m + t + 1) + {m + t + 1} + Values(lucky) == Range(m + t + 2)
  {
    RangeFacts(m + t + 1);
    RangeFacts(m + t + 2);
    assert Values(lucky) <= Range(m + t + 1);
  }

  /** Appending targets below n and copies of n keeps every entry at most n. */
  lemma GrownBound(prefix: seq<nat>, lucky: seq<nat>, bound: nat, n: nat)
    requires forall k :: 0 <= k < |prefix| ==> prefix[k] <= bound
    requires forall i :: 0 <= i < |lucky| ==> lucky[i] <= bound
    requires bound < n
    ensures forall k :: 0 <= k < |prefix + lucky + Repeat(n, |lucky|)| ==> (prefix + lucky + Repeat(n, |lucky|))[k] <= n
  {
  }

  /**
   * StepPreserves for the whole bin: after the step's writes and with the
   * grown graph, the bin and the graph satisfy Invariant before step t+1.
   */
  lemma StepConsistent(nodes: set<nat>, edges: set<Edge>, bin: seq<nat>, m: nat, t: nat, draws: seq<nat>,
                       nodes': set<nat>, edges': set<Edge>, bin': seq<nat>)
    requires Used(m, t) + 2 * m <= |bin|
    requires Invariant(nodes, edges, bin[..Used(m, t)], m, t)
    requires |draws| == m
    requires Draw(bin[..Used(m, t)], draws).Some?
    requires var lucky, n := Draw(bin[..Used(m, t)], draws).value, m + t + 1;
      && nodes' == nodes + {n} + Values(lucky)
      && edges' == edges + Star(n, lucky)
      && bin' == bin[..Used(m, t)] + lucky + Repeat(n, m) + bin[Used(m, t) + 2 * m..]
    ensures var lucky, n := Draw(bin[..Used(m, t)], draws).value, m + t + 1;
      && edges !! Star(n, lucky)
      && |edges'| == |edges| + m
      && (forall e :: e in Star(n, lucky) ==> e.lo < e.hi == n)
    ensures Used(m, t + 1) <= |bin'|
    ensures Invariant(nodes', edges', bin'[..Used(m, t + 1)], m, t + 1)
  {
    var prefix := bin[..Used(m, t)];
    var lucky, n := Draw(prefix, draws).value, m + t + 1;
    UsedNext(m, t);
    WrittenPrefix(bin, Used(m, t), lucky, n, m, Used(m, t + 1), bin');
    StepPreservesAt(nodes, edges, prefix, m, t, draws, nodes', edges', bin'[..Used(m, t + 1)]);
  }

  /**
   * The preferential-attachment shape of the graph before step t: the seed's
   * complete graph on 0 .. m is in place, and each node m+1 .. m+t added by
   * an earlier step has exactly m edges down to older nodes.
   */
  ghost predicate Attached(edges: set<Edge>, m: nat, t: nat)
  {
    && CompleteEdges(m + 1) <= edges
    && forall v :: m < v <= m + t ==> |LowerEdges(edges, v)| == m
  }

  /**
   * A step keeps the shape: the star of m edges from the new node n = m+t+1
   * gives n exactly m edges down to older nodes and adds none below n.
   */
  lemma StepAttaches(nodes: set<nat>, edges: set<Edge>, prefix: seq<nat>, m: nat, t: nat, draws: seq<nat>)
    requires Invariant(nodes, edges, prefix, m, t)
    requires Attached(edges, m, t)
    requires |draws| == m
    ensures Draw(prefix, draws).Some?
    ensures Attached(edges + Star(m + t + 1, Draw(prefix, draws).value), m, t + 1)
  {
    DrawnTargets(nodes, edges, prefix, m, t, draws);
    var lucky := Draw(prefix, draws).value;
    StarBelow(m + t + 1, lucky);
    LowerEdgesGrow(edges, Star(m + t + 1, lucky), m, m + t + 1);
  }

  /**
   * Adding a set of m edges whose upper end is n to edges that all lie below n
   * gives n exactly m lower edges and leaves every other node's lower edges.
   */
  lemma LowerEdgesGrow(edges: set<Edge>, star: set<Edge>, m: nat, n: nat)
    requires m < n
    requires CompleteEdges(m + 1) <= edges
    requires forall e :: e in edges ==> e.hi < n
    requires forall v :: m < v < n ==> |LowerEdges(edges, v)| == m
    requires |star| == m && forall e :: e in star ==> e.hi == n
    ensures CompleteEdges(m + 1) <= edges + star
    ensures forall v :: m < v <= n ==> |LowerEdges(edges + star, v)| == m
  {
    forall v | m < v <= n
      ensures |LowerEdges(edges + star, v)| == m
    {
      if v == n {
        assert LowerEdges(edges + star, v) == star;
      } else {
        assert LowerEdges(edges + star, v) == LowerEdges(edges, v);
      }
    }
  }

  /**
   * StepPreserves, stated for a state known to equal the grown one, so that
   * StepConsistent can pass the bin's new prefix without unfolding Invariant
   * twice.
   */
  lemma StepPreservesAt(nodes: set<nat>, edges: set<Edge>, prefix: seq<nat>, m: nat, t: nat, draws: seq<nat>,
                        nodes': set<nat>, edges': set<Edge>, prefix': seq<nat>)
    requires Invariant(nodes, edges, prefix, m, t)
    requires |draws| == m
    requires Draw(prefix, draws).Some?
    requires var lucky, n := Draw(prefix, draws).value, m + t + 1;
      && nodes' == nodes + {n} + Values(lucky)
      && edges' == edges + Star(n, lucky)
      && prefix' == prefix + lucky + Repeat(n, m)
    ensures var lucky, n := Draw(prefix, draws).value, m + t + 1;
      && edges !! Star(n, lucky)
      && |edges'| == |edges| + m
      && (forall e :: e in Star(n, lucky) ==> e.lo < e.hi == n)
    ensures Invariant(nodes', edges', prefix', m, t + 1)
  {
    StepPreserves(nodes, edges, prefix, m, t, draws);
  }

  /**
   * Writing the m targets and m copies of n after the used prefix extends
   * the prefix by exactly those 2m entries.
   */
  lemma WrittenPrefix(bin: seq<nat>, used: nat, lucky: seq<nat>, n: nat, m: nat, end: nat, bin': seq<nat>)
    requires |lucky| == m && used + 2 * m <= |bin|
    requires bin' == bin[..used] + lucky + Repeat(n, m) + bin[used + 2 * m..]
    requires end == used + 2 * m
    ensures end <= |bin'| && bin'[..end] == bin[..used] + lucky + Repeat(n, m)
  {
  }

  /**
   * The whole run ends with the used prefix filling the bin exactly:
   * make_list's length is the seed slots plus 2m for each of the steps.
   */
  lemma FinalStepFillsBin(N: int, m: nat)
    requires m == 0 || N >= m + 1
    ensures Used(m, Steps(N, m)) == BinLength(N, m)
  {
    UsedValue(m, Steps(N, m));
  }

  /** make_list succeeds exactly when its length covers the seed slots. */
  lemma BinLengthCoversSeed(N: int, m: nat)
    ensures BinLength(N, m) >= m * (m + 1) <==> m == 0 || N >= m + 1
  {
    MulSign(m, N - m - 1);
    assert BinLength(N, m) - m * (m + 1) == 2 * (m * (N - m - 1));
  }

  lemma MulSign(a: int, b: int)
    ensures a >= 0 && b >= 0 ==> a * b >= 0
    ensures a > 0 && b < 0 ==> a * b < 0
  {
  }

  /**
   * make_list(N, m): a zeroed bin of length m*(m+1) + 2m*(N-m-1) whose first
   * m*(m+1) slots hold m copies of each seed node 0 .. m, in order.
   * np.zeros refuses a negative length; a non-negative length below m*(m+1)
   * makes the seed loop write past the end.
   */
  method MakeList(N: int, m: nat) returns (r: Result<array<nat>>)
    ensures r.Failure? <==> 1 <= m && N <= m
    ensures r.Failure? ==> r.error == if BinLength(N, m) < 0 then NegativeLength else IndexOutOfRange
    ensures r.Success? ==>
      && fresh(r.value)
      && r.value.Length == BinLength(N, m)
      && Used(m, 0) <= r.value.Length
      && r.value[..Used(m, 0)] == SeedLayout(m, m + 1)
      && (forall k :: Used(m, 0) <= k < r.value.Length ==> r.value[k] == 0)
  {
    BinLengthCoversSeed(N, m);
    var length := m * (m + 1) + 2 * m * (N - m - 1);
    if length < 0 {
      return Failure(NegativeLength);
    }
    if length < m * (m + 1) {
      return Failure(IndexOutOfRange);
    }
    var a := new nat[length](_ => 0);
    SeedSlotsValue(m);
    FillSeed(a, m);
    return Success(a);
  }

  /** The seed layout only grows as nodes are added to it. */
  lemma {:induction false} SeedLayoutGrows(m: nat, i: nat, k: nat)
    requires i <= k
    ensures |SeedLayout(m, i)| <= |SeedLayout(m, k)|
    decreases k
  {
    if i < k {
      SeedLayoutGrows(m, i, k - 1);
    }
  }

  /**
   * The seed loop of make_list on a zeroed bin: for each node i of 0 .. m,
   * m copies of i in the next m slots.
   */
  method FillSeed(a: array<nat>, m: nat)
    requires Used(m, 0) <= a.Length
    requires forall k :: 0 <= k < a.Length ==> a[k] == 0
    modifies a
    ensures a[..Used(m, 0)] == SeedLayout(m, m + 1)
    ensures forall k :: Used(m, 0) <= k < a.Length ==> a[k] == 0
  {
    SeedLength(m);
    var i: nat := 0;
    var base: nat := 0;  // the first slot of node i
    while i < m + 1
      invariant 0 <= i <= m + 1
      invariant base <= a.Length && a[..base] == SeedLayout(m, i)
      invariant forall k :: base <= k < a.Length ==> a[k] == 0
    {
      SeedLayoutGrows(m, i + 1, m + 1);
      assert SeedLayout(m, i + 1) == SeedLayout(m, i) + Repeat(i, m);
      assert base + m <= a.Length;
      ghost var bin0 := a[..];
      WriteCopies(a, base, i, m);
      assert a[..base + m] == bin0[..base] + Repeat(i, m);
      assert a[..base + m] == SeedLayout(m, i + 1);
      i := i + 1;
      base := base + m;
    }
    assert a[..Used(m, 0)] == a[..base];
  }

  /**
   * The sampling loop of one step over a copy of the used prefix: each draw
   * picks from the current array and then filters every copy of the pick
   * out of it.
   */
  method Sample(pool: seq<nat>, draws: seq<nat>) returns (lucky: Option<seq<nat>>)
    ensures lucky == Draw(pool, draws)
  {
    var picked: seq<nat> := [];
    var trimmed := pool;
    var i := 0;
    assert draws[0..] == draws;
    PrefixedFacts([], [], Draw(pool, draws));
    while i < |draws|
      invariant 0 <= i <= |draws|
      invariant Draw(pool, draws) == Prefixed(picked, Draw(trimmed, draws[i..]))
    {
      if trimmed == [] {
        return None;
      }
      var node := trimmed[draws[i] % |trimmed|];
      assert draws[i..][1..] == draws[i + 1..];
      PrefixedFacts(picked, [node], Draw(Filter(trimmed, node), draws[i + 1..]));
      picked := picked + [node];
      trimmed := Filter(trimmed, node);
      i := i + 1;
    }
    assert draws[i..] == [];
    assert picked + [] == picked;
    return Some(picked);
  }

  /**
   * The body BA_step and BA_test_step share: add node m+t+1, draw m targets
   * from the used prefix, join the new node to each, and write the targets
   * and then m copies of the new node into the next 2m slots; the result is
   * the targets in draw order. When the chosen array runs empty the node has
   * been added and nothing else has changed.
   */
  method AttachStep(g: Graph, a: array<nat>, m: nat, t: nat, draws: seq<nat>) returns (r: Result<seq<nat>>)
    requires Used(m, t) + 2 * m <= a.Length
    requires |draws| == m
    modifies g, a
    ensures r.Failure? <==> Draw(old(a[..Used(m, t)]), draws).None?
    ensures r.Failure? ==>
      && r.error == EmptyChoice
      && g.nodes == old(g.nodes) + {m + t + 1} && g.edges == old(g.edges)
      && a[..] == old(a[..])
    ensures r.Success? ==>
      && r.value == Draw(old(a[..Used(m, t)]), draws).value
      && g.nodes == old(g.nodes) + {m + t + 1} + Values(r.value)
      && g.edges == old(g.edges) + Star(m + t + 1, r.value)
      && a[..] == old(a[..Used(m, t)]) + r.value + Repeat(m + t + 1, m) + old(a[Used(m, t) + 2 * m..])
  {
    ghost var bin0 := a[..];
    var n := m + t + 1;
    var used := Used(m, t);
    g.AddNode(n);
    var drawn := Sample(a[..used], draws);
    if drawn.None? {
      return Failure(EmptyChoice);
    }
    var lucky := drawn.value;
    JoinTargets(g, a, used, n, lucky);
    ghost var bin1 := a[..];
    WriteCopies(a, used + m, n, m);
    TwoWrites(bin0, bin1, a[..], used, lucky, Repeat(n, m));
    r := Success(lucky);
  }

  /** Writing xs at used and then ys right after it writes xs + ys at used. */
  lemma TwoWrites(bin0: seq<nat>, bin1: seq<nat>, bin2: seq<nat>, used: nat, xs: seq<nat>, ys: seq<nat>)
    requires used + |xs| + |ys| <= |bin0|
    requires bin1 == bin0[..used] + xs + bin0[used + |xs|..]
    requires bin2 == bin1[..used + |xs|] + ys + bin1[used + |xs| + |ys|..]
    ensures bin2 == bin0[..used] + xs + ys + bin0[used + |xs| + |ys|..]
  {
    assert bin1[..used + |xs|] == bin0[..used] + xs;
    assert bin1[used + |xs| + |ys|..] == bin0[used + |xs| + |ys|..];
  }

  /**
   * BA_test_step(G, degree_bin, m, t): the step, returning the targets. From
   * a graph and bin that satisfy Invariant before step t it always succeeds,
   * adds m new edges and leaves them satisfying Invariant before step t+1.
   */
  method TestStep(g: Graph, a: array<nat>, m: nat, t: nat, draws: seq<nat>) returns (r: Result<seq<nat>>)
    requires Used(m, t) + 2 * m <= a.Length
    requires |draws| == m
    modifies g, a
    ensures r.Failure? <==> Draw(old(a[..Used(m, t)]), draws).None?
    ensures r.Failure? ==>
      && r.error == EmptyChoice
      && g.nodes == old(g.nodes) + {m + t + 1} && g.edges == old(g.edges)
      && a[..] == old(a[..])
    ensures r.Success? ==>
      && r.value == Draw(old(a[..Used(m, t)]), draws).value
      && g.nodes == old(g.nodes) + {m + t + 1} + Values(r.value)
      && g.edges == old(g.edges) + Star(m + t + 1, r.value)
      && a[..] == old(a[..Used(m, t)]) + r.value + Repeat(m + t + 1, m) + old(a[Used(m, t) + 2 * m..])
    ensures old(Consistent(g, a, m, t)) ==>
      && r.Success?
      && |g.edges| == |old(g.edges)| + m
      && old(g.edges) !! Star(m + t + 1, r.value)
      && (forall e :: e in Star(m + t + 1, r.value) ==> e.lo < e.hi == m + t + 1)
      && Consistent(g, a, m, t + 1)
  {
    ghost var wasConsistent := Consistent(g, a, m, t);
    ghost var nodes0, edges0, bin0 := g.nodes, g.edges, a[..];
    if wasConsistent {
      DrawnTargets(nodes0, edges0, bin0[..Used(m, t)], m, t, draws);
    }
    r := AttachStep(g, a, m, t, draws);
    if wasConsistent {
      StepConsistent(nodes0, edges0, bin0, m, t, draws, g.nodes, g.edges, a[..]);
    }
  }

  /**
   * The edge loop of a step: join n to each target in turn and write the
   * targets into the slots from used on.
   */
  method JoinTargets(g: Graph, a: array<nat>, used: nat, n: nat, lucky: seq<nat>)
    requires used + |lucky| <= a.Length
    requires n in g.nodes
    modifies g, a
    ensures g.nodes == old(g.nodes) + Values(lucky)
    ensures g.edges == old(g.edges) + Star(n, lucky)
    ensures a[..] == old(a[..used]) + lucky + old(a[used + |lucky|..])
  {
    ghost var bin0 := a[..];
    var i := 0;
    while i < |lucky|
      invariant 0 <= i <= |lucky|
      invariant g.nodes == old(g.nodes) + Values(lucky[..i])
      invariant g.edges == old(g.edges) + Star(n, lucky[..i])
      invariant forall k :: 0 <= k < a.Length ==>
                  a[k] == if used <= k < used + i then lucky[k - used] else bin0[k]
    {
      assert lucky[..i + 1][..i] == lucky[..i];
      assert lucky[..i + 1] == lucky[..i] + [lucky[i]];
      g.AddEdge(n, lucky[i]);
      a[used + i] := lucky[i];
      i := i + 1;
    }
    assert lucky[..i] == lucky;
    assert a[..] == bin0[..used] + lucky + bin0[used + |lucky|..];
  }

  /** The last loop of a step: k copies of node n into the slots from start on. */
  method WriteCopies(a: array<nat>, start: nat, n: nat, k: nat)
    requires start + k <= a.Length
    modifies a
    ensures a[..] == old(a[..start]) + Repeat(n, k) + old(a[start + k..])
    ensures forall p :: 0 <= p < a.Length ==> a[p] == if start <= p < start + k then n else old(a[p])
  {
    ghost var bin0 := a[..];
    var i := 0;
    while i < k
      invariant 0 <= i <= k
      invariant forall p :: 0 <= p < a.Length ==>
                  a[p] == if start <= p < start + i then n else bin0[p]
    {
      a[start + i] := n;
      i := i + 1;
    }
    assert a[..] == bin0[..start] + Repeat(n, k) + bin0[start + k..];
  }

  /** BA_step: the same step as TestStep, without returning the targets. */
  method Step(g: Graph, a: array<nat>, m: nat, t: nat, draws: seq<nat>) returns (o: Outcome)
    requires Used(m, t) + 2 * m <= a.Length
    requires |draws| == m
    modifies g, a
    ensures o.Fail? <==> Draw(old(a[..Used(m, t)]), draws).None?
    ensures o.Fail? ==>
      && o.error == EmptyChoice
      && g.nodes == old(g.nodes) + {m + t + 1} && g.edges == old(g.edges)
      && a[..] == old(a[..])
    ensures o.Pass? ==>
      var lucky := Draw(old(a[..Used(m, t)]), draws).value;
      && g.nodes == old(g.nodes) + {m + t + 1} + Values(lucky)
      && g.edges == old(g.edges) + Star(m + t + 1, lucky)
      && a[..] == old(a[..Used(m, t)]) + lucky + Repeat(m + t + 1, m) + old(a[Used(m, t) + 2 * m..])
    ensures old(Consistent(g, a, m, t)) ==> o.Pass? && |g.edges| == |old(g.edges)| + m && Consistent(g, a, m, t + 1)
  {
    var r := TestStep(g, a, m, t, draws);
    o := if r.Success? then Pass else Fail(r.error);
  }

  /** Later steps use more of the bin. */
  lemma UsedMonotone(m: nat, s: nat, t: nat)
    requires s <= t
    ensures Used(m, s) <= Used(m, t)
    decreases t
  {
    if s < t {
      UsedMonotone(m, s, t - 1);
    }
  }

  /**
   * gen_BA(m, N, dist) with the random numbers of step t in rolls[t]: the
   * seed graph, then one attachment step per t in range(N - m - 1). The graph
   * has nodes 0 .. m+steps, every edge joins two different ones of them,
   * the seed's complete graph is kept, each added node has exactly m edges
   * to older nodes, every node has degree at least m, and with dist the
   * counts of the full bin are the degrees of the nodes.
   */
  method GenBA(m: nat, N: int, dist: bool, rolls: seq<seq<nat>>) returns (r: Result<Built>)
    requires N <= MaxNodes
    requires |rolls| == Steps(N, m) && forall t :: 0 <= t < |rolls| ==> |rolls[t]| == m
    ensures r.Failure? <==> 1 <= m && N <= m
    ensures r.Failure? ==> r.error == if BinLength(N, m) < 0 then NegativeLength else IndexOutOfRange
    ensures r.Success? ==> Generated(r.value.graph.nodes, r.value.graph.edges, r.value.hist, m, Steps(N, m), dist)
    ensures r.Success? && N >= m + 1 ==>
      && |r.value.graph.nodes| == N
      && |r.value.graph.edges| == m * (m + 1) / 2 + m * (N - m - 1)
  {
    var g := new Graph.Complete(m);
    var made := MakeList(N, m);
    if made.Failure? {
      return Failure(made.error);
    }
    var a := made.value;
    SeedInvariant(m);
    var steps := Steps(N, m);
    FinalStepFillsBin(N, m);
    var t := 0;
    while t < steps
      invariant 0 <= t <= steps
      invariant a.Length == Used(m, steps)
      invariant Consistent(g, a, m, t)
      invariant Attached(g.edges, m, t)
    {
      var next := t + 1;
      UsedMonotone(m, next, steps);
      StepAttaches(g.nodes, g.edges, a[..Used(m, t)], m, t, rolls[t]);
      var o := Step(g, a, m, t, rolls[t]);
      assert o.Pass?;
      t := next;
    }
    assert t == steps;
    var hist := if dist then Some(BinCount(a[..])) else None;
    FinalState(g.nodes, g.edges, a[..], m, t, dist);
    EdgeTotal(N, m);
    return Success(Built(g, hist));
  }

  /** Under Invariant the edge count is the seed's plus m per step. */
  lemma EdgeCount(nodes: set<nat>, edges: set<Edge>, prefix: seq<nat>, m: nat, t: nat)
    requires Invariant(nodes, edges, prefix, m, t)
    ensures |edges| == EdgesAt(m, t)
  {
    UsedEdges(m, t);
  }

  /**
   * What gen_BA's result satisfies after the given number of steps: the
   * graph is a GrownGraph, and a histogram is returned exactly when dist is
   * set; its entries are the degrees of the nodes 0 .. m+steps (none when
   * m = 0, where the bin is empty).
   */
  ghost predicate Generated(nodes: set<nat>, edges: set<Edge>, hist: Option<seq<nat>>, m: nat, steps: nat, dist: bool)
  {
    && GrownGraph(nodes, edges, m, steps)
    && (hist.Some? <==> dist)
    && (dist ==> DegreeHistogram(hist.value, edges, m, m + steps + 1))
  }

  /**
   * The graph after the given number of steps: the nodes 0 .. m+steps, the
   * m(m+1)/2 seed edges and m more per step, each joining two different
   * nodes, and every degree at least m; the seed's complete graph on 0 .. m
   * is present and each later node has exactly m edges to older nodes.
   */
  ghost predicate GrownGraph(nodes: set<nat>, edges: set<Edge>, m: nat, steps: nat)
  {
    && nodes == Range(m + steps + 1)
    && |edges| == Triangle(m + 1) + m * steps
    && (forall e :: e in edges ==> e.lo < e.hi < m + steps + 1)
    && (forall v :: v in nodes ==> Degree(edges, v) >= m)
    && Attached(edges, m, steps)
  }

  /**
   * d lists the degrees of the nodes 0 .. n-1, each at least m; it is empty
   * when m = 0, where the bin it counts is empty.
   */
  ghost predicate DegreeHistogram(d: seq<nat>, edges: set<Edge>, m: nat, n: nat)
  {
    && |d| == (if m == 0 then 0 else n)
    && forall v :: 0 <= v < |d| ==> d[v] == Degree(edges, v) && d[v] >= m
  }

  /** Once the steps are done, graph and bin give a Generated result. */
  lemma FinalState(nodes: set<nat>, edges: set<Edge>, bin: seq<nat>, m: nat, steps: nat, dist: bool)
    requires |bin| == Used(m, steps)
    requires Invariant(nodes, edges, bin[..Used(m, steps)], m, steps)
    requires Attached(edges, m, steps)
    ensures |nodes| == m + steps + 1
    ensures Generated(nodes, edges, if dist then Some(BinCount(bin)) else None, m, steps, dist)
  {
    var prefix := bin[..Used(m, steps)];
    FinalGraph(nodes, edges, prefix, m, steps);
    assert prefix == bin;
    if dist {
      PrefixHistogram(nodes, edges, prefix, m, steps);
    }
  }

  /**
   * Under Invariant and Attached after the given number of steps the graph
   * is a GrownGraph with m+steps+1 nodes.
   */
  lemma FinalGraph(nodes: set<nat>, edges: set<Edge>, prefix: seq<nat>, m: nat, steps: nat)
    requires Invariant(nodes, edges, prefix, m, steps)
    requires Attached(edges, m, steps)
    ensures |nodes| == m + steps + 1
    ensures GrownGraph(nodes, edges, m, steps)
  {
    RangeFacts(m + steps + 1);
    EdgeCount(nodes, edges, prefix, m, steps);
    EdgesAtValue(m, steps);
  }

  /**
   * Under Invariant before step t, np.bincount of the used prefix has one
   * entry per node 0 .. m+t, and none when m = 0, where the prefix is empty.
   */
  lemma HistogramLength(nodes: set<nat>, edges: set<Edge>, prefix: seq<nat>, m: nat, t: nat)
    requires Invariant(nodes, edges, prefix, m, t)
    ensures |BinCount(prefix)| == if m == 0 then 0 else m + t + 1
  {
    if m == 0 {
      UsedValue(m, t);
    } else {
      PrefixMax(nodes, edges, prefix, m, t);
    }
  }

  /** For m >= 1 the newest node m+t is the largest entry of the used prefix. */
  lemma PrefixMax(nodes: set<nat>, edges: set<Edge>, prefix: seq<nat>, m: nat, t: nat)
    requires Invariant(nodes, edges, prefix, m, t)
    requires m >= 1
    ensures prefix != [] && Max(prefix) == m + t
  {
    RangeFacts(m + t + 1);
    var n := m + t;
    assert n in nodes;
    assert multiset(prefix)[n] == Degree(edges, n) >= 1;
    assert n in prefix;
  }

  /**
   * Under Invariant before step t, entry v of np.bincount of the used prefix
   * is the degree of node v, and at least m.
   */
  lemma PrefixHistogram(nodes: set<nat>, edges: set<Edge>, prefix: seq<nat>, m: nat, t: nat)
    requires Invariant(nodes, edges, prefix, m, t)
    ensures DegreeHistogram(BinCount(prefix), edges, m, m + t + 1)
  {
    assert |BinCount(prefix)| == if m == 0 then 0 else m + t + 1 by {
      HistogramLength(nodes, edges, prefix, m, t);
    }
    CountsAreDegrees(nodes, edges, prefix, m, m + t + 1);
  }

  /** When the counts are the degrees and the degrees of the nodes 0 .. n-1 are at least m, np.bincount lists them. */
  lemma CountsAreDegrees(nodes: set<nat>, edges: set<Edge>, prefix: seq<nat>, m: nat, n: nat)
    requires nodes == Range(n)
    requires forall v: nat :: multiset(prefix)[v] == Degree(edges, v)
    requires forall v :: v in nodes ==> Degree(edges, v) >= m
    requires |BinCount(prefix)| == if m == 0 then 0 else n
    ensures DegreeHistogram(BinCount(prefix), edges, m, n)
  {
    RangeFacts(n);
  }

  /** For N >= m + 1 the edge count is m(m+1)/2 + m(N-m-1). */
  lemma EdgeTotal(N: int, m: nat)
    ensures N >= m + 1 ==> Triangle(m + 1) + m * Steps(N, m) == m * (m + 1) / 2 + m * (N - m - 1)
  {
    TriangleValue(m + 1);
    assert (m + 1) * (m + 1 - 1) == m * (m + 1);
  }

  /** m counts, each at least m (so each at least 1 when m >= 1). */
  predicate LuckyDegreesBound(counts: seq<nat>, m: nat)
  {
    |counts| == m && forall i :: 0 <= i < m ==> m <= counts[i]
  }

  /** Under Invariant the node count is m+t+1 and the edge count the seed's plus m per step. */
  lemma RecordedCounts(nodes: set<nat>, edges: set<Edge>, prefix: seq<nat>, m: nat, t: nat)
    requires Invariant(nodes, edges, prefix, m, t)
    ensures |nodes| == m + 1 + t
    ensures |edges| == EdgesAt(m, t)
  {
    RangeFacts(m + t + 1);
    EdgeCount(nodes, edges, prefix, m, t);
  }

  /** [t.count(l) for l in lucky]: how often each drawn node occurs in the prefix. */
  function Occurrences(prefix: seq<nat>, lucky: seq<nat>): seq<nat>
  {
    seq(|lucky|, i requires 0 <= i < |lucky| => multiset(prefix)[lucky[i]])
  }

  /**
   * Under Invariant, t.count(l) for a node l is l's degree: the counts
   * test_BA takes of the drawn nodes are their degrees before the step.
   */
  lemma OccurrencesAreDegrees(nodes: set<nat>, edges: set<Edge>, prefix: seq<nat>, m: nat, t: nat, lucky: seq<nat>)
    requires Invariant(nodes, edges, prefix, m, t)
    ensures |Occurrences(prefix, lucky)| == |lucky|
    ensures forall i :: 0 <= i < |lucky| ==> Occurrences(prefix, lucky)[i] == Degree(edges, lucky[i])
  {
  }

  /** Before step t the counts of the used prefix add up to twice the edge count. */
  lemma PrefixSum(nodes: set<nat>, edges: set<Edge>, prefix: seq<nat>, m: nat, t: nat)
    requires Invariant(nodes, edges, prefix, m, t)
    ensures Sum(BinCount(prefix)) == 2 * |edges|
  {
    SumBinCount(prefix);
  }

  /**
   * Each node a step draws occurs in the used prefix once per unit of its
   * degree, which is at least m.
   */
  lemma LuckyOccurrences(nodes: set<nat>, edges: set<Edge>, prefix: seq<nat>, m: nat, t: nat, draws: seq<nat>)
    requires Invariant(nodes, edges, prefix, m, t)
    requires |draws| == m
    ensures Draw(prefix, draws).Some?
    ensures var lucky := Draw(prefix, draws).value;
      && LuckyDegreesBound(Occurrences(prefix, lucky), m)
      && forall i :: 0 <= i < m ==> Occurrences(prefix, lucky)[i] == Degree(edges, lucky[i])
  {
    DrawnTargets(nodes, edges, prefix, m, t, draws);
    RangeFacts(m + t + 1);
    var lucky := Draw(prefix, draws).value;
    OccurrencesAreDegrees(nodes, edges, prefix, m, t, lucky);
    var c := Occurrences(prefix, lucky);
    forall i | 0 <= i < m
      ensures m <= c[i]
    {
      assert lucky[i] in prefix;
      assert lucky[i] in nodes;
    }
  }

  /**
   * The series test_BA has recorded after t steps: node and edge counts
   * before the first step and after each step (m+1+s nodes, the seed's edges
   * plus m per step), and for each step the count sum of the used prefix,
   * twice the edge count then, and the drawn nodes' occurrences in it.
   */
  ghost predicate Recorded(rec: Record, m: nat, t: nat)
  {
    && |rec.nodeCounts| == t + 1 && |rec.edgeCounts| == t + 1
    && |rec.degreeSums| == t && |rec.luckyDegrees| == t
    && (forall s :: 0 <= s <= t ==> rec.nodeCounts[s] == m + 1 + s)
    && (forall s :: 0 <= s <= t ==> rec.edgeCounts[s] == EdgesAt(m, s))
    && (forall s :: 0 <= s < t ==> rec.degreeSums[s] == 2 * rec.edgeCounts[s])
    && (forall s :: 0 <= s < t ==> LuckyDegreesBound(rec.luckyDegrees[s], m))
  }

  /** The four appends of one iteration of test_BA. */
  function Extend(rec: Record, nodeCount: nat, edgeCount: nat, degreeSum: nat, counts: seq<nat>): Record
  {
    Record(rec.nodeCounts + [nodeCount], rec.edgeCounts + [edgeCount],
           rec.degreeSums + [degreeSum], rec.luckyDegrees + [counts])
  }

  /** Appending one step's entries keeps the series Recorded. */
  lemma RecordNext(rec: Record, m: nat, t: nat, nodeCount: nat, edgeCount: nat, degreeSum: nat, counts: seq<nat>)
    requires Recorded(rec, m, t)
    requires nodeCount == m + 1 + (t + 1) && edgeCount == EdgesAt(m, t + 1)
    requires degreeSum == 2 * EdgesAt(m, t)
    requires LuckyDegreesBound(counts, m)
    ensures Recorded(Extend(rec, nodeCount, edgeCount, degreeSum, counts), m, t + 1)
  {
  }

  /**
   * What one iteration of test_BA records, from Invariant before and after
   * the step: the edge count before it, the count sum of the prefix (twice
   * that edge count), the drawn nodes' occurrences (their degrees, each
   * at least m), and the
   * node and edge counts after the step.
   */
  lemma RoundFacts(nodes0: set<nat>, edges0: set<Edge>, prefix0: seq<nat>,
                   nodes1: set<nat>, edges1: set<Edge>, prefix1: seq<nat>,
                   m: nat, t: nat, draws: seq<nat>, degreeSum: nat, lucky: seq<nat>, counts: seq<nat>)
    requires Invariant(nodes0, edges0, prefix0, m, t)
    requires Invariant(nodes1, edges1, prefix1, m, t + 1)
    requires |draws| == m
    requires degreeSum == Sum(BinCount(prefix0))
    requires Draw(prefix0, draws) == Some(lucky)
    requires counts == Occurrences(prefix0, lucky)
    ensures |edges0| == EdgesAt(m, t)
    ensures degreeSum == 2 * |edges0|
    ensures LuckyDegreesBound(counts, m)
    ensures |nodes1| == m + 1 + (t + 1)
    ensures |edges1| == EdgesAt(m, t + 1)
  {
    RecordedCounts(nodes0, edges0, prefix0, m, t);
    PrefixSum(nodes0, edges0, prefix0, m, t);
    LuckyOccurrences(nodes0, edges0, prefix0, m, t, draws);
    RecordedCounts(nodes1, edges1, prefix1, m, t + 1);
  }

  /**
   * One iteration of test_BA's loop: the count sum of the used prefix (the
   * numerator of the normalisation), step t with its targets, how often each
   * target occurs in the prefix taken before the step (its degree then), and
   * the node and edge counts after the step.
   */
  method TestRound(g: Graph, a: array<nat>, m: nat, t: nat, draws: seq<nat>)
      returns (degreeSum: nat, counts: seq<nat>, nodeCount: nat, edgeCount: nat)
    requires Used(m, t) + 2 * m <= a.Length
    requires Consistent(g, a, m, t)
    requires |draws| == m
    modifies g, a
    ensures Consistent(g, a, m, t + 1)
    ensures old(|g.edges|) == EdgesAt(m, t)
    ensures degreeSum == 2 * old(|g.edges|)
    ensures Draw(old(a[..Used(m, t)]), draws).Some?
    ensures counts == Occurrences(old(a[..Used(m, t)]), Draw(old(a[..Used(m, t)]), draws).value)
    ensures LuckyDegreesBound(counts, m)
    ensures nodeCount == |g.nodes| == m + 1 + (t + 1)
    ensures edgeCount == |g.edges| == EdgesAt(m, t + 1)
    ensures var lucky := Draw(old(a[..Used(m, t)]), draws).value;
      && g.nodes == old(g.nodes) + {m + t + 1} + Values(lucky)
      && g.edges == old(g.edges) + Star(m + t + 1, lucky)
      && a[..] == old(a[..Used(m, t)]) + lucky + Repeat(m + t + 1, m) + old(a[Used(m, t) + 2 * m..])
  {
    var used := Used(m, t);
    var trimmed := a[..used];
    var d := BinCount(trimmed);
    ghost var nodes0, edges0 := g.nodes, g.edges;
    degreeSum := Sum(d);
    var drawn := TestStep(g, a, m, t, draws);
    var lucky := drawn.value;
    counts := Occurrences(trimmed, lucky);
    RoundFacts(nodes0, edges0, trimmed, g.nodes, g.edges, a[..Used(m, t + 1)], m, t, draws, degreeSum, lucky, counts);
    nodeCount, edgeCount := |g.nodes|, |g.edges|;
  }

  /**
   * The integer part of test_BA(m, N): before each step it takes the counts
   * of the used prefix, whose sum is the numerator of the normalisation
   * (the degree sum, equal to 2 x the edge count) and, after the step, the
   * counts of the drawn nodes in that prefix (their degrees before the
   * step); it records the node and edge counts before the first step and
   * after each step.
   */
  method TestBA(m: nat, N: int, rolls: seq<seq<nat>>) returns (r: Result<Record>)
    requires N <= MaxNodes
    requires |rolls| == Steps(N, m) && forall t :: 0 <= t < |rolls| ==> |rolls[t]| == m
    ensures r.Failure? <==> 1 <= m && N <= m
    ensures r.Failure? ==> r.error == if BinLength(N, m) < 0 then NegativeLength else IndexOutOfRange
    ensures r.Success? ==> Recorded(r.value, m, Steps(N, m))
  {
    var g := new Graph.Complete(m);
    var made := MakeList(N, m);
    if made.Failure? {
      return Failure(made.error);
    }
    var a := made.value;
    SeedInvariant(m);
    var steps := Steps(N, m);
    FinalStepFillsBin(N, m);
    RecordedCounts(g.nodes, g.edges, a[..Used(m, 0)], m, 0);
    var seedNodes: nat, seedEdges: nat := |g.nodes|, |g.edges|;
    var rec := Record([seedNodes], [seedEdges], [], []);
    var t := 0;
    while t < steps
      invariant 0 <= t <= steps
      invariant a.Length == Used(m, steps)
      invariant Consistent(g, a, m, t)
      invariant Recorded(rec, m, t)
    {
      var next := t + 1;
      UsedMonotone(m, next, steps);
      var degreeSum, counts, nodeCount, edgeCount := TestRound(g, a, m, t, rolls[t]);
      RecordNext(rec, m, t, nodeCount, edgeCount, degreeSum, counts);
      rec := Extend(rec, nodeCount, edgeCount, degreeSum, counts);
      t := next;
    }
    assert t == steps;
    return Success(rec);
  }

  /**
   * The integer content of one entry of test2_BA's mu_k: np.mean(degrees)
   * for the counts of the used prefix is sum / count.
   */
  datatype MeanParts = MeanParts(sum: nat, count: nat)

  /**
   * The mean test2_BA records before step t: np.bincount of the used prefix,
   * whose counts add up to twice the edge count and which has one count per
   * node (none when m = 0).
   */
  method Mean(g: Graph, a: array<nat>, m: nat, t: nat) returns (mean: MeanParts)
    requires Consistent(g, a, m, t)
    ensures mean == MeanParts(2 * EdgesAt(m, t), if m == 0 then 0 else m + t + 1)
  {
    var trimmed := a[..Used(m, t)];
    var degrees := BinCount(trimmed);
    HistogramLength(g.nodes, g.edges, trimmed, m, t);
    PrefixSum(g.nodes, g.edges, trimmed, m, t);
    EdgeCount(g.nodes, g.edges, trimmed, m, t);
    mean := MeanParts(Sum(degrees), |degrees|);
  }

  /** Entry s of the series is the mean before step s. */
  ghost predicate MeansRecorded(muK: seq<MeanParts>, m: nat)
  {
    forall s :: 0 <= s < |muK| ==> muK[s] == MeanParts(2 * EdgesAt(m, s), if m == 0 then 0 else m + s + 1)
  }

  /** Appending the mean before step |muK| extends the series by one step. */
  lemma MeansNext(muK: seq<MeanParts>, m: nat, mean: MeanParts)
    requires MeansRecorded(muK, m)
    requires mean == MeanParts(2 * EdgesAt(m, |muK|), if m == 0 then 0 else m + |muK| + 1)
    ensures MeansRecorded(muK + [mean], m)
  {
  }

  /**
   * test2_BA(m, N): the steps of gen_BA, each preceded by np.bincount of the
   * used prefix, whose mean it appends to mu_k; it returns mu_k. Before step
   * s the mean divides the degree sum 2 * EdgesAt(m, s) by the number of
   * nodes m+s+1 (by 0 when m = 0, where the prefix is empty). The steps
   * themselves cannot fail.
   */
  method Test2BA(m: nat, N: int, rolls: seq<seq<nat>>) returns (r: Result<seq<MeanParts>>)
    requires N <= MaxNodes
    requires |rolls| == Steps(N, m) && forall t :: 0 <= t < |rolls| ==> |rolls[t]| == m
    ensures r.Failure? <==> 1 <= m && N <= m
    ensures r.Failure? ==> r.error == if BinLength(N, m) < 0 then NegativeLength else IndexOutOfRange
    ensures r.Success? ==> |r.value| == Steps(N, m) && MeansRecorded(r.value, m)
  {
    var g := new Graph.Complete(m);
    var made := MakeList(N, m);
    if made.Failure? {
      return Failure(made.error);
    }
    var a := made.value;
    SeedInvariant(m);
    var steps := Steps(N, m);
    FinalStepFillsBin(N, m);
    var muK: seq<MeanParts> := [];
    var t := 0;
    while t < steps
      invariant 0 <= t <= steps
      invariant a.Length == Used(m, steps)
      invariant Consistent(g, a, m, t)
      invariant |muK| == t
      invariant MeansRecorded(muK, m)
    {
      var next := t + 1;
      UsedMonotone(m, next, steps);
      var mean := Mean(g, a, m, t);
      MeansNext(muK, m, mean);
      muK := muK + [mean];
      var o := Step(g, a, m, t, rolls[t]);
      assert o.Pass?;
      t := next;
    }
    return Success(muK);
  }
}
