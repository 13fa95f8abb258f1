/** Paths, reachability and the order of a depth-first pull on a finite graph, cycles included.
    `up[n]` are the nodes directly upstream of `n`. */
module GraphPaths {

  ghost predicate Closed<N(!new)>(up: map<N, set<N>>) {
    forall n, k :: n in up && k in up[n] ==> k in up
  }

  /** `path` leads from `a` upstream to `b` and meets no node of `blocked`. */
  ghost predicate IsPath<N>(up: map<N, set<N>>, blocked: set<N>, a: N, b: N, path: seq<N>) {
    && 0 < |path| && path[0] == a && path[|path| - 1] == b
    && (forall i :: 0 <= i < |path| ==> path[i] in up && path[i] !in blocked)
    && (forall i, j :: 0 <= i < |path| && j == i + 1 < |path| ==> path[i] in up && path[j] in up[path[i]])
  }

  ghost predicate Reaches<N(!new)>(up: map<N, set<N>>, blocked: set<N>, a: N, b: N) {
    exists path :: IsPath(up, blocked, a, b, path)
  }

  lemma ReachesSelf<N(!new)>(up: map<N, set<N>>, blocked: set<N>, a: N)
    requires a in up && a !in blocked
    ensures Reaches(up, blocked, a, a)
  {
    assert IsPath(up, blocked, a, a, [a]);
  }

  /** One more step at the front of a path. */
  lemma ReachesVia<N(!new)>(up: map<N, set<N>>, blocked: set<N>, blocked': set<N>, a: N, k: N, b: N)
    requires a in up && a !in blocked && k in up[a] && blocked <= blocked'
    requires Reaches(up, blocked', k, b)
    ensures Reaches(up, blocked, a, b)
  {
    var path :| IsPath(up, blocked', k, b, path);
    assert IsPath(up, blocked, a, b, [a] + path);
  }

  /** One more step at the end of a path. */
  lemma ReachesOnward<N(!new)>(up: map<N, set<N>>, blocked: set<N>, a: N, b: N, k: N)
    requires b in up && k in up[b] && k in up && k !in blocked && Reaches(up, blocked, a, b)
    ensures Reaches(up, blocked, a, k)
  {
    var path :| IsPath(up, blocked, a, b, path);
    assert IsPath(up, blocked, a, k, path + [k]);
  }

  ghost predicate Within<N(!new)>(up: map<N, set<N>>, more: map<N, set<N>>) {
    forall n :: n in up ==> n in more && up[n] <= more[n]
  }

  /** With more connections, at least as much is reached. */
  lemma ReachesMore<N(!new)>(up: map<N, set<N>>, more: map<N, set<N>>, a: N, b: N)
    requires Within(up, more)
    requires Reaches(up, {}, a, b)
    ensures Reaches(more, {}, a, b)
  {
    var path :| IsPath(up, {}, a, b, path);
    assert IsPath(more, {}, a, b, path);
  }

  /** What `a` reaches is itself and what its direct inputs reach without coming back to it. */
  lemma ReachesSplit<N(!new)>(up: map<N, set<N>>, blocked: set<N>, a: N, b: N)
    requires a in up && a !in blocked
    ensures Reaches(up, blocked, a, b) <==> b == a || exists k :: k in up[a] && Reaches(up, blocked + {a}, k, b)
  {
    if Reaches(up, blocked, a, b) && b != a {
      var path :| IsPath(up, blocked, a, b, path);
      var _ := AvoidStart(up, blocked, a, b, path);
    }
    if b == a {
      ReachesSelf(up, blocked, a);
    }
    if k :| k in up[a] && Reaches(up, blocked + {a}, k, b) {
      ReachesVia(up, blocked, blocked + {a}, a, k, b);
    }
  }

  /** A path out of `a` can be taken from its last visit to `a`: the rest avoids `a`. */
  lemma {:induction false} AvoidStart<N(!new)>(up: map<N, set<N>>, blocked: set<N>, a: N, b: N, path: seq<N>)
      returns (k: N)
    requires IsPath(up, blocked, a, b, path) && a != b
    ensures a in up && k in up[a] && Reaches(up, blocked + {a}, k, b)
    decreases |path|
  {
    if i :| 0 < i < |path| && path[i] == a {
      assert IsPath(up, blocked, a, b, path[i..]);
      k := AvoidStart(up, blocked, a, b, path[i..]);
    } else {
      k := path[1];
      assert IsPath(up, blocked + {a}, k, b, path[1..]);
    }
  }

  /** With fewer nodes blocked, at least as much is reached. */
  lemma ReachesLess<N(!new)>(up: map<N, set<N>>, blocked: set<N>, blocked': set<N>, a: N, b: N)
    requires blocked <= blocked' && Reaches(up, blocked', a, b)
    ensures Reaches(up, blocked, a, b)
  {
    var path :| IsPath(up, blocked', a, b, path);
    assert IsPath(up, blocked, a, b, path);
  }

  /** A set closed under going upstream around the blocked nodes holds all its members reach so. */
  lemma {:induction false} ClosedHolds<N(!new)>(up: map<N, set<N>>, blocked: set<N>, s: set<N>, a: N, b: N,
                                                path: seq<N>)
    requires IsPath(up, blocked, a, b, path) && a in s
    requires forall n, k :: n in s && n in up && k in up[n] && k in up && k !in blocked ==> k in s
    ensures b in s
    decreases |path|
  {
    if |path| > 1 {
      assert IsPath(up, blocked, path[1], b, path[1..]);
      ClosedHolds(up, blocked, s, path[1], b, path[1..]);
    }
  }

  ghost function ReachSet<N(!new)>(up: map<N, set<N>>, blocked: set<N>, a: N): set<N> {
    set n | n in up && Reaches(up, blocked, a, n)
  }

  ghost function ReachInputs<N(!new)>(up: map<N, set<N>>, blocked: set<N>, inputs: set<N>): set<N> {
    set k, n | k in inputs && n in ReachSet(up, blocked, k) :: n
  }

  lemma OneInputMore<N(!new)>(up: map<N, set<N>>, blocked: set<N>, inputs: set<N>, k: N)
    ensures ReachInputs(up, blocked, inputs + {k}) == ReachInputs(up, blocked, inputs) + ReachSet(up, blocked, k)
  {
  }

  lemma ReachSetSplits<N(!new)>(up: map<N, set<N>>, blocked: set<N>, a: N)
    requires a in up && a !in blocked
    ensures ReachSet(up, blocked, a) == ReachInputs(up, blocked + {a}, up[a]) + {a}
  {
    var parts := ReachInputs(up, blocked + {a}, up[a]) + {a};
    forall n
      ensures n in ReachSet(up, blocked, a) <==> n in parts
    {
      ReachesSplit(up, blocked, a, n);
      assert forall k :: Reaches(up, blocked + {a}, k, n) ==> n in ReachSet(up, blocked + {a}, k);
    }
  }

  // ---------------------------------------------------------------- pulls

  ghost predicate Acyclic<N(!new)>(up: map<N, set<N>>, rank: N -> int) {
    forall n, k :: n in up && k in up[n] ==> rank(k) < rank(n)
  }

  /** Ranks fall along the connections, and the nodes under way rank above `node`. */
  ghost predicate Ordered<N(!new)>(rank: N -> int, up: map<N, set<N>>, waiting: set<N>, node: N) {
    Acyclic(up, rank) && forall w :: w in waiting ==> rank(node) < rank(w)
  }

  lemma OrderedInput<N(!new)>(rank: N -> int, up: map<N, set<N>>, waiting: set<N>, node: N, input: N)
    requires node in up && input in up[node]
    ensures Ordered(rank, up, waiting, node) ==> Ordered(rank, up, waiting + {node}, input)
  {
  }

  predicate Distinct<N(==)>(s: seq<N>) {
    forall i, j :: 0 <= i < j < |s| ==> s[i] != s[j]
  }

  /** What pulling under `callCount` does to the call counts: `order` lists the nodes that run, in
      the order in which they finish, and `waiting` are the nodes already under way. */
  ghost predicate Pulled<N(!new)>(up: map<N, set<N>>, before: map<N, int>, after: map<N, int>, callCount: int,
                                  order: seq<N>)
  {
    && before.Keys == up.Keys && after.Keys == up.Keys
    && (forall n :: n in order ==> n in up && before[n] < callCount)
    && (forall n :: n in up ==> after[n] == if n in order then callCount else before[n])
    && Distinct(order)
    && (forall n, k :: n in order && k in up[n] && k in up ==> callCount <= after[k])
  }

  ghost predicate InputsDone<N(!new)>(up: map<N, set<N>>, counts: map<N, int>, callCount: int, node: N)
    requires node in up && counts.Keys == up.Keys
  {
    forall k :: k in up[node] && k in up ==> callCount <= counts[k]
  }

  /** The nodes that a pull under `callCount` finds to have run, or to be under way. */
  ghost function Done<N(!new)>(counts: map<N, int>, callCount: int): set<N> {
    set n | n in counts && callCount <= counts[n]
  }

  /** Every node that ran is upstream of `root`, through nodes that had not run. */
  ghost predicate FromRoot<N(!new)>(up: map<N, set<N>>, before: map<N, int>, callCount: int, root: N,
                                    order: seq<N>)
  {
    forall n :: n in order ==> Reaches(up, Done(before, callCount), root, n)
  }

  /** The same, from one of the inputs of `node`. */
  ghost predicate FromInputs<N(!new)>(up: map<N, set<N>>, before: map<N, int>, callCount: int, node: N,
                                      order: seq<N>)
  {
    node in up
    && forall n :: n in order ==> exists k :: k in up[node] && Reaches(up, Done(before, callCount), k, n)
  }

  lemma InputsThenMore<N(!new)>(up: map<N, set<N>>, m0: map<N, int>, m1: map<N, int>, m2: map<N, int>,
                                callCount: int, node: N, o1: seq<N>, o2: seq<N>)
    requires Pulled(up, m0, m1, callCount, o1)
    requires FromInputs(up, m0, callCount, node, o1) && FromInputs(up, m1, callCount, node, o2)
    ensures FromInputs(up, m0, callCount, node, o1 + o2)
  {
    forall n | n in o1 + o2
      ensures exists k :: k in up[node] && Reaches(up, Done(m0, callCount), k, n)
    {
      if n !in o1 {
        var k :| k in up[node] && Reaches(up, Done(m1, callCount), k, n);
        ReachesLess(up, Done(m0, callCount), Done(m1, callCount), k, n);
      }
    }
  }

  lemma NodeThenInputs<N(!new)>(up: map<N, set<N>>, m0: map<N, int>, callCount: int, node: N, order: seq<N>)
    requires node in m0 && m0[node] < callCount && FromInputs(up, m0[node := callCount], callCount, node, order)
    ensures FromRoot(up, m0, callCount, node, order + [node])
  {
    ReachesSelf(up, Done(m0, callCount), node);
    forall n | n in order
      ensures Reaches(up, Done(m0, callCount), node, n)
    {
      var k :| k in up[node] && Reaches(up, Done(m0[node := callCount], callCount), k, n);
      ReachesVia(up, Done(m0, callCount), Done(m0[node := callCount], callCount), node, k, n);
    }
  }

  /** Without cycles, everything a node reads from has run before it: in this pull or earlier. */
  ghost predicate InputsFirst<N(!new)>(up: map<N, set<N>>, before: map<N, int>, callCount: int, waiting: set<N>,
                                       order: seq<N>)
    requires before.Keys == up.Keys
  {
    forall i, k :: 0 <= i < |order| && order[i] in up && k in up[order[i]] && k in up ==>
      k in order[..i] || (callCount <= before[k] && k !in waiting)
  }

  ghost predicate Below<N>(rank: N -> int, top: int, order: seq<N>) {
    forall n :: n in order ==> rank(n) <= top
  }

  /** One pull after another. */
  lemma PullThenPull<N(!new)>(up: map<N, set<N>>, m0: map<N, int>, m1: map<N, int>, m2: map<N, int>,
                              callCount: int, o1: seq<N>, o2: seq<N>)
    requires Pulled(up, m0, m1, callCount, o1) && Pulled(up, m1, m2, callCount, o2)
    ensures Pulled(up, m0, m2, callCount, o1 + o2)
  {
    assert forall n :: n in o1 + o2 <==> n in o1 || n in o2;
    forall i, j | 0 <= i < j < |o1 + o2|
      ensures (o1 + o2)[i] != (o1 + o2)[j]
    {
      if i < |o1| <= j {
        assert (o1 + o2)[i] == o1[i] && (o1 + o2)[j] == o2[j - |o1|];
        assert o1[i] in o1 && o2[j - |o1|] in o2;
      }
    }
  }

  lemma InputsThenInputs<N(!new)>(up: map<N, set<N>>, m0: map<N, int>, m1: map<N, int>, m2: map<N, int>,
                                  callCount: int, waiting: set<N>, o1: seq<N>, o2: seq<N>)
    requires Pulled(up, m0, m1, callCount, o1) && Pulled(up, m1, m2, callCount, o2)
    requires InputsFirst(up, m0, callCount, waiting, o1) && InputsFirst(up, m1, callCount, waiting, o2)
    ensures InputsFirst(up, m0, callCount, waiting, o1 + o2)
  {
    var o := o1 + o2;
    forall i, k | 0 <= i < |o| && o[i] in up && k in up[o[i]] && k in up
      ensures k in o[..i] || (callCount <= m0[k] && k !in waiting)
    {
      if i < |o1| {
        assert o[..i] == o1[..i];
      } else {
        assert o[..i] == o1 + o2[..i - |o1|];
      }
    }
  }

  /** A node finishes after its inputs were pulled, with itself marked first. */
  lemma PullNode<N(!new)>(up: map<N, set<N>>, m0: map<N, int>, m1: map<N, int>, callCount: int,
                          node: N, order: seq<N>)
    requires node in up && m0.Keys == up.Keys && m0[node] < callCount
    requires Pulled(up, m0[node := callCount], m1, callCount, order)
    requires InputsDone(up, m1, callCount, node)
    ensures Pulled(up, m0, m1, callCount, order + [node])
  {
  }

  lemma InputsOfNode<N(!new)>(up: map<N, set<N>>, m0: map<N, int>, m1: map<N, int>, callCount: int,
                              waiting: set<N>, node: N, order: seq<N>, rank: N -> int)
    requires node in up && m0.Keys == up.Keys && m0[node] < callCount && Acyclic(up, rank)
    requires Pulled(up, m0[node := callCount], m1, callCount, order)
    requires InputsFirst(up, m0[node := callCount], callCount, waiting + {node}, order)
    requires InputsDone(up, m1, callCount, node)
    requires forall w :: w in waiting ==> rank(node) < rank(w)
    ensures InputsFirst(up, m0, callCount, waiting, order + [node])
  {
    var o := order + [node];
    forall i, k | 0 <= i < |o| && o[i] in up && k in up[o[i]] && k in up
      ensures k in o[..i] || (callCount <= m0[k] && k !in waiting)
    {
      if i < |order| {
        assert o[..i] == order[..i];
      } else {
        assert o[..i] == order;
        assert rank(k) < rank(node);
      }
    }
  }

  /** A pull that runs its root runs exactly the nodes upstream that are reached through nodes that
      have not run under the call count yet. */
  lemma PullsAllStale<N(!new)>(up: map<N, set<N>>, before: map<N, int>, after: map<N, int>, callCount: int,
                               order: seq<N>, root: N)
    requires Closed(up) && root in order
    requires Pulled(up, before, after, callCount, order) && FromRoot(up, before, callCount, root, order)
    ensures forall n :: n in order <==> Reaches(up, Done(before, callCount), root, n)
  {
    forall n | Reaches(up, Done(before, callCount), root, n)
      ensures n in order
    {
      var path :| IsPath(up, Done(before, callCount), root, n, path);
      ClosedHolds(up, Done(before, callCount), (set k | k in order), root, n, path);
    }
  }

  /** No node upstream of `sink` has a call count above the sink's own. */
  ghost predicate Leads<N(!new)>(up: map<N, set<N>>, counts: map<N, int>, sink: N)
    requires sink in counts && counts.Keys == up.Keys
  {
    forall n :: n in up && Reaches(up, {}, sink, n) ==> counts[n] <= counts[sink]
  }

  /** From a sink that leads, nothing upstream is cut off. */
  lemma NothingCutOff<N(!new)>(up: map<N, set<N>>, counts: map<N, int>, sink: N, n: N)
    requires sink in counts && counts.Keys == up.Keys && Leads(up, counts, sink)
    ensures Reaches(up, Done(counts, counts[sink] + 1), sink, n) <==> Reaches(up, {}, sink, n)
  {
    var done := Done(counts, counts[sink] + 1);
    if Reaches(up, done, sink, n) {
      ReachesLess(up, {}, done, sink, n);
    }
    if path :| IsPath(up, {}, sink, n, path) {
      forall i | 0 <= i < |path|
        ensures path[i] !in done
      {
        assert IsPath(up, {}, sink, path[i], path[..i + 1]);
      }
      assert IsPath(up, done, sink, n, path);
    }
  }

  /** The pulls a node makes on behalf of its input ports: all it starts is upstream of it and, when
      `ranked`, inputs come first and rank below it. */
  ghost predicate Progress<N(!new)>(up: map<N, set<N>>, before: map<N, int>, after: map<N, int>, callCount: int,
                                    waiting: set<N>, node: N, order: seq<N>, rank: N -> int, ranked: bool)
  {
    && Pulled(up, before, after, callCount, order) && FromInputs(up, before, callCount, node, order)
    && (ranked ==> InputsFirst(up, before, callCount, waiting, order) && Below(rank, rank(node) - 1, order))
  }

  lemma ProgressStep<N(!new)>(up: map<N, set<N>>, m0: map<N, int>, m1: map<N, int>, m2: map<N, int>,
                              callCount: int, waiting: set<N>, node: N, o1: seq<N>, o2: seq<N>,
                              rank: N -> int, ranked: bool)
    requires Progress(up, m0, m1, callCount, waiting, node, o1, rank, ranked)
    requires Progress(up, m1, m2, callCount, waiting, node, o2, rank, ranked)
    ensures Progress(up, m0, m2, callCount, waiting, node, o1 + o2, rank, ranked)
    ensures forall k :: k in up && callCount <= m1[k] ==> callCount <= m2[k]
  {
    hide FromInputs;
    PullThenPull(up, m0, m1, m2, callCount, o1, o2);
    InputsThenMore(up, m0, m1, m2, callCount, node, o1, o2);
    assert forall n :: n in o1 + o2 <==> n in o1 || n in o2;
    if ranked {
      InputsThenInputs(up, m0, m1, m2, callCount, waiting, o1, o2);
    }
  }

  /** A pull of one input is progress of the node. */
  lemma InputProgress<N(!new)>(up: map<N, set<N>>, before: map<N, int>, after: map<N, int>, callCount: int,
                               waiting: set<N>, node: N, input: N, order: seq<N>, rank: N -> int, ranked: bool)
    requires node in up && input in up[node]
    requires Pulled(up, before, after, callCount, order) && FromRoot(up, before, callCount, input, order)
    requires ranked ==> Acyclic(up, rank) && InputsFirst(up, before, callCount, waiting, order)
                        && Below(rank, rank(input), order)
    ensures Progress(up, before, after, callCount, waiting, node, order, rank, ranked)
  {
    if ranked {
      assert rank(input) < rank(node);
    }
  }

  /** With its inputs done, the node itself finishes. */
  lemma FinishNode<N(!new)>(up: map<N, set<N>>, m0: map<N, int>, m1: map<N, int>, callCount: int,
                            waiting: set<N>, node: N, order: seq<N>, rank: N -> int, ranked: bool)
    requires node in up && m0.Keys == up.Keys && m0[node] < callCount
    requires Progress(up, m0[node := callCount], m1, callCount, waiting + {node}, node, order, rank, ranked)
    requires InputsDone(up, m1, callCount, node)
    requires ranked ==> Ordered(rank, up, waiting, node)
    ensures Pulled(up, m0, m1, callCount, order + [node])
    ensures FromRoot(up, m0, callCount, node, order + [node])
    ensures ranked ==> InputsFirst(up, m0, callCount, waiting, order + [node])
                       && Below(rank, rank(node), order + [node])
  {
    PullNode(up, m0, m1, callCount, node, order);
    NodeThenInputs(up, m0, callCount, node, order);
    if ranked {
      InputsOfNode(up, m0, m1, callCount, waiting, node, order, rank);
    }
  }

  // ---------------------------------------------------------------- what the nodes did

  /** What a node remembers: the call counts under which it processed, and its last answer. */
  datatype Memory = Memory(log: seq<int>, frames: int, asked: int)

  /** A node that ran has processed once under this call count, or had nothing to process. */
  ghost predicate Remembers(m0: Memory, m1: Memory, callCount: int) {
    m1.log == m0.log + [callCount] || (m1.log == m0.log && m1.frames <= 0)
  }

  /** Only the nodes in `order` did something, each once. */
  ghost predicate Logged<N(!new)>(l0: map<N, Memory>, l1: map<N, Memory>, callCount: int, order: seq<N>) {
    && l1.Keys == l0.Keys
    && forall n :: n in l0 ==> if n in order then Remembers(l0[n], l1[n], callCount) else l1[n] == l0[n]
  }

  lemma LogThenLog<N(!new)>(up: map<N, set<N>>, m0: map<N, int>, m1: map<N, int>, m2: map<N, int>,
                            l0: map<N, Memory>, l1: map<N, Memory>, l2: map<N, Memory>,
                            callCount: int, o1: seq<N>, o2: seq<N>)
    requires Pulled(up, m0, m1, callCount, o1) && Pulled(up, m1, m2, callCount, o2)
    requires Logged(l0, l1, callCount, o1) && Logged(l1, l2, callCount, o2)
    ensures Logged(l0, l2, callCount, o1 + o2)
  {
  }

  /** Call counts are logged in rising order, each at most once, and none above the last one. */
  ghost predicate LogsRise<N(!new)>(counts: map<N, int>, memories: map<N, Memory>)
    requires counts.Keys == memories.Keys
  {
    forall n :: n in memories ==> Rises(memories[n].log, counts[n])
  }

  ghost predicate Rises(log: seq<int>, top: int) {
    && (forall i, j :: 0 <= i < j < |log| ==> log[i] < log[j])
    && (forall i :: 0 <= i < |log| ==> log[i] <= top)
  }

  /** Whatever the graph: a pull keeps the logs rising, so no node runs twice under a call count. */
  lemma LogsKeepRising<N(!new)>(up: map<N, set<N>>, m0: map<N, int>, m1: map<N, int>,
                                l0: map<N, Memory>, l1: map<N, Memory>, callCount: int, order: seq<N>)
    requires Pulled(up, m0, m1, callCount, order) && Logged(l0, l1, callCount, order)
    requires l0.Keys == up.Keys && LogsRise(m0, l0)
    ensures LogsRise(m1, l1)
  {
  }
}
