/** How many frames each node of a graph is asked for in a pull, and what it makes of them: every
    request comes from a port of a node that waits for the answer. */
module PullRequests {
  import opened Basics
  import opened GraphPaths

  /** A node as a pull sees it: the nodes on the ports it pulls, and what it answers when it processes
      for the nth time a number of frames. */
  datatype Node = Node(ports: seq<Option<int>>, process: (nat, int) -> int)

  function Answer(node: Node, runs: nat, numFrames: int): int {
    if 0 < numFrames then node.process(runs, numFrames) else numFrames
  }

  /** The frame count that node `k` shows when the nodes in `done` have run: what it remembers now if
      it is one of them, and what it remembered before the pull otherwise. */
  ghost function Seen(l0: map<int, Memory>, l1: map<int, Memory>, done: seq<int>, k: int): int {
    if k in done && k in l1 then l1[k].frames else if k in l0 then l0[k].frames else 0
  }

  /** What is left of a request after the first `n` ports: a connected port answers with what its node
      shows, an unconnected one with what its own buffer holds. */
  ghost function Offered(ports: seq<Option<int>>, l0: map<int, Memory>, l1: map<int, Memory>, done: seq<int>,
                         request: int, n: nat): int
    requires n <= |ports|
  {
    if n == 0 then request
    else
      match ports[n - 1]
      case Some(k) => Seen(l0, l1, done, k)
      case None => Min(FRAMES_PER_BUFFER, Offered(ports, l0, l1, done, request, n - 1))
  }

  /** Node `n`, run after `done`, processed what its ports left of the request, if that was anything. */
  ghost predicate Served(net: map<int, Node>, l0: map<int, Memory>, l1: map<int, Memory>, callCount: int,
                         done: seq<int>, n: int)
  {
    && n in net && n in l0 && n in l1
    && var f := Offered(net[n].ports, l0, l1, done, l1[n].asked, |net[n].ports|);
    && l1[n].frames == Answer(net[n], |l0[n].log|, f)
    && l1[n].log == l0[n].log + if 0 < f then [callCount] else []
  }

  /** One of the first `m` ports of node `p`, itself asked for `request` frames, asked node `k` for `frames`. */
  ghost predicate AskedBy(net: map<int, Node>, l0: map<int, Memory>, l1: map<int, Memory>, done: seq<int>,
                          p: int, request: int, m: nat, k: int, frames: int)
  {
    && p in net && m <= |net[p].ports|
    && exists j: nat :: j < m && AskedAt(net[p].ports, l0, l1, done, request, j, k, frames)
  }

  ghost predicate AskedAt(ports: seq<Option<int>>, l0: map<int, Memory>, l1: map<int, Memory>, done: seq<int>,
                          request: int, j: nat, k: int, frames: int)
    requires j < |ports|
  {
    ports[j] == Some(k) && frames == Min(FRAMES_PER_BUFFER, Offered(ports, l0, l1, done, request, j))
  }

  /** A node that ran later asked node `order[i]` for the frames it was asked for. */
  ghost predicate AskedLater(net: map<int, Node>, l0: map<int, Memory>, l1: map<int, Memory>, order: seq<int>, i: int)
    requires 0 <= i < |order|
  {
    exists p :: i < p < |order| && AskedInOrder(net, l0, l1, order, p, i)
  }

  ghost predicate AskedInOrder(net: map<int, Node>, l0: map<int, Memory>, l1: map<int, Memory>, order: seq<int>,
                               p: int, i: int)
    requires 0 <= i < |order| && 0 <= p < |order|
  {
    && order[p] in net && order[p] in l1 && order[i] in l1
    && AskedBy(net, l0, l1, order[..p], order[p], l1[order[p]].asked, |net[order[p]].ports|,
               order[i], l1[order[i]].asked)
  }

  ghost predicate AllServed(net: map<int, Node>, l0: map<int, Memory>, l1: map<int, Memory>, callCount: int,
                            order: seq<int>)
  {
    forall i :: 0 <= i < |order| ==> Served(net, l0, l1, callCount, order[..i], order[i])
  }

  /** `node`, asked for `request` frames, has pulled its first `m` ports: every node that ran was asked
      by a node that ran later or by `node`. */
  ghost predicate Fed(net: map<int, Node>, l0: map<int, Memory>, l1: map<int, Memory>, callCount: int,
                      order: seq<int>, node: int, request: int, m: nat)
  {
    && node in net && m <= |net[node].ports| && AllServed(net, l0, l1, callCount, order)
    && forall i :: 0 <= i < |order| ==>
         order[i] in l1
         && (AskedLater(net, l0, l1, order, i)
             || AskedBy(net, l0, l1, order, node, request, m, order[i], l1[order[i]].asked))
  }

  /** A pull of `root` for `request` frames: the root was asked for these, every other node for what a
      node that ran later offered it, and all processed what their ports left. */
  ghost predicate Explained(net: map<int, Node>, l0: map<int, Memory>, l1: map<int, Memory>, callCount: int,
                            order: seq<int>, root: int, request: int)
  {
    && AllServed(net, l0, l1, callCount, order)
    && (forall i :: 0 <= i < |order| - 1 ==> AskedLater(net, l0, l1, order, i))
    && (0 < |order| ==> order[|order| - 1] == root && root in l1 && l1[root].asked == request)
  }

  // ---------------------------------------------------------------- views

  /** The same ports show the same frame counts in both views. */
  ghost predicate SameView(ports: seq<Option<int>>, l0: map<int, Memory>, l1: map<int, Memory>, done: seq<int>,
                           l0': map<int, Memory>, l1': map<int, Memory>, done': seq<int>, m: nat)
    requires m <= |ports|
  {
    forall j :: 0 <= j < m && ports[j].Some? ==>
                  Seen(l0, l1, done, ports[j].value) == Seen(l0', l1', done', ports[j].value)
  }

  lemma {:induction false} OfferedAgrees(ports: seq<Option<int>>, l0: map<int, Memory>, l1: map<int, Memory>,
                                         done: seq<int>, l0': map<int, Memory>, l1': map<int, Memory>,
                                         done': seq<int>, request: int, m: nat, n: nat)
    requires n <= m <= |ports| && SameView(ports, l0, l1, done, l0', l1', done', m)
    ensures Offered(ports, l0, l1, done, request, n) == Offered(ports, l0', l1', done', request, n)
  {
    if n > 0 {
      OfferedAgrees(ports, l0, l1, done, l0', l1', done', request, m, n - 1);
    }
  }

  lemma AskedByAgrees(net: map<int, Node>, l0: map<int, Memory>, l1: map<int, Memory>, done: seq<int>,
                      l0': map<int, Memory>, l1': map<int, Memory>, done': seq<int>,
                      p: int, request: int, m: nat, k: int, frames: int)
    requires p in net && m <= |net[p].ports| && SameView(net[p].ports, l0, l1, done, l0', l1', done', m)
    requires AskedBy(net, l0, l1, done, p, request, m, k, frames)
    ensures AskedBy(net, l0', l1', done', p, request, m, k, frames)
  {
    var j: nat :| j < m && AskedAt(net[p].ports, l0, l1, done, request, j, k, frames);
    OfferedAgrees(net[p].ports, l0, l1, done, l0', l1', done', request, m, j);
    assert AskedAt(net[p].ports, l0', l1', done', request, j, k, frames);
  }

  /** Two pulls one after the other: what the first left, and who ran in which. */
  ghost predicate Apart(l0: map<int, Memory>, l1: map<int, Memory>, l2: map<int, Memory>, o1: seq<int>, o2: seq<int>) {
    && l0.Keys == l1.Keys == l2.Keys
    && (forall n :: n in o1 ==> n !in o2)
    && (forall n :: n in l0 && n !in o1 ==> l1[n] == l0[n])
    && (forall n :: n in l1 && n !in o2 ==> l2[n] == l1[n])
  }

  lemma ApartFromPulls(up: map<int, set<int>>, m0: map<int, int>, m1: map<int, int>, m2: map<int, int>,
                       l0: map<int, Memory>, l1: map<int, Memory>, l2: map<int, Memory>, callCount: int,
                       o1: seq<int>, o2: seq<int>)
    requires Pulled(up, m0, m1, callCount, o1) && Pulled(up, m1, m2, callCount, o2)
    requires Logged(l0, l1, callCount, o1) && Logged(l1, l2, callCount, o2)
    ensures Apart(l0, l1, l2, o1, o2)
  {
  }

  /** What the first pull did is seen in the same way after the second. */
  lemma FirstStays(net: map<int, Node>, l0: map<int, Memory>, l1: map<int, Memory>, l2: map<int, Memory>,
                   callCount: int, o1: seq<int>, o2: seq<int>, i: int)
    requires Apart(l0, l1, l2, o1, o2) && 0 <= i < |o1|
    ensures Served(net, l0, l1, callCount, o1[..i], o1[i]) ==>
              Served(net, l0, l2, callCount, (o1 + o2)[..i], (o1 + o2)[i])
    ensures AskedLater(net, l0, l1, o1, i) ==> AskedLater(net, l0, l2, o1 + o2, i)
  {
    var o := o1 + o2;
    assert o[..i] == o1[..i] && o[i] == o1[i] && o1[i] in o1;
    if Served(net, l0, l1, callCount, o1[..i], o1[i]) {
      var ports := net[o1[i]].ports;
      ViewOfFirst(ports, l0, l1, l2, o1, o2, i);
      OfferedAgrees(ports, l0, l1, o1[..i], l0, l2, o1[..i], l1[o1[i]].asked, |ports|, |ports|);
    }
    if AskedLater(net, l0, l1, o1, i) {
      var p :| i < p < |o1| && AskedInOrder(net, l0, l1, o1, p, i);
      assert o[..p] == o1[..p] && o[p] == o1[p] && o1[p] in o1;
      ViewOfFirst(net[o1[p]].ports, l0, l1, l2, o1, o2, p);
      AskedByAgrees(net, l0, l1, o1[..p], l0, l2, o1[..p], o1[p], l1[o1[p]].asked, |net[o1[p]].ports|,
                    o1[i], l1[o1[i]].asked);
      assert AskedInOrder(net, l0, l2, o, p, i);
    }
  }

  lemma ViewOfFirst(ports: seq<Option<int>>, l0: map<int, Memory>, l1: map<int, Memory>, l2: map<int, Memory>,
                    o1: seq<int>, o2: seq<int>, i: int)
    requires Apart(l0, l1, l2, o1, o2) && 0 <= i <= |o1|
    ensures SameView(ports, l0, l1, o1[..i], l0, l2, o1[..i], |ports|)
  {
    assert forall k :: k in o1[..i] ==> k in o1;
  }

  /** What the second pull saw at its beginning is what the first one left. */
  lemma ViewOfSecond(ports: seq<Option<int>>, l0: map<int, Memory>, l1: map<int, Memory>, l2: map<int, Memory>,
                     o1: seq<int>, o2: seq<int>, i: int)
    requires Apart(l0, l1, l2, o1, o2) && 0 <= i <= |o2|
    ensures SameView(ports, l1, l2, o2[..i], l0, l2, o1 + o2[..i], |ports|)
  {
    assert forall k :: k in o1 + o2[..i] <==> k in o1 || k in o2[..i];
    assert forall k :: k in o2[..i] ==> k in o2;
  }

  lemma SecondStays(net: map<int, Node>, l0: map<int, Memory>, l1: map<int, Memory>, l2: map<int, Memory>,
                    callCount: int, o1: seq<int>, o2: seq<int>, i: int)
    requires Apart(l0, l1, l2, o1, o2) && 0 <= i < |o2|
    ensures Served(net, l1, l2, callCount, o2[..i], o2[i]) ==>
              Served(net, l0, l2, callCount, (o1 + o2)[..|o1| + i], (o1 + o2)[|o1| + i])
    ensures AskedLater(net, l1, l2, o2, i) ==> AskedLater(net, l0, l2, o1 + o2, |o1| + i)
  {
    var o := o1 + o2;
    assert o[..|o1| + i] == o1 + o2[..i] && o[|o1| + i] == o2[i] && o2[i] in o2;
    if Served(net, l1, l2, callCount, o2[..i], o2[i]) {
      var ports := net[o2[i]].ports;
      ViewOfSecond(ports, l0, l1, l2, o1, o2, i);
      OfferedAgrees(ports, l1, l2, o2[..i], l0, l2, o1 + o2[..i], l2[o2[i]].asked, |ports|, |ports|);
    }
    if AskedLater(net, l1, l2, o2, i) {
      var p :| i < p < |o2| && AskedInOrder(net, l1, l2, o2, p, i);
      assert o[..|o1| + p] == o1 + o2[..p] && o[|o1| + p] == o2[p];
      ViewOfSecond(net[o2[p]].ports, l0, l1, l2, o1, o2, p);
      AskedByAgrees(net, l1, l2, o2[..p], l0, l2, o1 + o2[..p], o2[p], l2[o2[p]].asked, |net[o2[p]].ports|,
                    o2[i], l2[o2[i]].asked);
      assert AskedInOrder(net, l0, l2, o, |o1| + p, |o1| + i);
    }
  }

  // ---------------------------------------------------------------- pulling port after port

  lemma NothingFed(net: map<int, Node>, l0: map<int, Memory>, callCount: int, node: int, request: int)
    requires node in net
    ensures Fed(net, l0, l0, callCount, [], node, request, 0)
  {
  }

  /** An unconnected port asks no node. */
  lemma FedByBuffer(net: map<int, Node>, l0: map<int, Memory>, l1: map<int, Memory>, callCount: int,
                    order: seq<int>, node: int, request: int, m: nat)
    requires Fed(net, l0, l1, callCount, order, node, request, m) && m < |net[node].ports|
    requires net[node].ports[m] == None
    ensures Fed(net, l0, l1, callCount, order, node, request, m + 1)
    ensures Offered(net[node].ports, l0, l1, order, request, m + 1)
         == Min(FRAMES_PER_BUFFER, Offered(net[node].ports, l0, l1, order, request, m))
  {
    forall i | 0 <= i < |order| && AskedBy(net, l0, l1, order, node, request, m, order[i], l1[order[i]].asked)
      ensures AskedBy(net, l0, l1, order, node, request, m + 1, order[i], l1[order[i]].asked)
    {
      var j: nat :| j < m && AskedAt(net[node].ports, l0, l1, order, request, j, order[i], l1[order[i]].asked);
    }
  }

  /** A connected port asks its node for what the ports before it left. */
  lemma FedByNode(net: map<int, Node>, l0: map<int, Memory>, l1: map<int, Memory>, l2: map<int, Memory>,
                  callCount: int, o1: seq<int>, o2: seq<int>, node: int, request: int, m: nat, k: int)
    requires Apart(l0, l1, l2, o1, o2) && Fed(net, l0, l1, callCount, o1, node, request, m)
    requires m < |net[node].ports| && net[node].ports[m] == Some(k) && k in l2
    requires forall j :: 0 <= j < m && net[node].ports[j].Some? ==> net[node].ports[j].value !in o2
    requires Explained(net, l1, l2, callCount, o2, k,
                       Min(FRAMES_PER_BUFFER, Offered(net[node].ports, l0, l1, o1, request, m)))
    ensures Fed(net, l0, l2, callCount, o1 + o2, node, request, m + 1)
    ensures Offered(net[node].ports, l0, l2, o1 + o2, request, m + 1) == l2[k].frames
  {
    hide Served, AskedLater, AskedBy, Explained, SameView, Apart;
    var o, ports := o1 + o2, net[node].ports;
    ViewOfNode(ports, l0, l1, l2, o1, o2, m);
    ShownAfter(l0, l1, l2, o1, o2, k);
    forall i | 0 <= i < |o|
      ensures Served(net, l0, l2, callCount, o[..i], o[i]) && o[i] in l2
      ensures AskedLater(net, l0, l2, o, i) || AskedBy(net, l0, l2, o, node, request, m + 1, o[i], l2[o[i]].asked)
    {
      if i < |o1| {
        FedFirst(net, l0, l1, l2, callCount, o1, o2, node, request, m, i);
      } else {
        FedSecond(net, l0, l1, l2, callCount, o1, o2, node, request, m, k, i - |o1|);
      }
    }
  }

  lemma ShownAfter(l0: map<int, Memory>, l1: map<int, Memory>, l2: map<int, Memory>, o1: seq<int>,
                   o2: seq<int>, k: int)
    requires Apart(l0, l1, l2, o1, o2) && k in l2
    ensures Seen(l0, l2, o1 + o2, k) == l2[k].frames
  {
    assert k in o1 + o2 <==> k in o1 || k in o2;
  }

  lemma FedFirst(net: map<int, Node>, l0: map<int, Memory>, l1: map<int, Memory>, l2: map<int, Memory>,
                 callCount: int, o1: seq<int>, o2: seq<int>, node: int, request: int, m: nat, i: int)
    requires Apart(l0, l1, l2, o1, o2) && Fed(net, l0, l1, callCount, o1, node, request, m) && 0 <= i < |o1|
    requires m < |net[node].ports| && SameView(net[node].ports, l0, l1, o1, l0, l2, o1 + o2, m)
    ensures var o := o1 + o2;
            && Served(net, l0, l2, callCount, o[..i], o[i]) && o[i] in l2
            && (AskedLater(net, l0, l2, o, i)
                || AskedBy(net, l0, l2, o, node, request, m + 1, o[i], l2[o[i]].asked))
  {
    hide Served, AskedLater, AskedBy;
    var o := o1 + o2;
    FirstStays(net, l0, l1, l2, callCount, o1, o2, i);
    assert o[i] == o1[i] && o1[i] in o1;
    if !AskedLater(net, l0, l1, o1, i) {
      AskedByAgrees(net, l0, l1, o1, l0, l2, o, node, request, m, o[i], l1[o[i]].asked);
      MorePorts(net, l0, l2, o, node, request, m, o[i], l2[o[i]].asked);
    }
  }

  lemma FedSecond(net: map<int, Node>, l0: map<int, Memory>, l1: map<int, Memory>, l2: map<int, Memory>,
                  callCount: int, o1: seq<int>, o2: seq<int>, node: int, request: int, m: nat, k: int, i: int)
    requires Apart(l0, l1, l2, o1, o2) && 0 <= i < |o2| && node in net && m < |net[node].ports|
    requires net[node].ports[m] == Some(k) && SameView(net[node].ports, l0, l1, o1, l0, l2, o1 + o2, m)
    requires Explained(net, l1, l2, callCount, o2, k,
                       Min(FRAMES_PER_BUFFER, Offered(net[node].ports, l0, l1, o1, request, m)))
    ensures var o := o1 + o2;
            && Served(net, l0, l2, callCount, o[..|o1| + i], o[|o1| + i]) && o[|o1| + i] in l2
            && (AskedLater(net, l0, l2, o, |o1| + i)
                || AskedBy(net, l0, l2, o, node, request, m + 1, o[|o1| + i], l2[o[|o1| + i]].asked))
  {
    hide AskedLater, Offered;
    var o, ports := o1 + o2, net[node].ports;
    assert o[|o1| + i] == o2[i];
    SecondStays(net, l0, l1, l2, callCount, o1, o2, i);
    if i == |o2| - 1 {
      OfferedAgrees(ports, l0, l1, o1, l0, l2, o, request, m, m);
      assert AskedAt(ports, l0, l2, o, request, m, k, l2[k].asked);
    }
  }

  lemma ViewOfNode(ports: seq<Option<int>>, l0: map<int, Memory>, l1: map<int, Memory>, l2: map<int, Memory>,
                   o1: seq<int>, o2: seq<int>, m: nat)
    requires Apart(l0, l1, l2, o1, o2) && m <= |ports|
    requires forall j :: 0 <= j < m && ports[j].Some? ==> ports[j].value !in o2
    ensures SameView(ports, l0, l1, o1, l0, l2, o1 + o2, m)
  {
    assert forall k :: k in o1 + o2 <==> k in o1 || k in o2;
  }

  lemma MorePorts(net: map<int, Node>, l0: map<int, Memory>, l1: map<int, Memory>, done: seq<int>,
                  p: int, request: int, m: nat, k: int, frames: int)
    requires AskedBy(net, l0, l1, done, p, request, m, k, frames) && m < |net[p].ports|
    ensures AskedBy(net, l0, l1, done, p, request, m + 1, k, frames)
  {
    var j: nat :| j < m && AskedAt(net[p].ports, l0, l1, done, request, j, k, frames);
  }

  /** What a node makes of the frames its ports left. */
  ghost predicate Processed(node: Node, m0: Memory, m1: Memory, callCount: int, numFrames: int, request: int) {
    && m1.asked == request && m1.frames == Answer(node, |m0.log|, numFrames)
    && m1.log == m0.log + if 0 < numFrames then [callCount] else []
  }

  /** With all ports pulled, the node itself processes. */
  lemma NodeFed(net: map<int, Node>, l0: map<int, Memory>, l1: map<int, Memory>, l2: map<int, Memory>,
                callCount: int, order: seq<int>, node: int, request: int)
    requires node in net && Fed(net, l0, l1, callCount, order, node, request, |net[node].ports|)
    requires node !in order && node in l0 && node in l1 && l1[node] == l0[node] && l0.Keys == l1.Keys
    requires forall n :: n in l0 && n !in order ==> l1[n] == l0[n]
    requires node in l2 && l2 == l1[node := l2[node]]
    requires Processed(net[node], l0[node], l2[node], callCount,
                       Offered(net[node].ports, l0, l1, order, request, |net[node].ports|), request)
    ensures Explained(net, l0, l2, callCount, order + [node], node, request)
  {
    var o, ports := order + [node], net[node].ports;
    assert Apart(l0, l1, l2, order, [node]);
    assert o[..|order|] == order;
    ViewOfFirst(ports, l0, l1, l2, order, [node], |order|);
    assert order[..|order|] == order;
    OfferedAgrees(ports, l0, l1, order, l0, l2, order, request, |ports|, |ports|);
    assert Served(net, l0, l2, callCount, order, node);
    forall i | 0 <= i < |order|
      ensures Served(net, l0, l2, callCount, o[..i], o[i]) && AskedLater(net, l0, l2, o, i)
    {
      FirstStays(net, l0, l1, l2, callCount, order, [node], i);
      assert o[i] == order[i] && order[i] in order;
      if !AskedLater(net, l0, l1, order, i) {
        AskedByAgrees(net, l0, l1, order, l0, l2, order, node, request, |ports|, order[i], l1[order[i]].asked);
        assert AskedInOrder(net, l0, l2, o, |order|, i);
      }
    }
  }

  lemma NothingExplained(net: map<int, Node>, l0: map<int, Memory>, callCount: int, root: int, request: int)
    ensures Explained(net, l0, l0, callCount, [], root, request)
  {
  }

  // ---------------------------------------------------------------- chains

  /** Each node reads from the next one only, the last from none. */
  ghost predicate IsChain(net: map<int, Node>, chain: seq<int>) {
    && 0 < |chain| && Distinct(chain)
    && (forall i :: 0 <= i < |chain| ==> chain[i] in net)
    && (forall i, j :: 0 <= i && j == i + 1 < |chain| ==> net[chain[i]].ports == [Some(chain[j])])
    && net[chain[|chain| - 1]].ports == []
  }

  /** What the nodes of a chain from `i` on make of a request to the last one. */
  ghost function Yield(net: map<int, Node>, memories: map<int, Memory>, chain: seq<int>, request: int): int
    requires 0 < |chain| && forall i :: 0 <= i < |chain| ==> chain[i] in net && chain[i] in memories
    decreases |chain|
  {
    var frames := if |chain| == 1 then request else Yield(net, memories, chain[1..], request);
    Answer(net[chain[0]], |memories[chain[0]].log|, frames)
  }

  /** The nodes ran from the last of the chain to the first. */
  ghost predicate RanBackward(chain: seq<int>, order: seq<int>) {
    |order| == |chain| && forall i :: 0 <= i < |chain| ==> order[|chain| - 1 - i] == chain[i]
  }

  lemma {:induction false} DistinctSize(s: seq<int>)
    requires Distinct(s)
    ensures |set x | x in s| == |s|
  {
    if 0 < |s| {
      var front, last := s[..|s| - 1], s[|s| - 1];
      DistinctSize(front);
      assert (set x | x in s) == (set x | x in front) + {last};
    }
  }

  /** A pull that runs exactly the nodes of a chain runs them from the last to the first. */
  lemma ChainRunsBackward(net: map<int, Node>, l0: map<int, Memory>, l1: map<int, Memory>, callCount: int,
                          chain: seq<int>, order: seq<int>, request: int)
    requires IsChain(net, chain) && Explained(net, l0, l1, callCount, order, chain[0], request)
    requires Distinct(order) && forall n :: n in order <==> n in chain
    ensures RanBackward(chain, order)
  {
    SameSize(chain, order);
    for i := 0 to |chain|
      invariant forall j :: 0 <= j < i ==> order[|chain| - 1 - j] == chain[j]
    {
      if i > 0 {
        NextBackward(net, l0, l1, callCount, chain, order, request, i);
      }
    }
  }

  lemma SameSize(a: seq<int>, b: seq<int>)
    requires Distinct(a) && Distinct(b) && forall n :: n in a <==> n in b
    ensures |a| == |b|
  {
    DistinctSize(a);
    DistinctSize(b);
    var s, t := set x | x in a, set x | x in b;
    assert forall x :: x in s <==> x in t;
    assert s == t;
  }

  /** The node that asked a node of a chain is the one before it. */
  lemma ParentOnChain(net: map<int, Node>, l0: map<int, Memory>, l1: map<int, Memory>, chain: seq<int>,
                      order: seq<int>, at: int, m: int) returns (p: int)
    requires IsChain(net, chain) && 0 <= at < |order| && 0 <= m < |chain| && order[at] == chain[m]
    requires (forall n :: n in order ==> n in chain) && AskedLater(net, l0, l1, order, at)
    ensures at < p < |order| && 0 < m && order[p] == chain[m - 1]
    ensures chain[m - 1] in l1 && chain[m] in l1
    ensures l1[chain[m]].asked == Min(FRAMES_PER_BUFFER, l1[chain[m - 1]].asked)
  {
    p :| at < p < |order| && AskedInOrder(net, l0, l1, order, p, at);
    assert order[p] in order;
    var q :| 0 <= q < |chain| && chain[q] == order[p];
    var ports := net[order[p]].ports;
    var j: nat :| j < |ports| && AskedAt(ports, l0, l1, order[..p], l1[order[p]].asked, j,
                                         order[at], l1[order[at]].asked);
    assert q + 1 < |chain| && ports == [Some(chain[q + 1])];
    assert chain[q + 1] == chain[m];
    assert q + 1 == m;
  }

  lemma NextBackward(net: map<int, Node>, l0: map<int, Memory>, l1: map<int, Memory>, callCount: int,
                     chain: seq<int>, order: seq<int>, request: int, i: nat)
    requires IsChain(net, chain) && Explained(net, l0, l1, callCount, order, chain[0], request)
    requires Distinct(order) && (forall n :: n in order <==> n in chain) && |order| == |chain| && 0 < i < |chain|
    requires forall j :: 0 <= j < i ==> order[|chain| - 1 - j] == chain[j]
    ensures order[|chain| - 1 - i] == chain[i]
  {
    hide AskedLater, Served;
    var at := |chain| - 1 - i;
    assert order[at] in order;
    var m :| 0 <= m < |chain| && chain[m] == order[at];
    var p := ParentOnChain(net, l0, l1, chain, order, at, m);
    var parent := |chain| - 1 - p;
    assert order[|chain| - 1 - parent] == chain[parent];
    assert parent == m - 1;
  }

  /** On a chain every node behind the root is asked for the request of the root, cut to one buffer. */
  lemma {:induction false} ChainAsked(net: map<int, Node>, l0: map<int, Memory>, l1: map<int, Memory>,
                                      callCount: int, chain: seq<int>, order: seq<int>, request: int, i: nat)
    requires IsChain(net, chain) && RanBackward(chain, order) && 0 < i < |chain|
    requires Explained(net, l0, l1, callCount, order, chain[0], request)
    ensures chain[i] in l1 && l1[chain[i]].asked == Min(FRAMES_PER_BUFFER, request)
  {
    hide Served;
    var at := |chain| - 1 - i;
    assert order[at] == chain[i] && AskedLater(net, l0, l1, order, at);
    AllOnChain(chain, order);
    var p := ParentOnChain(net, l0, l1, chain, order, at, i);
    if i > 1 {
      ChainAsked(net, l0, l1, callCount, chain, order, request, i - 1);
    } else {
      assert order[|order| - 1] == chain[0];
    }
  }

  lemma AllOnChain(chain: seq<int>, order: seq<int>)
    requires RanBackward(chain, order)
    ensures forall n :: n in order ==> n in chain
  {
    forall i | 0 <= i < |order|
      ensures order[i] in chain
    {
      assert order[|chain| - 1 - (|chain| - 1 - i)] == chain[|chain| - 1 - i];
    }
  }

  /** A pull of a chain: its source is asked for the request, cut to one buffer, and the root answers
      what the nodes, one after the other, make of the source's answer. */
  lemma ChainAnswers(net: map<int, Node>, l0: map<int, Memory>, l1: map<int, Memory>, callCount: int,
                     chain: seq<int>, order: seq<int>, request: int)
    requires IsChain(net, chain) && RanBackward(chain, order) && 1 < |chain|
    requires Explained(net, l0, l1, callCount, order, chain[0], request)
    ensures forall i :: 0 <= i < |chain| ==> chain[i] in l0 && chain[i] in l1
    ensures var source := chain[|chain| - 1];
            var frames := Min(FRAMES_PER_BUFFER, request);
            && l1[source].asked == frames
            && l1[source].frames == Answer(net[source], |l0[source].log|, frames)
            && l1[source].log == l0[source].log + (if 0 < frames then [callCount] else [])
    ensures l1[chain[0]].frames == Yield(net, l0, chain, Min(FRAMES_PER_BUFFER, request))
  {
    forall i | 0 <= i < |chain|
      ensures chain[i] in l0 && chain[i] in l1
    {
      assert Served(net, l0, l1, callCount, order[..|chain| - 1 - i], order[|chain| - 1 - i]);
    }
    assert Served(net, l0, l1, callCount, order[..0], order[0]);
    ChainAsked(net, l0, l1, callCount, chain, order, request, |chain| - 1);
    ChainYields(net, l0, l1, callCount, chain, order, request, 0);
    assert chain[0..] == chain;
  }

  lemma {:induction false} ChainYields(net: map<int, Node>, l0: map<int, Memory>, l1: map<int, Memory>,
                                       callCount: int, chain: seq<int>, order: seq<int>, request: int, i: nat)
    requires IsChain(net, chain) && RanBackward(chain, order) && i < |chain| && 1 < |chain|
    requires Explained(net, l0, l1, callCount, order, chain[0], request)
    requires forall k :: 0 <= k < |chain| ==> chain[k] in l0 && chain[k] in l1
    ensures forall k :: 0 <= k < |chain[i..]| ==> chain[i..][k] in net && chain[i..][k] in l0
    ensures l1[chain[i]].frames == Yield(net, l0, chain[i..], Min(FRAMES_PER_BUFFER, request))
    decreases |chain| - i
  {
    var at := |chain| - 1 - i;
    assert order[at] == chain[i] && Served(net, l0, l1, callCount, order[..at], order[at]);
    if i == |chain| - 1 {
      ChainAsked(net, l0, l1, callCount, chain, order, request, i);
    } else {
      ChainYields(net, l0, l1, callCount, chain, order, request, i + 1);
      assert net[chain[i]].ports == [Some(chain[i + 1])] && order[at - 1] == chain[i + 1];
      assert order[..at][at - 1] == chain[i + 1];
      assert chain[i..][1..] == chain[i + 1..];
    }
  }
}
