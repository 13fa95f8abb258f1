/** Pulling data through a graph of nodes, and resetting it, when the graph may share nodes between
    branches and may have cycles (src/flowgraph/FlowGraphNode.cpp). */
module FlowGraph {
  import opened Basics
  import opened GraphPaths
  import opened PullRequests

  /** The nodes that still may run under a call count. */
  ghost function Stale(counts: map<int, int>, callCount: int): set<int> {
    set n | n in counts && counts[n] < callCount
  }

  class FlowGraphNode {
    ghost const id: int                // its name in the graph
    const process: (nat, int) -> int   // what onProcess answers: at which run, to which frame count
    var inputs: seq<FlowGraphNode?>    // the node connected to each input port, if any
    var automatic: bool                // pull the inputs before processing
    var lastCallCount: int
    var lastFrameCount: int
    var blockRecursion: bool
    var log: seq<int>                  // the call counts under which onProcess ran
    ghost var lastRequest: int         // the frames it was asked for when it last ran

    constructor (ghost id: int, process: (nat, int) -> int, automatic: bool)
      ensures this.id == id && this.process == process && this.automatic == automatic
      ensures inputs == [] && lastCallCount == INITIAL_CALL_COUNT && lastFrameCount == 0
      ensures !blockRecursion && log == []
    {
      this.id := id;
      this.process := process;
      this.automatic := automatic;
      inputs := [];
      lastCallCount, lastFrameCount, blockRecursion := INITIAL_CALL_COUNT, 0, false;
      log, lastRequest := [], 0;
    }

    method AddInputPort()
      modifies this`inputs
      ensures inputs == old(inputs) + [null]
    {
      inputs := inputs + [null];
    }

    /** Connects the output of `node` to input port `port`; an earlier connection is replaced. */
    method Connect(port: int, node: FlowGraphNode)
      requires 0 <= port < |inputs|
      modifies this`inputs
      ensures inputs == old(inputs)[port := node]
    {
      inputs := inputs[port := node];
    }

    /** The nodes connected to the input ports. */
    ghost function InputIds(): set<int>
      reads this`inputs
    {
      set i | 0 <= i < |inputs| && inputs[i] != null :: inputs[i].id
    }

    method OnProcess(callCount: int, numFrames: int) returns (frameCount: int)
      modifies this`log
      ensures frameCount == process(|old(log)|, numFrames)
      ensures log == old(log) + [callCount]
    {
      frameCount := process(|log|, numFrames);
      log := log + [callCount];
    }

    /** Reads the inputs, then processes them, unless the node already ran under this call count:
        then the remembered frame count is the answer. `order` lists the nodes that this call made
        run, as they finish; `waiting` are the nodes whose pull led here. */
    method PullData(numFrames: int, callCount: int, ghost g: map<int, FlowGraphNode>,
                    ghost up: map<int, set<int>>, ghost net: map<int, Node>, ghost before: map<int, int>,
                    ghost logs: map<int, Memory>, ghost waiting: set<int>, ghost rank: int -> int)
        returns (frameCount: int, ghost order: seq<int>, ghost after: map<int, int>, ghost logs': map<int, Memory>)
      requires InGraph(g, up, net) && before == Counts(g) && logs == Logs(g)
      modifies g.Values`lastCallCount, g.Values`lastFrameCount, g.Values`log, g.Values`lastRequest
      ensures InGraph(g, up, net) && after == Counts(g) && logs' == Logs(g)
      ensures Logged(logs, logs', callCount, order)
      ensures Pulled(up, before, after, callCount, order) && FromRoot(up, before, callCount, id, order)
      ensures callCount <= lastCallCount && frameCount == lastFrameCount
      ensures id in order <==> old(lastCallCount) < callCount
      ensures Ordered(rank, up, waiting, id) ==>
                InputsFirst(up, before, callCount, waiting, order) && Below(rank, rank(id), order)
      ensures Explained(net, logs, logs', callCount, order, id, numFrames)
      ensures id in logs' && frameCount == logs'[id].frames
      decreases Stale(before, callCount), 4
    {
      hide *;
      InGraphFacts(g, up, net, before);
      // A node that is under way or has run is not entered again.
      if callCount > lastCallCount {
        frameCount, order, after, logs' := Run(numFrames, callCount, g, up, net, before, logs, waiting, rank);
      } else {
        frameCount, order, after, logs' := lastFrameCount, [], before, logs;
        NothingExplained(net, logs, callCount, id, numFrames);
        PullsNothing(up, before, logs, callCount, waiting, id, rank);
      }
    }

    method Run(numFrames: int, callCount: int, ghost g: map<int, FlowGraphNode>,
               ghost up: map<int, set<int>>, ghost net: map<int, Node>, ghost before: map<int, int>,
               ghost logs: map<int, Memory>, ghost waiting: set<int>, ghost rank: int -> int)
        returns (frameCount: int, ghost order: seq<int>, ghost after: map<int, int>, ghost logs': map<int, Memory>)
      requires InGraph(g, up, net) && before == Counts(g) && logs == Logs(g)
      requires lastCallCount < callCount
      modifies g.Values`lastCallCount, g.Values`lastFrameCount, g.Values`log, g.Values`lastRequest
      ensures InGraph(g, up, net) && after == Counts(g) && logs' == Logs(g)
      ensures Logged(logs, logs', callCount, order)
      ensures Pulled(up, before, after, callCount, order) && FromRoot(up, before, callCount, id, order)
      ensures lastCallCount == callCount && frameCount == lastFrameCount && id in order
      ensures Ordered(rank, up, waiting, id) ==>
                InputsFirst(up, before, callCount, waiting, order) && Below(rank, rank(id), order)
      ensures Explained(net, logs, logs', callCount, order, id, numFrames)
      ensures id in logs' && frameCount == logs'[id].frames
      decreases Stale(before, callCount), 3
    {
      hide *;
      InGraphFacts(g, up, net, before);
      Mark(callCount, g, up, net, before, logs);
      frameCount, order, after, logs' := PullInputs(numFrames, callCount, g, up, net, before, logs, waiting, rank);
      ghost var l1, offered := logs', frameCount;
      frameCount, logs' := Process(callCount, frameCount, numFrames, g, up, net, after, logs');
      NodeServed(net, up, before[id := callCount], after, logs, l1, logs', callCount, waiting + {id}, id, order,
                 rank, Ordered(rank, up, waiting, id), numFrames, offered);
      NodeDone(up, before, after, logs, l1, logs', callCount, waiting, id, order, rank,
               Ordered(rank, up, waiting, id));
      order := order + [id];
    }

    method Mark(callCount: int, ghost g: map<int, FlowGraphNode>, ghost up: map<int, set<int>>,
                ghost net: map<int, Node>, ghost before: map<int, int>, ghost logs: map<int, Memory>)
      requires InGraph(g, up, net) && before == Counts(g) && logs == Logs(g)
      modifies this`lastCallCount
      ensures lastCallCount == callCount && InGraph(g, up, net) && logs == Logs(g)
      ensures id in before && Counts(g) == before[id := callCount]
    {
      hide InputIds, Upstream, Net;
      lastCallCount := callCount;
      var after := before[id := callCount];
      assert Counts(g).Keys == after.Keys;
      assert forall n :: n in g ==> Counts(g)[n] == after[n];
    }

    /** Processes the frames that the ports left of a request, if there are any, and remembers the
        answer. */
    method Process(callCount: int, numFrames: int, ghost request: int, ghost g: map<int, FlowGraphNode>,
                   ghost up: map<int, set<int>>, ghost net: map<int, Node>, ghost counts: map<int, int>,
                   ghost logs: map<int, Memory>)
        returns (frameCount: int, ghost logs': map<int, Memory>)
      requires InGraph(g, up, net) && counts == Counts(g) && logs == Logs(g)
      modifies this`log, this`lastFrameCount, this`lastRequest
      ensures InGraph(g, up, net) && counts == Counts(g) && logs' == Logs(g)
      ensures frameCount == lastFrameCount && id in logs && id in logs' && id in net
      ensures logs' == logs[id := logs'[id]] && logs'[id].frames == frameCount
      ensures Processed(net[id], logs[id], logs'[id], callCount, numFrames, request)
    {
      hide InputIds, Upstream, Processed, Net;
      assert id in g && g[id] == this && g[id] in g.Values;
      ProcessIs(g, up, net);
      frameCount := ProcessFrames(callCount, numFrames, request, net[id]);
      logs' := UpdatedLogs(g, logs);
    }

    lemma ProcessIs(g: map<int, FlowGraphNode>, up: map<int, set<int>>, net: map<int, Node>)
      requires InGraph(g, up, net)
      ensures id in net && net[id].process == process
    {
    }

    method ProcessFrames(callCount: int, numFrames: int, ghost request: int, ghost node: Node)
        returns (frameCount: int)
      requires node.process == process
      modifies this`log, this`lastFrameCount, this`lastRequest
      ensures frameCount == lastFrameCount
      ensures Processed(node, old(Memory(log, lastFrameCount, lastRequest)),
                        Memory(log, lastFrameCount, lastRequest), callCount, numFrames, request)
    {
      frameCount := numFrames;
      if frameCount > 0 {
        frameCount := OnProcess(callCount, frameCount);
      }
      lastFrameCount := frameCount;
      lastRequest := request;
    }

    lemma UpdatedLogs(g: map<int, FlowGraphNode>, logs: map<int, Memory>) returns (logs': map<int, Memory>)
      requires IsGraph(g) && id in g && g[id] == this && logs.Keys == g.Keys
      requires forall n :: n in g && n != id ==> logs[n] == Memory(g[n].log, g[n].lastFrameCount, g[n].lastRequest)
      ensures logs' == Logs(g) && logs' == logs[id := Memory(log, lastFrameCount, lastRequest)]
    {
      logs' := logs[id := Memory(log, lastFrameCount, lastRequest)];
      assert Logs(g).Keys == logs'.Keys;
      assert forall n :: n in g ==> Logs(g)[n] == logs'[n];
    }

    /** Pulls every input port in turn, if that is left to the node; the frame count of one is the
        request to the next. */
    method PullInputs(numFrames: int, callCount: int, ghost g: map<int, FlowGraphNode>,
                      ghost up: map<int, set<int>>, ghost net: map<int, Node>, ghost before: map<int, int>,
                      ghost logs: map<int, Memory>, ghost waiting: set<int>, ghost rank: int -> int)
        returns (frameCount: int, ghost order: seq<int>, ghost after: map<int, int>, ghost logs': map<int, Memory>)
      requires InGraph(g, up, net) && id in before && before[id] < callCount && before.Keys == g.Keys
      requires Counts(g) == before[id := callCount] && logs == Logs(g)
      modifies g.Values`lastCallCount, g.Values`lastFrameCount, g.Values`log, g.Values`lastRequest
      ensures InGraph(g, up, net) && after == Counts(g) && logs' == Logs(g) && callCount <= lastCallCount
      ensures Step(up, before[id := callCount], after, logs, logs', callCount, waiting + {id}, id, order,
                   rank, Ordered(rank, up, waiting, id))
      ensures InputsDone(up, after, callCount, id)
      ensures id in logs && id in logs' && logs'[id] == logs[id]
      ensures id in net && Fed(net, logs, logs', callCount, order, id, numFrames, |net[id].ports|)
      ensures frameCount == Offered(net[id].ports, logs, logs', order, numFrames, |net[id].ports|)
      decreases Stale(before, callCount), 2
    {
      hide Fed, Offered, Net, Step, Ordered, IsGraph, InGraph, Upstream, Counts, Logs, InputIds, PortsDone;
      ghost var ranked := Ordered(rank, up, waiting, id);
      ghost var marked := before[id := callCount];
      InGraphFacts(g, up, net, marked);
      frameCount, order, after, logs' := numFrames, [], marked, logs;
      NoStep(up, marked, logs, callCount, waiting + {id}, id, rank, ranked);
      PortsAre(g, up, net);
      NothingFed(net, logs, callCount, id, numFrames);
      NoPortsDone(after, callCount);
      assert Offered(net[id].ports, logs, logs, [], numFrames, 0) == numFrames by {
        NothingOffered(net[id].ports, logs, numFrames);
      }
      if automatic {
        var i := 0;
        while i < |inputs|
          invariant 0 <= i <= |inputs| && InGraph(g, up, net) && after == Counts(g) && logs' == Logs(g)
          invariant Step(up, marked, after, logs, logs', callCount, waiting + {id}, id, order, rank, ranked)
          invariant PortsDone(after, i, callCount)
          invariant id in net && |net[id].ports| == |inputs|
          invariant Fed(net, logs, logs', callCount, order, id, numFrames, i)
          invariant frameCount == Offered(net[id].ports, logs, logs', order, numFrames, i)
        {
          ghost var m1, l1, sub, offered := after, logs', [], frameCount;
          frameCount, sub, after, logs' :=
            PullPort(i, inputs[i], frameCount, callCount, g, up, net, before, after, logs, logs', waiting, rank, order);
          StepThenStep(up, marked, m1, after, logs, l1, logs', callCount, waiting + {id}, id, order, sub,
                       rank, ranked);
          PortFed(g, up, net, marked, m1, after, logs, l1, logs', callCount, waiting + {id}, order, sub, rank,
                  ranked, numFrames, i, offered, frameCount);
          OnePortMore(up, m1, after, l1, logs', callCount, waiting + {id}, id, sub, rank, ranked, i);
          order := order + sub;
          i := i + 1;
        }
      }
      AllPortsDone(g, up, net, after, callCount);
      SelfStays(up, marked, after, logs, logs', callCount, waiting + {id}, id, order, rank, ranked);
    }

    /** Pulls one input port: an unconnected port answers with what its own buffer holds. */
    method PullPort(i: int, port: FlowGraphNode?, numFrames: int, callCount: int, ghost g: map<int, FlowGraphNode>,
                    ghost up: map<int, set<int>>, ghost net: map<int, Node>, ghost m0: map<int, int>,
                    ghost m1: map<int, int>,
                    ghost logs0: map<int, Memory>, ghost logs: map<int, Memory>, ghost waiting: set<int>,
                    ghost rank: int -> int, ghost before: seq<int>)
        returns (frameCount: int, ghost sub: seq<int>, ghost m2: map<int, int>, ghost logs': map<int, Memory>)
      requires InGraph(g, up, net) && automatic && m1 == Counts(g) && logs == Logs(g)
      requires 0 <= i < |inputs| && inputs[i] == port
      requires m0.Keys == g.Keys && id in m0 && m0[id] < callCount
      requires Step(up, m0[id := callCount], m1, logs0, logs, callCount, waiting + {id}, id, before,
                    rank, Ordered(rank, up, waiting, id))
      modifies g.Values`lastCallCount, g.Values`lastFrameCount, g.Values`log, g.Values`lastRequest
      ensures InGraph(g, up, net) && m2 == Counts(g) && logs' == Logs(g)
      ensures Step(up, m1, m2, logs, logs', callCount, waiting + {id}, id, sub,
                   rank, Ordered(rank, up, waiting, id))
      ensures port != null ==> port.id in m2 && callCount <= m2[port.id]
      ensures if port == null then sub == [] && logs' == logs && frameCount == Min(FRAMES_PER_BUFFER, numFrames)
              else && Explained(net, logs, logs', callCount, sub, port.id, Min(FRAMES_PER_BUFFER, numFrames))
                   && port.id in logs' && frameCount == logs'[port.id].frames
      decreases Stale(m0, callCount), 1
    {
      hide Pulled, FromRoot, InputsFirst, Below, Logged, Step, Stale, IsGraph, Upstream, Counts, Logs, InputIds;
      hide Explained, Net;
      ghost var ranked := Ordered(rank, up, waiting, id);
      if port == null {
        frameCount, sub, m2, logs' := Min(FRAMES_PER_BUFFER, numFrames), [], m1, logs;
        NoStep(up, m1, logs, callCount, waiting + {id}, id, rank, ranked);
      } else {
        PortInGraph(g, up, net, i);
        StaleShrinks(up, m0, m1, logs0, logs, callCount, waiting + {id}, id, before, rank, ranked);
        OrderedInput(rank, up, waiting, id, port.id);
        frameCount, sub, m2, logs' :=
          port.PullData(Min(FRAMES_PER_BUFFER, numFrames), callCount, g, up, net, m1, logs, waiting + {id}, rank);
        InputStep(up, m1, m2, logs, logs', callCount, waiting + {id}, id, port.id, sub, rank, ranked);
      }
    }

    /** The pull of a sink, under its next call count: exactly the nodes reached through nodes that
        have not run under it run, each once and, unless there are cycles, after what they read from.
        When no node upstream is ahead of the sink, these are all the nodes upstream. */
    method PullSink(numFrames: int, ghost g: map<int, FlowGraphNode>, ghost up: map<int, set<int>>,
                    ghost net: map<int, Node>, ghost before: map<int, int>, ghost logs: map<int, Memory>,
                    ghost rank: int -> int)
        returns (frameCount: int, ghost order: seq<int>, ghost after: map<int, int>, ghost logs': map<int, Memory>)
      requires InGraph(g, up, net) && before == Counts(g) && logs == Logs(g)
      modifies g.Values`lastCallCount, g.Values`lastFrameCount, g.Values`log, g.Values`lastRequest
      ensures InGraph(g, up, net) && after == Counts(g) && logs' == Logs(g)
      ensures lastCallCount == old(lastCallCount) + 1 && frameCount == lastFrameCount
      ensures id in before && Ran(up, before, after, id, order)
      ensures Logged(logs, logs', old(lastCallCount) + 1, order)
      ensures LogsRise(before, logs) ==> LogsRise(after, logs')
      ensures Acyclic(up, rank) ==> InputsFirst(up, before, old(lastCallCount) + 1, {}, order)
      ensures Leads(up, before, id) ==> RanAll(up, id, order) && Leads(up, after, id)
      ensures Leads(up, before, id) && Acyclic(up, rank) ==> ReadsBackward(up, order)
      ensures Explained(net, logs, logs', old(lastCallCount) + 1, order, id, numFrames)
      ensures id in logs' && frameCount == logs'[id].frames
      ensures forall chain :: Leads(up, before, id) && IsChain(net, chain) && chain[0] == id && 1 < |chain| ==>
                ChainServed(net, logs, logs', old(lastCallCount) + 1, chain, numFrames)
    {
      hide *;
      InGraphFacts(g, up, net, before);
      frameCount, order, after, logs' := PullData(numFrames, lastCallCount + 1, g, up, net, before, logs, {}, rank);
      InGraphCloses(g, up, net);
      InGraphFacts(g, up, net, after);
      SinkPulled(up, before, after, logs, logs', id, order, rank);
      InGraphWired(g, up, net);
      ChainsServed(up, net, before, after, logs, logs', id, order, numFrames);
    }

    /** Resets this node and everything upstream that can be reached without meeting a node whose
        flag is up; every flag is left as it was. */
    method PullReset(ghost g: map<int, FlowGraphNode>, ghost links: map<int, set<int>>,
                     ghost flags: set<int>, ghost before: map<int, Recall>)
        returns (ghost after: map<int, Recall>)
      requires InNet(g, links) && flags == Flagged(g) && before == Recalls(g)
      modifies g.Values`lastCallCount, g.Values`lastFrameCount, g.Values`blockRecursion
      ensures InNet(g, links) && flags == Flagged(g) && after == Recalls(g)
      ensures after == Wiped(before, ReachSet(links, flags, id))
      decreases links.Keys - flags, 2
    {
      hide InNet, Flagged, Recalls, Wiped, ReachSet, InputIds, IsGraph;
      InNetFacts(g, links, flags);
      if !blockRecursion {
        SetFlag(true, g, links, flags, before);
        after := ResetPorts(g, links, flags, before);
        SetFlag(false, g, links, flags + {id}, after);
        assert flags + {id} - {id} == flags;
        after := Reset(g, links, flags, after);
        WipedTwice(before, ReachInputs(links, flags + {id}, links[id]), {id});
        ReachSetSplits(links, flags, id);
      } else {
        after := before;
        BlockedWipesNothing(links, flags, before, id);
      }
    }

    /** Resets from every input port in turn, connected automatically or not. */
    method ResetPorts(ghost g: map<int, FlowGraphNode>, ghost links: map<int, set<int>>,
                      ghost flags: set<int>, ghost before: map<int, Recall>)
        returns (ghost after: map<int, Recall>)
      requires InNet(g, links) && id !in flags && flags + {id} == Flagged(g) && before == Recalls(g)
      requires id in links
      modifies g.Values`lastCallCount, g.Values`lastFrameCount, g.Values`blockRecursion
      ensures InNet(g, links) && flags + {id} == Flagged(g) && after == Recalls(g)
      ensures after == Wiped(before, ReachInputs(links, flags + {id}, links[id]))
      decreases links.Keys - flags, 1
    {
      hide InNet, Flagged, Recalls, Wiped, ReachSet, ReachInputs, InputIds, IsGraph;
      after := before;
      ghost var done: set<int> := {};
      NothingWiped(links, flags + {id}, before);
      var i := 0;
      while i < |inputs|
        invariant 0 <= i <= |inputs|
        invariant InNet(g, links) && flags + {id} == Flagged(g) && after == Recalls(g)
        invariant after == Wiped(before, ReachInputs(links, flags + {id}, done))
        invariant done == PortIds(i)
      {
        ghost var m1 := after;
        if inputs[i] != null {
          PortInNet(g, links, flags, i);
          after := inputs[i].PullReset(g, links, flags + {id}, m1);
          WipedTwice(before, ReachInputs(links, flags + {id}, done), ReachSet(links, flags + {id}, inputs[i].id));
          OneInputMore(links, flags + {id}, done, inputs[i].id);
          done := done + {inputs[i].id};
        }
        PortIdsNext(i);
        i := i + 1;
      }
      AllPortIds(g, links);
    }

    method SetFlag(up: bool, ghost g: map<int, FlowGraphNode>, ghost links: map<int, set<int>>,
                   ghost flags: set<int>, ghost recalls: map<int, Recall>)
      requires InNet(g, links) && flags == Flagged(g) && recalls == Recalls(g)
      modifies this`blockRecursion
      ensures InNet(g, links) && recalls == Recalls(g)
      ensures Flagged(g) == if up then flags + {id} else flags - {id}
    {
      blockRecursion := up;
      assert Recalls(g) == recalls;
      assert forall n :: n in Flagged(g) <==> n in if up then flags + {id} else flags - {id};
    }

    method Reset(ghost g: map<int, FlowGraphNode>, ghost links: map<int, set<int>>,
                 ghost flags: set<int>, ghost before: map<int, Recall>)
        returns (ghost after: map<int, Recall>)
      requires InNet(g, links) && flags == Flagged(g) && before == Recalls(g)
      modifies this`lastCallCount, this`lastFrameCount
      ensures lastFrameCount == 0 && lastCallCount == INITIAL_CALL_COUNT
      ensures InNet(g, links) && flags == Flagged(g) && after == Recalls(g) && after == Wiped(before, {id})
    {
      lastFrameCount := 0;
      lastCallCount := INITIAL_CALL_COUNT;
      after := Wiped(before, {id});
      assert Recalls(g).Keys == after.Keys;
      assert forall n :: n in g ==> Recalls(g)[n] == after[n];
    }

    /** This is a node of `g`, whose nodes are connected as `links` says. */
    ghost predicate InNet(g: map<int, FlowGraphNode>, links: map<int, set<int>>)
      reads g.Values`inputs
    {
      IsGraph(g) && links == Links(g) && id in g && g[id] == this
    }

    lemma InNetFacts(g: map<int, FlowGraphNode>, links: map<int, set<int>>, flags: set<int>)
      requires InNet(g, links) && flags == Flagged(g)
      ensures id in links && (id in flags <==> blockRecursion) && flags <= links.Keys
      ensures id in g && g[id] == this
    {
    }

    lemma PortInNet(g: map<int, FlowGraphNode>, links: map<int, set<int>>, flags: set<int>, i: int)
      requires InNet(g, links) && 0 <= i < |inputs| && inputs[i] != null && id in links && id !in flags
      ensures inputs[i].InNet(g, links) && links.Keys - (flags + {id}) < links.Keys - flags
    {
    }

    /** The nodes connected to the first `n` input ports. */
    ghost function PortIds(n: int): set<int>
      requires 0 <= n <= |inputs|
      reads this`inputs
    {
      set i | 0 <= i < n && inputs[i] != null :: inputs[i].id
    }

    lemma PortIdsNext(n: int)
      requires 0 <= n < |inputs|
      ensures PortIds(0) == {}
      ensures PortIds(n + 1) == PortIds(n) + if inputs[n] != null then {inputs[n].id} else {}
    {
    }

    lemma AllPortIds(g: map<int, FlowGraphNode>, links: map<int, set<int>>)
      requires InNet(g, links) && id in links
      ensures PortIds(|inputs|) == links[id]
    {
    }

    /** This is a node of the graph `g`, whose nodes pull from each other as `up` and `net` say. */
    ghost predicate InGraph(g: map<int, FlowGraphNode>, up: map<int, set<int>>, net: map<int, Node>)
      reads g.Values`inputs, g.Values`automatic
    {
      IsGraph(g) && up == Upstream(g) && net == Net(g) && id in g && g[id] == this
    }

    lemma InGraphCloses(g: map<int, FlowGraphNode>, up: map<int, set<int>>, net: map<int, Node>)
      requires InGraph(g, up, net)
      ensures Closed(up)
    {
    }

    lemma InGraphFacts(g: map<int, FlowGraphNode>, up: map<int, set<int>>, net: map<int, Node>,
                       counts: map<int, int>)
      requires InGraph(g, up, net) && counts == Counts(g)
      ensures id in up && counts.Keys == up.Keys == g.Keys && net.Keys == up.Keys
      ensures id in g && g[id] == this && counts[id] == lastCallCount
      ensures id in Logs(g) && Logs(g)[id].frames == lastFrameCount && Logs(g).Keys == up.Keys
    {
    }

    lemma InGraphWired(g: map<int, FlowGraphNode>, up: map<int, set<int>>, net: map<int, Node>)
      requires InGraph(g, up, net)
      ensures Wired(up, net)
    {
      forall n, k | n in net
        ensures k in up[n] <==> Some(k) in net[n].ports
      {
        g[n].PortsWired(k);
      }
    }

    /** What a pull goes through: the nodes on the ports, if pulls are automatic. */
    ghost function Ports(): (ports: seq<Option<int>>)
      reads this`inputs, this`automatic
      ensures |ports| == if automatic then |inputs| else 0
      ensures forall i :: 0 <= i < |ports| ==> ports[i] == if inputs[i] == null then None else Some(inputs[i].id)
    {
      var nodes := if automatic then inputs else [];
      seq(|nodes|, i requires 0 <= i < |nodes| => if nodes[i] == null then None else Some(nodes[i].id))
    }

    lemma PortsWired(k: int)
      ensures Some(k) in Ports() <==> automatic && k in InputIds()
    {
      if automatic && k in InputIds() {
        var i :| 0 <= i < |inputs| && inputs[i] != null && inputs[i].id == k;
        assert Ports()[i] == Some(k);
      }
    }

    lemma PortsAre(g: map<int, FlowGraphNode>, up: map<int, set<int>>, net: map<int, Node>)
      requires InGraph(g, up, net)
      ensures id in net && |net[id].ports| == (if automatic then |inputs| else 0)
    {
    }

    lemma NetPorts(g: map<int, FlowGraphNode>, up: map<int, set<int>>, net: map<int, Node>)
      requires InGraph(g, up, net)
      ensures id in net && net[id].ports == Ports()
    {
    }

    lemma DoneNotInStep(up: map<int, set<int>>, m1: map<int, int>, m2: map<int, int>,
                        l1: map<int, Memory>, l2: map<int, Memory>, callCount: int, waiting: set<int>,
                        node: int, sub: seq<int>, rank: int -> int, ranked: bool, n: nat)
      requires n <= |inputs| && PortsDone(m1, n, callCount)
      requires Step(up, m1, m2, l1, l2, callCount, waiting, node, sub, rank, ranked)
      ensures forall j :: 0 <= j < n && inputs[j] != null ==> inputs[j].id !in sub
    {
    }

    /** One port more has been pulled. */
    lemma PortFed(g: map<int, FlowGraphNode>, up: map<int, set<int>>, net: map<int, Node>,
                  m0: map<int, int>, m1: map<int, int>, m2: map<int, int>,
                  l0: map<int, Memory>, l1: map<int, Memory>, l2: map<int, Memory>, callCount: int,
                  waiting: set<int>, order: seq<int>, sub: seq<int>, rank: int -> int, ranked: bool,
                  request: int, i: nat, offered: int, frameCount: int)
      requires InGraph(g, up, net) && automatic && i < |inputs| && PortsDone(m1, i, callCount)
      requires Step(up, m0, m1, l0, l1, callCount, waiting, id, order, rank, ranked)
      requires Step(up, m1, m2, l1, l2, callCount, waiting, id, sub, rank, ranked)
      requires id in net && i < |net[id].ports| && Fed(net, l0, l1, callCount, order, id, request, i)
      requires offered == Offered(net[id].ports, l0, l1, order, request, i)
      requires if inputs[i] == null then sub == [] && l2 == l1 && frameCount == Min(FRAMES_PER_BUFFER, offered)
               else && Explained(net, l1, l2, callCount, sub, inputs[i].id, Min(FRAMES_PER_BUFFER, offered))
                    && inputs[i].id in l2 && frameCount == l2[inputs[i].id].frames
      ensures Fed(net, l0, l2, callCount, order + sub, id, request, i + 1)
      ensures frameCount == Offered(net[id].ports, l0, l2, order + sub, request, i + 1)
    {
      hide Fed, Explained, Offered, Step, PortsDone, Apart;
      NetPorts(g, up, net);
      if inputs[i] == null {
        assert order + sub == order;
        FedByBuffer(net, l0, l1, callCount, order, id, request, i);
      } else {
        StepsApart(up, m0, m1, m2, l0, l1, l2, callCount, waiting, id, order, sub, rank, ranked);
        DoneNotInStep(up, m1, m2, l1, l2, callCount, waiting, id, sub, rank, ranked, i);
        FedByNode(net, l0, l1, l2, callCount, order, sub, id, request, i, inputs[i].id);
      }
    }

    /** Inputs that have run stay so while a later port is pulled. */
    lemma OnePortMore(up: map<int, set<int>>, m1: map<int, int>, m2: map<int, int>,
                      l1: map<int, Memory>, l2: map<int, Memory>, callCount: int, waiting: set<int>, node: int,
                      sub: seq<int>, rank: int -> int, ranked: bool, n: nat)
      requires n < |inputs| && PortsDone(m1, n, callCount)
      requires Step(up, m1, m2, l1, l2, callCount, waiting, node, sub, rank, ranked)
      requires inputs[n] != null ==> inputs[n].id in m2 && callCount <= m2[inputs[n].id]
      ensures PortsDone(m2, n + 1, callCount)
    {
    }

    /** The first `n` ports have been pulled. */
    ghost predicate PortsDone(counts: map<int, int>, n: int, callCount: int)
      requires 0 <= n <= |inputs|
      reads this`inputs
    {
      forall j :: 0 <= j < n && inputs[j] != null ==> inputs[j].id in counts && callCount <= counts[inputs[j].id]
    }

    lemma NoPortsDone(counts: map<int, int>, callCount: int)
      ensures PortsDone(counts, 0, callCount)
    {
    }

    lemma AllPortsDone(g: map<int, FlowGraphNode>, up: map<int, set<int>>, net: map<int, Node>,
                       counts: map<int, int>, callCount: int)
      requires InGraph(g, up, net) && counts.Keys == g.Keys
      requires automatic ==> PortsDone(counts, |inputs|, callCount)
      ensures InputsDone(up, counts, callCount, id)
    {
    }

    /** A connected node is a node of the graph, directly upstream. */
    lemma PortInGraph(g: map<int, FlowGraphNode>, up: map<int, set<int>>, net: map<int, Node>, i: int)
      requires InGraph(g, up, net) && automatic && 0 <= i < |inputs| && inputs[i] != null
      ensures inputs[i].InGraph(g, up, net)
      ensures inputs[i].id in up && id in up && inputs[i].id in up[id]
    {
    }
  }

  ghost predicate IsGraph(g: map<int, FlowGraphNode>)
    reads g.Values`inputs
  {
    && (forall n :: n in g ==> g[n].id == n)
    && forall n, i :: n in g && 0 <= i < |g[n].inputs| && g[n].inputs[i] != null ==>
         g[n].inputs[i].id in g && g[g[n].inputs[i].id] == g[n].inputs[i]
  }

  /** The nodes each node pulls from. */
  ghost function Upstream(g: map<int, FlowGraphNode>): (up: map<int, set<int>>)
    reads g.Values`inputs, g.Values`automatic
    ensures up.Keys == g.Keys
  {
    map n | n in g :: if g[n].automatic then g[n].InputIds() else {}
  }

  /** The ports each node pulls, and what it answers. */
  ghost function Net(g: map<int, FlowGraphNode>): (net: map<int, Node>)
    reads g.Values`inputs, g.Values`automatic
    ensures net.Keys == g.Keys
  {
    map n | n in g :: Node(g[n].Ports(), g[n].process)
  }

  ghost predicate Wired(up: map<int, set<int>>, net: map<int, Node>) {
    net.Keys == up.Keys && forall n, k :: n in net ==> (k in up[n] <==> Some(k) in net[n].ports)
  }

  ghost function Counts(g: map<int, FlowGraphNode>): (counts: map<int, int>)
    reads g.Values`lastCallCount
    ensures counts.Keys == g.Keys
    ensures forall n :: n in g ==> counts[n] == g[n].lastCallCount
  {
    map n | n in g :: g[n].lastCallCount
  }

  ghost function Logs(g: map<int, FlowGraphNode>): (logs: map<int, Memory>)
    reads g.Values`log, g.Values`lastFrameCount, g.Values`lastRequest
    ensures logs.Keys == g.Keys
    ensures forall n :: n in g ==> logs[n] == Memory(g[n].log, g[n].lastFrameCount, g[n].lastRequest)
  {
    map n | n in g :: Memory(g[n].log, g[n].lastFrameCount, g[n].lastRequest)
  }

  /** The nodes connected to each node, pulled automatically or not. */
  ghost function Links(g: map<int, FlowGraphNode>): (links: map<int, set<int>>)
    reads g.Values`inputs
    ensures links.Keys == g.Keys
  {
    map n | n in g :: g[n].InputIds()
  }

  ghost function Flagged(g: map<int, FlowGraphNode>): set<int>
    reads g.Values`blockRecursion
  {
    set n | n in g && g[n].blockRecursion
  }

  ghost function Recalls(g: map<int, FlowGraphNode>): (recalls: map<int, Recall>)
    reads g.Values`lastCallCount, g.Values`lastFrameCount
    ensures recalls.Keys == g.Keys
  {
    map n | n in g :: Recall(g[n].lastCallCount, g[n].lastFrameCount)
  }

  /** What the pulls on behalf of `node`'s input ports do to the counts and to the memories. */
  ghost predicate Step(up: map<int, set<int>>, m0: map<int, int>, m1: map<int, int>,
                       l0: map<int, Memory>, l1: map<int, Memory>, callCount: int, waiting: set<int>,
                       node: int, order: seq<int>, rank: int -> int, ranked: bool)
  {
    Progress(up, m0, m1, callCount, waiting, node, order, rank, ranked)
    && Logged(l0, l1, callCount, order) && l0.Keys == up.Keys
  }

  lemma NoStep(up: map<int, set<int>>, m0: map<int, int>, l0: map<int, Memory>, callCount: int,
               waiting: set<int>, node: int, rank: int -> int, ranked: bool)
    requires m0.Keys == up.Keys && l0.Keys == up.Keys && node in up
    ensures Step(up, m0, m0, l0, l0, callCount, waiting, node, [], rank, ranked)
  {
  }

  lemma StepThenStep(up: map<int, set<int>>, m0: map<int, int>, m1: map<int, int>, m2: map<int, int>,
                     l0: map<int, Memory>, l1: map<int, Memory>, l2: map<int, Memory>, callCount: int,
                     waiting: set<int>, node: int, o1: seq<int>, o2: seq<int>, rank: int -> int, ranked: bool)
    requires Step(up, m0, m1, l0, l1, callCount, waiting, node, o1, rank, ranked)
    requires Step(up, m1, m2, l1, l2, callCount, waiting, node, o2, rank, ranked)
    ensures Step(up, m0, m2, l0, l2, callCount, waiting, node, o1 + o2, rank, ranked)
  {
    hide Pulled, FromInputs, InputsFirst, Below, Logged, Rises;
    LogThenLog(up, m0, m1, m2, l0, l1, l2, callCount, o1, o2);
    ProgressStep(up, m0, m1, m2, callCount, waiting, node, o1, o2, rank, ranked);
  }

  lemma StepsApart(up: map<int, set<int>>, m0: map<int, int>, m1: map<int, int>, m2: map<int, int>,
                   l0: map<int, Memory>, l1: map<int, Memory>, l2: map<int, Memory>, callCount: int,
                   waiting: set<int>, node: int, o1: seq<int>, o2: seq<int>, rank: int -> int, ranked: bool)
    requires Step(up, m0, m1, l0, l1, callCount, waiting, node, o1, rank, ranked)
    requires Step(up, m1, m2, l1, l2, callCount, waiting, node, o2, rank, ranked)
    ensures Apart(l0, l1, l2, o1, o2)
  {
    ApartFromPulls(up, m0, m1, m2, l0, l1, l2, callCount, o1, o2);
  }

  /** A pull of one input is a step of the node. */
  lemma InputStep(up: map<int, set<int>>, m0: map<int, int>, m1: map<int, int>,
                  l0: map<int, Memory>, l1: map<int, Memory>, callCount: int, waiting: set<int>,
                  node: int, input: int, order: seq<int>, rank: int -> int, ranked: bool)
    requires node in up && input in up[node] && l0.Keys == up.Keys
    requires Pulled(up, m0, m1, callCount, order) && FromRoot(up, m0, callCount, input, order)
    requires Logged(l0, l1, callCount, order)
    requires ranked ==> Acyclic(up, rank) && InputsFirst(up, m0, callCount, waiting, order)
                        && Below(rank, rank(input), order)
    ensures Step(up, m0, m1, l0, l1, callCount, waiting, node, order, rank, ranked)
  {
    InputProgress(up, m0, m1, callCount, waiting, node, input, order, rank, ranked);
  }

  /** With its inputs done, the node itself finishes: it has not run before in this pull. */
  lemma NodeDone(up: map<int, set<int>>, m0: map<int, int>, m1: map<int, int>,
                 l0: map<int, Memory>, l1: map<int, Memory>, l2: map<int, Memory>, callCount: int,
                 waiting: set<int>, node: int, order: seq<int>, rank: int -> int, ranked: bool)
    requires node in up && m0.Keys == up.Keys && m0[node] < callCount
    requires Step(up, m0[node := callCount], m1, l0, l1, callCount, waiting + {node}, node, order, rank, ranked)
    requires InputsDone(up, m1, callCount, node)
    requires node in l1 && exists m :: l2 == l1[node := m] && Remembers(l1[node], m, callCount)
    requires ranked ==> Ordered(rank, up, waiting, node)
    ensures Pulled(up, m0, m1, callCount, order + [node])
    ensures FromRoot(up, m0, callCount, node, order + [node])
    ensures ranked ==> InputsFirst(up, m0, callCount, waiting, order + [node])
                       && Below(rank, rank(node), order + [node])
    ensures Logged(l0, l2, callCount, order + [node])
    ensures node in l0 && l2[node := l0[node]] == l1
  {
    FinishNode(up, m0, m1, callCount, waiting, node, order, rank, ranked);
    assert node !in order;
  }

  lemma NothingOffered(ports: seq<Option<int>>, l0: map<int, Memory>, request: int)
    ensures Offered(ports, l0, l0, [], request, 0) == request
  {
  }

  /** The node has processed what its ports left of the request. */
  lemma NodeServed(net: map<int, Node>, up: map<int, set<int>>, m0: map<int, int>, m1: map<int, int>,
                   l0: map<int, Memory>, l1: map<int, Memory>, l2: map<int, Memory>, callCount: int,
                   waiting: set<int>, node: int, order: seq<int>, rank: int -> int, ranked: bool,
                   request: int, offered: int)
    requires node in m0 && m0[node] == callCount && m0.Keys == up.Keys
    requires Step(up, m0, m1, l0, l1, callCount, waiting, node, order, rank, ranked)
    requires node in net && Fed(net, l0, l1, callCount, order, node, request, |net[node].ports|)
    requires offered == Offered(net[node].ports, l0, l1, order, request, |net[node].ports|)
    requires node in l1 && node in l2 && l2 == l1[node := l2[node]]
    requires Processed(net[node], l1[node], l2[node], callCount, offered, request)
    ensures Explained(net, l0, l2, callCount, order + [node], node, request)
    ensures exists m :: l2 == l1[node := m] && Remembers(l1[node], m, callCount)
  {
    hide Fed, Offered, Explained;
    NodeFed(net, l0, l1, l2, callCount, order, node, request);
    assert Remembers(l1[node], l2[node], callCount);
  }

  lemma PullsNothing(up: map<int, set<int>>, m0: map<int, int>, logs: map<int, Memory>, callCount: int,
                     waiting: set<int>, node: int, rank: int -> int)
    requires m0.Keys == up.Keys
    ensures Pulled(up, m0, m0, callCount, []) && FromRoot(up, m0, callCount, node, [])
    ensures Logged(logs, logs, callCount, [])
    ensures InputsFirst(up, m0, callCount, waiting, []) && Below(rank, rank(node), [])
  {
  }

  lemma SelfStays(up: map<int, set<int>>, m0: map<int, int>, m1: map<int, int>,
                  l0: map<int, Memory>, l1: map<int, Memory>, callCount: int,
                  waiting: set<int>, node: int, order: seq<int>, rank: int -> int, ranked: bool)
    requires node in m0 && m0[node] == callCount && m0.Keys == up.Keys
    requires Step(up, m0, m1, l0, l1, callCount, waiting, node, order, rank, ranked)
    ensures node in m1 && m1[node] == callCount && node !in order
    ensures node in l0 && node in l1 && l1[node] == l0[node]
  {
  }

  /** Once a node is marked, fewer nodes are left to run. */
  lemma StaleShrinks(up: map<int, set<int>>, m0: map<int, int>, m1: map<int, int>,
                     l0: map<int, Memory>, l1: map<int, Memory>, callCount: int,
                     waiting: set<int>, node: int, order: seq<int>, rank: int -> int, ranked: bool)
    requires node in m0 && m0[node] < callCount && m0.Keys == up.Keys
    requires Step(up, m0[node := callCount], m1, l0, l1, callCount, waiting, node, order, rank, ranked)
    ensures Stale(m1, callCount) < Stale(m0, callCount)
  {
    assert node in Stale(m0, callCount) && node !in Stale(m1, callCount);
  }

  // ---------------------------------------------------------------- resets

  /** What a node remembers of its last pull. */
  datatype Recall = Recall(callCount: int, frames: int)

  const FRESH: Recall := Recall(INITIAL_CALL_COUNT, 0)

  /** The nodes of `nodes` are as new, the others unchanged. */
  ghost function Wiped(recalls: map<int, Recall>, nodes: set<int>): (r: map<int, Recall>)
    ensures r.Keys == recalls.Keys
  {
    map n | n in recalls :: if n in nodes then FRESH else recalls[n]
  }

  lemma WipedTwice(recalls: map<int, Recall>, a: set<int>, b: set<int>)
    ensures Wiped(Wiped(recalls, a), b) == Wiped(recalls, a + b)
  {
  }

  lemma NothingWiped(up: map<int, set<int>>, blocked: set<int>, recalls: map<int, Recall>)
    ensures Wiped(recalls, ReachInputs(up, blocked, {})) == recalls
  {
  }

  lemma BlockedWipesNothing(up: map<int, set<int>>, blocked: set<int>, recalls: map<int, Recall>, a: int)
    requires a in blocked
    ensures Wiped(recalls, ReachSet(up, blocked, a)) == recalls
  {
  }

  /** After a reset from a sink with no flag up, the sink leads again, whatever the counts were: the
      next pull runs everything upstream. */
  lemma ResetLeads(up: map<int, set<int>>, links: map<int, set<int>>, before: map<int, Recall>, sink: int)
    requires up.Keys == links.Keys && before.Keys == up.Keys && sink in up
    requires Within(up, links)
    ensures Leads(up, map n | n in before :: Wiped(before, ReachSet(links, {}, sink))[n].callCount, sink)
  {
    forall n | n in up && Reaches(up, {}, sink, n)
      ensures n in ReachSet(links, {}, sink)
    {
      ReachesMore(up, links, sink, n);
    }
    ReachesSelf(links, {}, sink);
  }

  // ---------------------------------------------------------------- pulls from a sink

  /** A pull from `sink` ran what it reaches through nodes that have not run under the new call
      count, each node once, and nothing else. */
  ghost predicate Ran(up: map<int, set<int>>, before: map<int, int>, after: map<int, int>, sink: int,
                      order: seq<int>)
    requires sink in before && before.Keys == after.Keys == up.Keys
  {
    && Distinct(order)
    && (forall n :: n in order <==> Reaches(up, Done(before, before[sink] + 1), sink, n))
    && forall n :: n in up ==> after[n] == if n in order then before[sink] + 1 else before[n]
  }

  ghost predicate RanAll(up: map<int, set<int>>, sink: int, order: seq<int>) {
    forall n :: n in order <==> Reaches(up, {}, sink, n)
  }

  /** Every node comes after all the nodes it reads from. */
  ghost predicate ReadsBackward(up: map<int, set<int>>, order: seq<int>) {
    forall i, k :: 0 <= i < |order| && order[i] in up && k in up[order[i]] ==> k in order[..i]
  }

  lemma SinkPulled(up: map<int, set<int>>, before: map<int, int>, after: map<int, int>,
                   logs: map<int, Memory>, logs': map<int, Memory>, sink: int, order: seq<int>, rank: int -> int)
    requires Closed(up) && before.Keys == up.Keys == logs.Keys && sink in up && sink in order
    requires Pulled(up, before, after, before[sink] + 1, order)
    requires FromRoot(up, before, before[sink] + 1, sink, order)
    requires Logged(logs, logs', before[sink] + 1, order)
    requires Ordered(rank, up, {}, sink) ==> InputsFirst(up, before, before[sink] + 1, {}, order)
    ensures Ran(up, before, after, sink, order)
    ensures LogsRise(before, logs) ==> LogsRise(after, logs')
    ensures Acyclic(up, rank) ==> InputsFirst(up, before, before[sink] + 1, {}, order)
    ensures Leads(up, before, sink) ==> RanAll(up, sink, order) && Leads(up, after, sink)
    ensures Leads(up, before, sink) && Acyclic(up, rank) ==> ReadsBackward(up, order)
  {
    PullsAllStale(up, before, after, before[sink] + 1, order, sink);
    if LogsRise(before, logs) {
      LogsKeepRising(up, before, after, logs, logs', before[sink] + 1, order);
    }
    if Leads(up, before, sink) {
      LeadingSinkPulled(up, before, after, sink, order);
      if Acyclic(up, rank) {
        InputsRunFirst(up, before, sink, order);
      }
    }
  }

  lemma LeadingSinkPulled(up: map<int, set<int>>, before: map<int, int>, after: map<int, int>, sink: int,
                          order: seq<int>)
    requires before.Keys == after.Keys == up.Keys && sink in up && Leads(up, before, sink)
    requires Ran(up, before, after, sink, order)
    ensures RanAll(up, sink, order) && Leads(up, after, sink)
  {
    forall n
      ensures n in order <==> Reaches(up, {}, sink, n)
    {
      NothingCutOff(up, before, sink, n);
    }
    ReachesSelf(up, {}, sink);
  }

  lemma InputsRunFirst(up: map<int, set<int>>, before: map<int, int>, sink: int, order: seq<int>)
    requires Closed(up) && before.Keys == up.Keys && sink in up && Leads(up, before, sink)
    requires RanAll(up, sink, order) && InputsFirst(up, before, before[sink] + 1, {}, order)
    ensures ReadsBackward(up, order)
  {
    forall i, k | 0 <= i < |order| && order[i] in up && k in up[order[i]]
      ensures k in order[..i]
    {
      assert order[i] in order;
      ReachesOnward(up, {}, sink, order[i], k);
    }
  }

  /** A chain was pulled: its source was asked for the request, cut to one buffer, processed exactly
      that, and the sink answers what the chain makes of it. */
  ghost predicate ChainServed(net: map<int, Node>, l0: map<int, Memory>, l1: map<int, Memory>, callCount: int,
                              chain: seq<int>, request: int)
    requires IsChain(net, chain)
  {
    var source, frames := chain[|chain| - 1], Min(FRAMES_PER_BUFFER, request);
    && (forall i :: 0 <= i < |chain| ==> chain[i] in net && chain[i] in l0 && chain[i] in l1)
    && l1[source].asked == frames
    && l1[source].frames == (if 0 < frames then net[source].process(|l0[source].log|, frames) else frames)
    && l1[source].log == l0[source].log + (if 0 < frames then [callCount] else [])
    && l1[chain[0]].frames == Yield(net, l0, chain, frames)
  }

  lemma ChainsServed(up: map<int, set<int>>, net: map<int, Node>, before: map<int, int>, after: map<int, int>,
                     l0: map<int, Memory>, l1: map<int, Memory>, sink: int, order: seq<int>, request: int)
    requires Wired(up, net) && sink in up && before.Keys == after.Keys == up.Keys
    requires Ran(up, before, after, sink, order) && (Leads(up, before, sink) ==> RanAll(up, sink, order))
    requires Explained(net, l0, l1, before[sink] + 1, order, sink, request)
    ensures forall chain :: Leads(up, before, sink) && IsChain(net, chain) && chain[0] == sink && 1 < |chain| ==>
              ChainServed(net, l0, l1, before[sink] + 1, chain, request)
  {
    forall chain | Leads(up, before, sink) && IsChain(net, chain) && chain[0] == sink && 1 < |chain|
      ensures ChainServed(net, l0, l1, before[sink] + 1, chain, request)
    {
      ChainReached(up, net, chain, order);
      ChainRunsBackward(net, l0, l1, before[sink] + 1, chain, order, request);
      ChainAnswers(net, l0, l1, before[sink] + 1, chain, order, request);
    }
  }

  lemma WiredAt(up: map<int, set<int>>, net: map<int, Node>, n: int, k: int)
    requires Wired(up, net) && n in net
    ensures n in up && (k in up[n] <==> Some(k) in net[n].ports)
  {
  }

  /** What the first node of a chain reaches is the chain. */
  lemma ChainReached(up: map<int, set<int>>, net: map<int, Node>, chain: seq<int>, order: seq<int>)
    requires Wired(up, net) && IsChain(net, chain) && RanAll(up, chain[0], order)
    ensures forall n :: n in order <==> n in chain
  {
    forall n, i | 0 <= i < |chain| && n in up[chain[i]]
      ensures i + 1 < |chain| && n == chain[i + 1]
    {
      WiredAt(up, net, chain[i], n);
      if i + 1 < |chain| {
        assert net[chain[i]].ports == [Some(chain[i + 1])];
      }
    }
    forall n | n in order
      ensures n in chain
    {
      var path :| IsPath(up, {}, chain[0], n, path);
      ClosedHolds(up, {}, (set k | k in chain), chain[0], n, path);
    }
    forall i | 0 <= i < |chain|
      ensures chain[i] in order
    {
      forall a, b | 0 <= a && b == a + 1 <= i
        ensures chain[b] in up[chain[a]]
      {
        assert net[chain[a]].ports == [Some(chain[b])];
        WiredAt(up, net, chain[a], chain[b]);
      }
      assert IsPath(up, {}, chain[0], chain[i], chain[..i + 1]);
    }
  }
}
