/** What each call on a native stream has done when it returns, in every run of any number of threads
    (src/aaudio/AudioStreamAAudio.cpp). */
module HandleCalls {
  import opened Basics
  import opened HandleLifetime

  /** The functions of the native library; a property is the state, a size, a count or a time. */
  datatype Function =
    GetProperty | GetState | RequestState | WaitForChange | RequestStop | CloseStream | OpenStream

  datatype Call = Call(entry: Function, on: Pointer)

  /** The library call a thread is inside. */
  function CallAt(l: Local): Option<Call> {
    match l
    case Shared(_, Inside(p)) => Some(Call(GetProperty, p))
    case ReqStateCall(id) => Some(Call(GetState, Handle(id)))
    case ReqCall(id) => Some(Call(RequestState, Handle(id)))
    case WaitCall(_, p) => Some(Call(WaitForChange, p))
    case StopStateCall(id) => Some(Call(GetState, Handle(id)))
    case StopCall(id) => Some(Call(RequestStop, Handle(id)))
    case CloseCall(id) => Some(Call(CloseStream, Handle(id)))
    case OpenReady => Some(Call(OpenStream, Null))
    case _ => None
  }

  /** What happened in a thread's current or last task: what the pointer was when it took its first
      lock, or the mutex anew after a sleep, or looked at it in order to open the stream; what it was
      when it took the exclusive lock; the library calls since that first lock; what the library
      answered last; how often it slept; and which handle it opened. */
  datatype Story = Story(begun: bool, found: Option<Pointer>, exclusive: Option<Pointer>, calls: seq<Call>,
                         answer: bool, sleeps: nat, made: Option<nat>)

  const UNTOLD: Story := Story(false, None, None, [], false, 0, None)

  /** What a step of the thread adds to its story, told by where it was and is, by the locks it took
      and by the handles there were and are. */
  function Tell(st: Story, l: Local, l': Local, h: Heap, h': Heap, c: Choice): Story {
    if c.Begin? then UNTOLD.(begun := true)
    else
      var first := (HoldsLock(l') && !HoldsLock(l)) || (HoldsShared(l') && !HoldsShared(l) && !HoldsLock(l))
                   || l.OpenCheck?;
      var answered := l.ReqStateCall? || l.StopStateCall? || l.WaitCall? || l.OpenReady?;
      Story(true,
            if first then Some(h.pointer) else st.found,
            if HoldsUnique(l') && !HoldsUnique(l) then Some(h.pointer) else st.exclusive,
            (if first then [] else st.calls) + (if CallAt(l').Some? then [CallAt(l').value] else []),
            if answered then c.yes else st.answer,
            st.sleeps + (if l'.Sleeping? then 1 else 0),
            if h.next < h'.next then Some(h.next) else st.made)
  }

  /** The story of thread `t` after a run. */
  function StoryOf(s: State, moves: seq<Move>, t: nat): Story {
    if |moves| == 0 then UNTOLD
    else
      var front, m := moves[..|moves| - 1], moves[|moves| - 1];
      var before, st := Run(s, front), StoryOf(s, front, t);
      if m.t == t && Enabled(before, t, m.choice) then
        var after := Next(before, t, m.choice);
        Tell(st, before.threads[t], after.threads[t], before.heap, after.heap, m.choice)
      else st
  }

  /** The calls that stop a stream before it is closed: none without workarounds; an old platform is
      asked first whether the stream has stopped. */
  function StopCalls(workarounds: bool, oldSdk: bool, answer: bool, p: Pointer): seq<Call> {
    if !workarounds then []
    else if !oldSdk then [Call(RequestStop, p)]
    else if answer then [Call(GetState, p)]
    else [Call(GetState, p), Call(RequestStop, p)]
  }

  function RequestCalls(oldSdk: bool, answer: bool, p: Pointer): seq<Call> {
    if !oldSdk then [Call(RequestState, p)]
    else if answer then [Call(GetState, p)]
    else [Call(GetState, p), Call(RequestState, p)]
  }

  function CloseCalls(task: Task, answer: bool, p: Pointer): seq<Call>
    requires task.Close?
  {
    [Call(GetProperty, p), Call(GetProperty, p)] + StopCalls(task.workarounds, task.oldSdk, answer, p)
    + [Call(CloseStream, p)]
  }

  /** What a call has done when it returns. When it found a handle it made exactly the library calls
      of its kind, on that handle; a close has closed the handle that was current when it took the
      exclusive lock; a wait without a change has slept as long as it was told to; an open that found
      no handle has tried to open one. */
  ghost predicate Completed(task: Task, st: Story, h: Heap) {
    && st.found.Some?
    && var p := st.found.value;
    match task
    case Request(oldSdk) => p.Handle? ==> st.calls == RequestCalls(oldSdk, st.answer, p)
    case Query(_) => p.Handle? ==> st.calls == [Call(GetProperty, p)]
    case Transition => p.Handle? ==> st.calls == [Call(GetProperty, p)]
    case Wait(time) =>
      && (p.Handle? ==> st.calls == [Call(WaitForChange, p)] && (st.answer || time <= st.sleeps * SLEEP_NANOS))
      && (if time <= 0 then st.sleeps == 0 else (st.sleeps - 1) * SLEEP_NANOS < time)
    case Close(_, _) =>
      && st.exclusive.Some?
      && var q := st.exclusive.value;
      && (q.Handle? ==> q.id in h.closes && 0 < |st.calls| && st.calls[|st.calls| - 1] == Call(CloseStream, q))
      && (p.Handle? ==> q == p && st.calls == CloseCalls(task, st.answer, p))
    case Open =>
      if p.Handle? then st.calls == []
      else st.calls == [Call(OpenStream, Null)] && (st.answer ==> st.made.Some? && st.made.value < h.next)
  }

  // ---------------------------------------------------------------- and why

  /** A handle found under a lock stays the current one. */
  ghost predicate Steady(st: Story, h: Heap) {
    st.found.Some? && (st.found.value.Handle? ==> h.pointer == st.found.value)
  }

  ghost predicate OnFound(st: Story, p: Pointer) {
    st.found.Some? && (st.found.value.Handle? ==> p == st.found.value)
  }

  ghost predicate OnExclusive(st: Story, p: Pointer) {
    st.exclusive.Some? && (st.exclusive.value.Handle? ==> p == st.exclusive.value)
    && st.found.Some? && (st.found.value.Handle? ==> st.exclusive.value == st.found.value)
  }

  ghost predicate CallsAre(st: Story, calls: Pointer -> seq<Call>) {
    st.found.Some? && (st.found.value.Handle? ==> st.calls == calls(st.found.value))
  }

  function Properties(n: nat): Pointer -> seq<Call> {
    p => seq(n, _ => Call(GetProperty, p))
  }

  ghost predicate SectionTold(st: Story, section: Section, n: nat, h: Heap) {
    match section
    case Ask => Steady(st, h) && CallsAre(st, Properties(n))
    case Held => Steady(st, h) && CallsAre(st, Properties(n))
    case Ready(id) => Steady(st, h) && OnFound(st, Handle(id)) && CallsAre(st, Properties(n))
    case Inside(p) => Steady(st, h) && OnFound(st, p) && CallsAre(st, Properties(n + 1))
    case Leave => Steady(st, h) && CallsAre(st, Properties(n + 1))
  }

  /** The time left after `n` sleeps. */
  ghost predicate TimeTold(time: int, timeLeft: int, n: int) {
    if time <= 0 then timeLeft == time && n == 0
    else
      && 0 <= n && (n - 1) * SLEEP_NANOS < time
      && timeLeft == if n * SLEEP_NANOS < time then time - n * SLEEP_NANOS else 0
  }

  ghost predicate RequestTold(oldSdk: bool, l: Local, st: Story, h: Heap) {
    match l
    case WantLock(w) => w == Request(oldSdk)
    case ReqLocked => Steady(st, h) && CallsAre(st, _ => [])
    case ReqReady(id) => Steady(st, h) && OnFound(st, Handle(id)) && CallsAre(st, _ => [])
    case ReqStateCall(id) => oldSdk && OnFound(st, Handle(id)) && CallsAre(st, p => [Call(GetState, p)])
    case ReqCall(id) =>
      && OnFound(st, Handle(id)) && (oldSdk ==> !st.answer)
      && CallsAre(st, p => RequestCalls(oldSdk, false, p))
    case Unlock => Completed(Request(oldSdk), st, h)
    case Idle => Completed(Request(oldSdk), st, h)
    case _ => false
  }

  ghost predicate WaitTold(time: int, l: Local, st: Story, h: Heap) {
    match l
    case WantLock(w) => w.Wait? && TimeTold(time, w.timeLeft, st.sleeps)
    case WaitLocked(left) => TimeTold(time, left, st.sleeps) && Steady(st, h) && CallsAre(st, _ => [])
    case WaitReady(left) => TimeTold(time, left, st.sleeps) && Steady(st, h) && CallsAre(st, _ => [])
    case WaitCall(left, p) =>
      TimeTold(time, left, st.sleeps) && OnFound(st, p) && CallsAre(st, q => [Call(WaitForChange, q)])
    case WaitUnlock(left) => TimeTold(time, left, st.sleeps) && 0 < left
    case Sleeping(left) => TimeTold(time, left, st.sleeps - 1) && 0 < left
    case Unlock => Completed(Wait(time), st, h)
    case Idle => Completed(Wait(time), st, h)
    case _ => false
  }

  ghost predicate CloseTold(task: Task, l: Local, st: Story, h: Heap)
    requires task.Close?
  {
    match l
    case WantLock(w) => w == task
    case Shared(CloseWritten, section) => SectionTold(st, section, 0, h)
    case Shared(CloseRead, section) => SectionTold(st, section, 1, h)
    case AskUnique => Steady(st, h) && CallsAre(st, Properties(2))
    case Unique => OnExclusive(st, h.pointer) && Steady(st, h) && CallsAre(st, Properties(2))
    case Exchanged(p) => OnExclusive(st, p) && CallsAre(st, Properties(2))
    case Closing(p) => OnExclusive(st, p) && CallsAre(st, Properties(2))
    case StopReady(id) => task.workarounds && OnExclusive(st, Handle(id)) && CallsAre(st, Properties(2))
    case StopStateCall(id) =>
      && task.workarounds && task.oldSdk && OnExclusive(st, Handle(id))
      && CallsAre(st, p => Properties(2)(p) + [Call(GetState, p)])
    case StopCall(id) =>
      && task.workarounds && (task.oldSdk ==> !st.answer) && OnExclusive(st, Handle(id))
      && CallsAre(st, p => Properties(2)(p) + StopCalls(true, task.oldSdk, false, p))
    case CloseReady(id) =>
      && OnExclusive(st, Handle(id))
      && CallsAre(st, p => Properties(2)(p) + StopCalls(task.workarounds, task.oldSdk, st.answer, p))
    case CloseCall(id) => OnExclusive(st, Handle(id)) && Completed(task, st, h)
    case Unlock => Completed(task, st, h)
    case Idle => Completed(task, st, h)
    case _ => false
  }

  ghost predicate Told(task: Task, l: Local, st: Story, h: Heap) {
    match task
    case Request(oldSdk) => RequestTold(oldSdk, l, st, h)
    case Wait(time) => WaitTold(time, l, st, h)
    case Close(_, _) => CloseTold(task, l, st, h)
    case Transition =>
      (match l
       case WantLock(w) => w == Transition
       case Shared(InTransition, section) => SectionTold(st, section, 0, h)
       case Unlock => Completed(task, st, h)
       case Idle => Completed(task, st, h)
       case _ => false)
    case Query(_) =>
      (match l
       case Shared(Plain, Ask) => true
       case Shared(Plain, section) => SectionTold(st, section, 0, h)
       case Idle => Completed(task, st, h)
       case _ => false)
    case Open =>
      (match l
       case OpenCheck => true
       case OpenReady => st.found == Some(Null) && st.calls == [Call(OpenStream, Null)]
       case Idle => Completed(task, st, h)
       case _ => false)
  }

  lemma BeginTells(task: Task, l: Local, before: Task, p: Pointer, st: Story, h: Heap)
    requires l.Idle?
    ensures var c := Begin(task);
            Told(task, Onward(l, before, p, c), Tell(st, l, Onward(l, before, p, c), h, h, c), h)
  {
  }

  lemma RequestTells(task: Task, l: Local, st: Story, h: Heap, c: Choice)
    requires task.Request? && c.Go? && !l.Idle? && Told(task, l, st, h)
    ensures var l' := Onward(l, task, h.pointer, c);
            Told(task, l', Tell(st, l, l', h, Touch(l, h, c), c), Touch(l, h, c))
  {
  }

  lemma WaitTells(task: Task, l: Local, st: Story, h: Heap, c: Choice)
    requires task.Wait? && c.Go? && !l.Idle? && Told(task, l, st, h)
    ensures var l' := Onward(l, task, h.pointer, c);
            Told(task, l', Tell(st, l, l', h, Touch(l, h, c), c), Touch(l, h, c))
  {
  }

  lemma QueryTells(task: Task, l: Local, st: Story, h: Heap, c: Choice)
    requires (task.Query? || task.Transition?) && c.Go? && !l.Idle? && Told(task, l, st, h)
    ensures var l' := Onward(l, task, h.pointer, c);
            Told(task, l', Tell(st, l, l', h, Touch(l, h, c), c), Touch(l, h, c))
  {
  }

  lemma OpenTells(task: Task, l: Local, st: Story, h: Heap, c: Choice)
    requires task.Open? && c.Go? && !l.Idle? && Told(task, l, st, h)
    ensures var l' := Onward(l, task, h.pointer, c);
            Told(task, l', Tell(st, l, l', h, Touch(l, h, c), c), Touch(l, h, c))
  {
  }

  lemma CloseTells(task: Task, l: Local, st: Story, h: Heap, c: Choice)
    requires task.Close? && c.Go? && !l.Idle? && Told(task, l, st, h) && LocalOk(h, l)
    ensures var l' := Onward(l, task, h.pointer, c);
            Told(task, l', Tell(st, l, l', h, Touch(l, h, c), c), Touch(l, h, c))
  {
    if l.WantLock? || l.Shared? {
      CloseAsks(task, l, st, h, c);
    } else if l.AskUnique? || l.Unique? || l.Exchanged? || l.Closing? || l.Unlock? {
      CloseTakes(task, l, st, h, c);
    } else {
      CloseStops(task, l, st, h, c);
    }
  }

  lemma CloseAsks(task: Task, l: Local, st: Story, h: Heap, c: Choice)
    requires task.Close? && c.Go? && !l.Idle? && Told(task, l, st, h) && LocalOk(h, l)
    requires l.WantLock? || l.Shared?
    ensures var l' := Onward(l, task, h.pointer, c);
            Told(task, l', Tell(st, l, l', h, Touch(l, h, c), c), Touch(l, h, c))
  {
  }

  lemma CloseTakes(task: Task, l: Local, st: Story, h: Heap, c: Choice)
    requires task.Close? && c.Go? && !l.Idle? && Told(task, l, st, h) && LocalOk(h, l)
    requires l.AskUnique? || l.Unique? || l.Exchanged? || l.Closing? || l.Unlock?
    ensures var l' := Onward(l, task, h.pointer, c);
            Told(task, l', Tell(st, l, l', h, Touch(l, h, c), c), Touch(l, h, c))
  {
  }

  lemma CloseStops(task: Task, l: Local, st: Story, h: Heap, c: Choice)
    requires task.Close? && c.Go? && !l.Idle? && Told(task, l, st, h) && LocalOk(h, l)
    requires l.StopReady? || l.StopStateCall? || l.StopCall? || l.CloseReady? || l.CloseCall?
    ensures var l' := Onward(l, task, h.pointer, c);
            Told(task, l', Tell(st, l, l', h, Touch(l, h, c), c), Touch(l, h, c))
  {
    if st.found.Some? {
      TwoAppends(Properties(2)(st.found.value), Call(GetState, st.found.value), Call(RequestStop, st.found.value));
    }
  }

  lemma TwoAppends(calls: seq<Call>, a: Call, b: Call)
    ensures calls + [] == calls && calls + [a] + [b] == calls + [a, b]
  {
  }

  /** The steps of another thread leave a story true. */
  lemma OthersLeaveTold(h: Heap, other: Local, c: Choice, task: Task, l: Local, st: Story)
    requires LocalOk(h, other) && Told(task, l, st, h)
    requires !(HoldsLock(other) && HoldsLock(l)) && !(HoldsUnique(other) && HoldsShared(l))
    ensures Told(task, l, st, Touch(other, h, c))
  {
  }

  ghost predicate AllTold(s: State, r: State, moves: seq<Move>) {
    && |r.tasks| == |r.threads|
    && forall t: nat :: t < |r.threads| ==> ThreadTold(s, r, moves, t)
  }

  ghost predicate ThreadTold(s: State, r: State, moves: seq<Move>, t: nat)
    requires t < |r.threads| == |r.tasks|
  {
    var st := StoryOf(s, moves, t);
    if st.begun then Told(r.tasks[t], r.threads[t], st, r.heap) else st == UNTOLD && r.threads[t].Idle?
  }

  /** One more step of the thread itself. */
  lemma StepTells(task: Task, l: Local, st: Story, h: Heap, c: Choice)
    requires LocalOk(h, l) && (if l.Idle? then c.Begin? else c.Go? && st.begun && Told(task, l, st, h))
    ensures var l' := Onward(l, task, h.pointer, c);
            var st' := Tell(st, l, l', h, Touch(l, h, c), c);
            st'.begun && Told(if c.Begin? then c.task else task, l', st', Touch(l, h, c))
  {
    hide Told;
    if l.Idle? {
      BeginTells(c.task, l, task, h.pointer, st, h);
    } else {
      match task
      case Request(_) => RequestTells(task, l, st, h, c);
      case Wait(_) => WaitTells(task, l, st, h, c);
      case Query(_) => QueryTells(task, l, st, h, c);
      case Transition => QueryTells(task, l, st, h, c);
      case Open => OpenTells(task, l, st, h, c);
      case Close(_, _) => CloseTells(task, l, st, h, c);
    }
  }

  lemma {:induction false} RunsTell(s: State, moves: seq<Move>)
    requires Initial(s)
    ensures AllTold(s, Run(s, moves), moves)
  {
    if |moves| > 0 {
      var front, m := moves[..|moves| - 1], moves[|moves| - 1];
      var before := Run(s, front);
      RunsTell(s, front);
      RunsKeepInv(s, front);
      if Enabled(before, m.t, m.choice) {
        forall t: nat | t < |before.threads|
          ensures ThreadTold(s, Run(s, moves), moves, t)
        {
          MoveTells(s, front, m, t);
          assert moves == front + [m];
        }
      } else {
        forall t: nat | t < |before.threads|
          ensures ThreadTold(s, Run(s, moves), moves, t)
        {
          assert ThreadTold(s, before, front, t);
        }
      }
    }
  }

  lemma MoveTells(s: State, front: seq<Move>, m: Move, t: nat)
    requires Inv(Run(s, front)) && AllTold(s, Run(s, front), front)
    requires Enabled(Run(s, front), m.t, m.choice) && t < |Run(s, front).threads|
    ensures |Run(s, front + [m]).tasks| == |Run(s, front + [m]).threads| == |Run(s, front).threads|
    ensures ThreadTold(s, Run(s, front + [m]), front + [m], t)
  {
    hide Told, Tell, Onward, Touch, LocalOk, HeapOk;
    var before := Run(s, front);
    assert (front + [m])[..|front + [m]| - 1] == front;
    assert ThreadTold(s, before, front, t);
    assert LocalOk(before.heap, before.threads[t]) && LocalOk(before.heap, before.threads[m.t]);
    if t == m.t {
      StepTells(before.tasks[t], before.threads[t], StoryOf(s, front, t), before.heap, m.choice);
    } else if StoryOf(s, front, t).begun {
      Apart(before, t, m.t);
      OthersLeaveTold(before.heap, before.threads[m.t], m.choice, before.tasks[t], before.threads[t],
                      StoryOf(s, front, t));
    }
  }

  lemma Apart(s: State, t: nat, u: nat)
    requires LocksMatch(s) && t < |s.threads| && u < |s.threads| && t != u
    ensures !(HoldsLock(s.threads[u]) && HoldsLock(s.threads[t]))
    ensures !(HoldsUnique(s.threads[u]) && HoldsShared(s.threads[t]))
  {
    assert s.owner == Some(t) <==> HoldsLock(s.threads[t]);
    assert s.owner == Some(u) <==> HoldsLock(s.threads[u]);
    assert s.writer == Some(u) <==> HoldsUnique(s.threads[u]);
    assert t in s.readers <==> HoldsShared(s.threads[t]);
  }

  /** In every run of any number of threads, a call that has returned has done all that it is for. */
  lemma CallsComplete(s: State, moves: seq<Move>, t: nat)
    requires Initial(s) && t < |s.threads| && StoryOf(s, moves, t).begun
    ensures var r := Run(s, moves);
            && t < |r.threads| == |r.tasks|
            && (r.threads[t].Idle? ==> Completed(r.tasks[t], StoryOf(s, moves, t), r.heap))
  {
    RunsTell(s, moves);
    SameThreads(s, moves);
    assert ThreadTold(s, Run(s, moves), moves, t);
  }

  lemma {:induction false} SameThreads(s: State, moves: seq<Move>)
    ensures |Run(s, moves).threads| == |s.threads|
  {
    if |moves| > 0 {
      SameThreads(s, moves[..|moves| - 1]);
    }
  }

  /** An idle thread may begin any call, an open unless another is under way. */
  lemma MayBegin(s: State, t: nat, task: Task)
    requires |s.tasks| == |s.threads| && t < |s.threads| && s.threads[t].Idle?
    ensures Enabled(s, t, Begin(task)) <==> (task.Open? ==> s.opener == None)
    ensures Enabled(s, t, Begin(task)) ==>
              var s' := Next(s, t, Begin(task)); s'.tasks[t] == task && !s'.threads[t].Idle? && s'.heap == s.heap
  {
  }

  /** The pointer changes in two ways: the holder of the exclusive lock takes the handle away, and an
      open puts in a new handle or, when it fails, none. */
  lemma PointerChanges(s: State, t: nat, c: Choice)
    requires Inv(s) && Enabled(s, t, c)
    ensures var p := Next(s, t, c).heap.pointer;
            p != s.heap.pointer ==>
              || (s.writer == Some(t) && p.Null?)
              || (CallAt(s.threads[t]) == Some(Call(OpenStream, Null)) && s.heap.pointer.Null?
                  && p == Handle(s.heap.next))
  {
    assert LocalOk(s.heap, s.threads[t]);
    assert s.writer == Some(t) <==> HoldsUnique(s.threads[t]);
  }
}
