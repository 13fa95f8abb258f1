/** The lifetime of the native stream handle (src/aaudio/AudioStreamAAudio.cpp): any number of
    threads make requests under the mutex, query under the shared lock, wait for a state change,
    close the stream and open it again. Each lock operation, each access to the stream pointer and
    each entry to or return from the native library is a step of its own. */
module HandleLifetime {
  import opened Basics

  const SLEEP_NANOS: int := 20_000_000

  datatype Pointer = Null | Handle(id: nat)

  /** What a thread may be asked to do. `Transition` is the locked part of a wait for a state
      transition, which may be followed by a wait for a state change. `oldSdk` and `workarounds` say
      what the call finds the platform to be, `reload` whether a query loads the pointer once more. */
  datatype Task =
    | Request(oldSdk: bool)
    | Close(workarounds: bool, oldSdk: bool)
    | Wait(timeLeft: int)
    | Transition
    | Query(reload: bool)
    | Open

  /** Who goes through the shared section, which calls the library on the current handle. */
  datatype Caller = Plain | CloseWritten | CloseRead | InTransition

  datatype Section =
    | Ask              // to acquire the shared lock
    | Held             // to load the pointer
    | Ready(id: nat)   // to call the library
    | Inside(p: Pointer)
    | Leave            // to release the shared lock

  /** Where a thread is. */
  datatype Local =
    | Idle
    | WantLock(task: Task)            // to acquire the mutex
    | Unlock                          // to release the mutex
    | Shared(caller: Caller, section: Section)
    // request
    | ReqLocked | ReqReady(id: nat) | ReqStateCall(id: nat) | ReqCall(id: nat)
    // wait for a state change
    | WaitLocked(timeLeft: int) | WaitReady(timeLeft: int) | WaitCall(timeLeft: int, p: Pointer)
    | WaitUnlock(timeLeft: int) | Sleeping(timeLeft: int)
    // close, after the frame counters have been updated
    | AskUnique | Unique | Exchanged(p: Pointer) | Closing(p: Pointer)
    | StopReady(id: nat) | StopStateCall(id: nat) | StopCall(id: nat) | CloseReady(id: nat) | CloseCall(id: nat)
    // open
    | OpenCheck | OpenReady

  /** `next` is the number of handles opened so far, `closes` are the handles closed, in order. */
  datatype Heap = Heap(pointer: Pointer, next: nat, ghost closes: seq<nat>)

  /** `tasks` are the calls the threads make, or made last; `opener` is the thread that may open the
      stream: opening is not done by two threads at once. */
  datatype State = State(threads: seq<Local>, tasks: seq<Task>, owner: Option<nat>, readers: set<nat>,
                         writer: Option<nat>, opener: Option<nat>, heap: Heap)

  /** A thread that is idle begins a task; under way, it goes on with what the library answers, if it
      asked: yes, the stream is in that state already, has changed its state, or is open. */
  datatype Choice = Begin(task: Task) | Go(yes: bool)

  function TimeAfterSleep(timeLeft: int): int {
    timeLeft - if SLEEP_NANOS > timeLeft then timeLeft else SLEEP_NANOS
  }

  /** A thread that waits for a lock is held up while it is not free; a shared lock is not granted
      while another thread waits for the exclusive one, the strictest order a library may keep. */
  predicate Enabled(s: State, t: nat, c: Choice) {
    && t < |s.threads| == |s.tasks|
    && match s.threads[t]
       case Idle => c.Begin? && (c.task.Open? ==> s.opener == None)
       case WantLock(_) => c.Go? && s.owner == None
       case Shared(_, Ask) => c.Go? && s.writer == None && AskUnique !in s.threads
       case AskUnique => c.Go? && s.writer == None && s.readers == {}
       case _ => c.Go?
  }

  /** The next place of a thread, given what it reads from the pointer. */
  function Onward(l: Local, task: Task, p: Pointer, c: Choice): Local {
    var yes := c.Go? && c.yes;
    match l
    case Idle =>
      if c.Go? then Idle
      else if c.task.Query? then Shared(Plain, Ask)
      else if c.task.Open? then OpenCheck
      else WantLock(c.task)
    case WantLock(Request(_)) => ReqLocked
    case WantLock(Close(_, _)) => Shared(CloseWritten, Ask)
    case WantLock(Wait(timeLeft)) => WaitLocked(timeLeft)
    case WantLock(Transition) => Shared(InTransition, Ask)
    case WantLock(_) => Unlock
    case Unlock => Idle
    case Shared(caller, Ask) => Shared(caller, Held)
    case Shared(caller, Held) => Shared(caller, if p.Null? then Leave else Ready(p.id))
    case Shared(caller, Ready(id)) => Shared(caller, Inside(if task.Query? && task.reload then p else Handle(id)))
    case Shared(caller, Inside(_)) => Shared(caller, Leave)
    case Shared(Plain, Leave) => Idle
    case Shared(CloseWritten, Leave) => Shared(CloseRead, Ask)
    case Shared(CloseRead, Leave) => AskUnique
    case Shared(InTransition, Leave) => Unlock
    case ReqLocked => if p.Null? then Unlock else ReqReady(p.id)
    case ReqReady(id) => if task.Request? && task.oldSdk then ReqStateCall(id) else ReqCall(id)
    case ReqStateCall(id) => if yes then Unlock else ReqCall(id)
    case ReqCall(_) => Unlock
    case WaitLocked(timeLeft) => if p.Null? then Unlock else WaitReady(timeLeft)
    case WaitReady(timeLeft) => WaitCall(timeLeft, p)
    case WaitCall(timeLeft, _) => if yes || timeLeft <= 0 then Unlock else WaitUnlock(timeLeft)
    case WaitUnlock(timeLeft) => Sleeping(timeLeft)
    case Sleeping(timeLeft) => WantLock(Wait(TimeAfterSleep(timeLeft)))
    case AskUnique => Unique
    case Unique => Exchanged(p)
    case Exchanged(q) => Closing(q)
    case Closing(q) =>
      if q.Null? then Unlock else if task.Close? && task.workarounds then StopReady(q.id) else CloseReady(q.id)
    case StopReady(id) => if task.Close? && task.oldSdk then StopStateCall(id) else StopCall(id)
    case StopStateCall(id) => if yes then CloseReady(id) else StopCall(id)
    case StopCall(id) => CloseReady(id)
    case CloseReady(id) => CloseCall(id)
    case CloseCall(_) => Unlock
    case OpenCheck => if p.Null? then OpenReady else Idle
    case OpenReady => Idle
  }

  function Touch(l: Local, h: Heap, c: Choice): Heap {
    match l
    case Unique => h.(pointer := Null) // exchanged
    case CloseReady(id) => h.(closes := h.closes + [id])
    case OpenReady =>
      if c.Go? && c.yes then h.(pointer := Handle(h.next), next := h.next + 1) else h.(pointer := Null)
    case _ => h
  }

  predicate HoldsLock(l: Local) {
    match l
    case Idle | WantLock(_) | Shared(Plain, _) | Sleeping(_) | OpenCheck | OpenReady => false
    case _ => true
  }

  predicate HoldsShared(l: Local) {
    l.Shared? && !l.section.Ask?
  }

  predicate HoldsUnique(l: Local) {
    l.Unique? || l.Exchanged?
  }

  predicate Opens(l: Local) {
    l.OpenCheck? || l.OpenReady?
  }

  function Hand(held: Option<nat>, t: nat, before: bool, after: bool): Option<nat> {
    if before == after then held else if after then Some(t) else None
  }

  /** One step of thread `t`: what it does to the locks is told by where it is before and after. */
  function Next(s: State, t: nat, c: Choice): State
    requires Enabled(s, t, c)
  {
    var l := s.threads[t];
    var l' := Onward(l, s.tasks[t], s.heap.pointer, c);
    State(s.threads[t := l'],
          if c.Begin? then s.tasks[t := c.task] else s.tasks,
          Hand(s.owner, t, HoldsLock(l), HoldsLock(l')),
          if HoldsShared(l) == HoldsShared(l') then s.readers
          else if HoldsShared(l') then s.readers + {t} else s.readers - {t},
          Hand(s.writer, t, HoldsUnique(l), HoldsUnique(l')),
          Hand(s.opener, t, Opens(l), Opens(l')),
          Touch(l, s.heap, c))
  }

  ghost predicate Initial(s: State) {
    && (forall t :: 0 <= t < |s.threads| ==> s.threads[t] == Idle)
    && |s.tasks| == |s.threads| && s == State(s.threads, s.tasks, None, {}, None, None, Heap(Null, 0, []))
  }

  datatype Move = Move(t: nat, choice: Choice)

  /** A run; a move that is not possible when its turn comes does nothing. */
  function Run(s: State, moves: seq<Move>): State {
    if |moves| == 0 then s
    else
      var before := Run(s, moves[..|moves| - 1]);
      var m := moves[|moves| - 1];
      if Enabled(before, m.t, m.choice) then Next(before, m.t, m.choice) else before
  }

  // ---------------------------------------------------------------- the invariant

  /** The locks are held by the threads that are where they should hold them. */
  ghost predicate LocksMatch(s: State) {
    && (forall t: nat :: t < |s.threads| ==> (s.owner == Some(t) <==> HoldsLock(s.threads[t])))
    && (forall t: nat :: t < |s.threads| ==> (t in s.readers <==> HoldsShared(s.threads[t])))
    && (forall t: nat :: t < |s.threads| ==> (s.writer == Some(t) <==> HoldsUnique(s.threads[t])))
    && (forall t: nat :: t < |s.threads| ==> (s.opener == Some(t) <==> Opens(s.threads[t])))
    && (s.writer.Some? ==> s.readers == {})
    && (s.owner.Some? ==> s.owner.value < |s.threads|) && (forall t :: t in s.readers ==> t < |s.threads|)
    && (s.writer.Some? ==> s.writer.value < |s.threads|) && (s.opener.Some? ==> s.opener.value < |s.threads|)
  }

  /** The handle a closing thread has taken out of the pointer and not yet closed. */
  function InHand(l: Local): Pointer {
    match l
    case Exchanged(p) => p
    case Closing(p) => p
    case StopReady(id) => Handle(id)
    case StopStateCall(id) => Handle(id)
    case StopCall(id) => Handle(id)
    case CloseReady(id) => Handle(id)
    case _ => Null
  }

  /** The handle that a thread has loaded in order to call the library on it. */
  function Loaded(l: Local): Option<Pointer> {
    match l
    case Shared(_, Ready(id)) => Some(Handle(id))
    case Shared(_, Inside(p)) => Some(p)
    case ReqReady(id) => Some(Handle(id))
    case ReqStateCall(id) => Some(Handle(id))
    case ReqCall(id) => Some(Handle(id))
    case WaitCall(_, p) => Some(p)
    case _ => None
  }

  /** A loaded handle is still the current one; a handle taken by a closing thread is no one else's
      and not closed yet. */
  ghost predicate LocalOk(h: Heap, l: Local) {
    && (Loaded(l).Some? ==> h.pointer.Handle? && Loaded(l).value == h.pointer)
    && (l.WaitReady? ==> h.pointer.Handle?)
    && (InHand(l).Handle? ==> InHand(l) != h.pointer && InHand(l).id < h.next && InHand(l).id !in h.closes)
    && (l.CloseCall? ==> l.id in h.closes)
    && (l.OpenReady? ==> h.pointer.Null?)
  }

  /** The current handle is open, and no handle has been closed twice. */
  ghost predicate HeapOk(h: Heap) {
    && (h.pointer.Handle? ==> h.pointer.id < h.next && h.pointer.id !in h.closes)
    && (forall i :: 0 <= i < |h.closes| ==> h.closes[i] < h.next)
    && (forall i, j :: 0 <= i < j < |h.closes| ==> h.closes[i] != h.closes[j])
  }

  function Holder(s: State): Pointer {
    if s.owner.Some? && s.owner.value < |s.threads| then InHand(s.threads[s.owner.value]) else Null
  }

  /** Every handle ever opened is current, about to be closed, or closed. */
  ghost predicate NoneLost(s: State) {
    forall id: nat :: id < s.heap.next ==>
                        id in s.heap.closes || s.heap.pointer == Handle(id) || Holder(s) == Handle(id)
  }

  ghost predicate Inv(s: State) {
    && LocksMatch(s) && HeapOk(s.heap) && NoneLost(s) && |s.tasks| == |s.threads|
    && forall t :: 0 <= t < |s.threads| ==> LocalOk(s.heap, s.threads[t])
  }

  lemma StepKeepsLocks(s: State, t: nat, c: Choice)
    requires LocksMatch(s) && Enabled(s, t, c)
    ensures LocksMatch(Next(s, t, c))
  {
    var l, l' := s.threads[t], Onward(s.threads[t], s.tasks[t], s.heap.pointer, c);
    var s' := Next(s, t, c);
    OneLockAtATime(l, s.tasks[t], s.heap.pointer, c);
    forall u: nat | u < |s'.threads|
      ensures s'.owner == Some(u) <==> HoldsLock(s'.threads[u])
      ensures s'.writer == Some(u) <==> HoldsUnique(s'.threads[u])
      ensures s'.opener == Some(u) <==> Opens(s'.threads[u])
    {
      assert s.owner == Some(u) <==> HoldsLock(s.threads[u]);
      assert s.writer == Some(u) <==> HoldsUnique(s.threads[u]);
      assert s.opener == Some(u) <==> Opens(s.threads[u]);
      assert s.opener == Some(t) <==> Opens(s.threads[t]);
    }
  }

  /** A lock is taken only where a thread waits for it. */
  lemma OneLockAtATime(l: Local, task: Task, p: Pointer, c: Choice)
    ensures var l' := Onward(l, task, p, c);
            && (HoldsLock(l') && !HoldsLock(l) ==> l.WantLock?)
            && (HoldsShared(l') && !HoldsShared(l) ==> l.Shared? && l.section.Ask?)
            && (HoldsUnique(l') && !HoldsUnique(l) ==> l.AskUnique?)
            && (Opens(l') && !Opens(l) ==> l.Idle? && c.Begin? && c.task.Open?)
            && (HoldsUnique(l) ==> HoldsLock(l)) && !(HoldsShared(l) && HoldsUnique(l))
            && (l.AskUnique? ==> HoldsLock(l))
  {
  }

  /** The thread that steps. */
  lemma StepKeepsLocal(h: Heap, l: Local, task: Task, c: Choice)
    requires HeapOk(h) && LocalOk(h, l)
    ensures LocalOk(Touch(l, h, c), Onward(l, task, h.pointer, c))
  {
  }

  /** A handle is closed by the thread that holds it, which makes it the first time. */
  lemma StepKeepsHeap(h: Heap, l: Local, c: Choice)
    requires HeapOk(h) && LocalOk(h, l)
    ensures HeapOk(Touch(l, h, c))
  {
  }

  /** The other threads: only three steps change the heap, and what they change no other thread
      that could be harmed is relying on. */
  lemma StepKeepsOthers(h: Heap, l: Local, c: Choice, other: Local)
    requires HeapOk(h) && LocalOk(h, l) && LocalOk(h, other)
    requires !(HoldsLock(l) && HoldsLock(other)) && !(HoldsUnique(l) && HoldsShared(other))
    requires !(Opens(l) && Opens(other))
    ensures LocalOk(Touch(l, h, c), other)
  {
  }

  lemma StepKeepsHandles(s: State, t: nat, c: Choice)
    requires Inv(s) && Enabled(s, t, c)
    ensures NoneLost(Next(s, t, c))
  {
    var s' := Next(s, t, c);
    var l, l' := s.threads[t], s'.threads[t];
    StepKeepsLocks(s, t, c);
    assert s.owner == Some(t) <==> HoldsLock(l);
    assert s'.owner == Some(t) <==> HoldsLock(l');
    if HoldsLock(l) || HoldsLock(l') {
      HandleMoves(s.heap, l, s.tasks[t], c);
      assert Holder(s) == InHand(l) || !HoldsLock(l);
    } else {
      assert s'.owner == s.owner;
      assert Holder(s') == Holder(s);
      HandleMoves(s.heap, l, s.tasks[t], c);
    }
  }

  /** A handle taken from the pointer stays in the closing thread's hand until it is closed. */
  lemma HandleMoves(h: Heap, l: Local, task: Task, c: Choice)
    requires LocalOk(h, l)
    ensures var h' := Touch(l, h, c);
            var l' := Onward(l, task, h.pointer, c);
            && h.next <= h'.next && h.closes <= h'.closes
            && (h.next < h'.next ==> h'.next == h.next + 1 && h'.pointer == Handle(h.next))
            && (h.pointer.Handle? ==> h'.pointer == h.pointer || InHand(l') == h.pointer)
            && (InHand(l).Handle? ==> InHand(l') == InHand(l) || InHand(l).id in h'.closes)
            && (InHand(l').Handle? ==> HoldsLock(l')) && (InHand(l).Handle? ==> HoldsLock(l))
  {
  }

  lemma StepKeepsInv(s: State, t: nat, c: Choice)
    requires Inv(s) && Enabled(s, t, c)
    ensures Inv(Next(s, t, c))
  {
    var s' := Next(s, t, c);
    StepKeepsLocks(s, t, c);
    StepKeepsHandles(s, t, c);
    StepKeepsHeap(s.heap, s.threads[t], c);
    StepKeepsLocal(s.heap, s.threads[t], s.tasks[t], c);
    forall u | 0 <= u < |s'.threads|
      ensures LocalOk(s'.heap, s'.threads[u])
    {
      if u != t {
        assert LocalOk(s.heap, s.threads[u]) && LocalOk(s.heap, s.threads[t]);
        assert s.owner == Some(t) <==> HoldsLock(s.threads[t]);
        assert s.owner == Some(u) <==> HoldsLock(s.threads[u]);
        assert s.writer == Some(t) <==> HoldsUnique(s.threads[t]);
        assert u in s.readers <==> HoldsShared(s.threads[u]);
        assert s.opener == Some(t) <==> Opens(s.threads[t]);
        assert s.opener == Some(u) <==> Opens(s.threads[u]);
        StepKeepsOthers(s.heap, s.threads[t], c, s.threads[u]);
      }
    }
  }

  lemma {:induction false} RunsKeepInv(s: State, moves: seq<Move>)
    requires Initial(s)
    ensures Inv(Run(s, moves))
  {
    if |moves| > 0 {
      var before := Run(s, moves[..|moves| - 1]);
      var m := moves[|moves| - 1];
      RunsKeepInv(s, moves[..|moves| - 1]);
      if Enabled(before, m.t, m.choice) {
        StepKeepsInv(before, m.t, m.choice);
      }
    }
  }

  // ---------------------------------------------------------------- what it means

  /** The handle on which a thread is inside a library call other than the close itself. */
  function Calling(l: Local): Option<Pointer> {
    match l
    case Shared(_, Inside(p)) => Some(p)
    case ReqStateCall(id) => Some(Handle(id))
    case ReqCall(id) => Some(Handle(id))
    case WaitCall(_, p) => Some(p)
    case StopStateCall(id) => Some(Handle(id))
    case StopCall(id) => Some(Handle(id))
    case _ => None
  }

  /** In every run of any number of threads: no thread is inside a library call on a handle that is
      closed or being closed, no handle is closed twice, and a handle that is neither current nor
      closed is in the hand of the thread that is closing it. */
  lemma HandlesAreSafe(s: State, moves: seq<Move>)
    requires Initial(s)
    ensures var r := Run(s, moves);
            && (forall t :: 0 <= t < |r.threads| && Calling(r.threads[t]).Some? ==>
                  var p := Calling(r.threads[t]).value;
                  p.Handle? && p.id < r.heap.next && p.id !in r.heap.closes)
            && (forall i, j :: 0 <= i < j < |r.heap.closes| ==> r.heap.closes[i] != r.heap.closes[j])
            && NoneLost(r)
  {
    hide LocalOk, HeapOk, Calling;
    RunsKeepInv(s, moves);
    var r := Run(s, moves);
    OnceEach(r.heap);
    forall t | 0 <= t < |r.threads| && Calling(r.threads[t]).Some?
      ensures var p := Calling(r.threads[t]).value;
              p.Handle? && p.id < r.heap.next && p.id !in r.heap.closes
    {
      SafeCall(r.heap, r.threads[t]);
    }
  }

  lemma SafeCall(h: Heap, l: Local)
    requires HeapOk(h) && LocalOk(h, l) && Calling(l).Some?
    ensures var p := Calling(l).value; p.Handle? && p.id < h.next && p.id !in h.closes
  {
  }

  lemma OnceEach(h: Heap)
    requires HeapOk(h)
    ensures forall i, j :: 0 <= i < j < |h.closes| ==> h.closes[i] != h.closes[j]
  {
  }

  /** Without deadlock: as long as any thread is under way, some thread under way can go on. */
  lemma NoDeadlock(s: State, t: nat) returns (u: nat)
    requires Inv(s) && t < |s.threads| && !s.threads[t].Idle?
    ensures u < |s.threads| && !s.threads[u].Idle? && Enabled(s, u, Go(true)) && Enabled(s, u, Go(false))
  {
    if s.writer.Some? {
      u := s.writer.value;
    } else if r :| r in s.readers {
      u := r;
    } else if s.owner.Some? {
      u := s.owner.value;
      if AskUnique in s.threads {
        var w :| 0 <= w < |s.threads| && s.threads[w] == AskUnique;
        assert s.owner == Some(w);
      }
    } else {
      assert forall w :: 0 <= w < |s.threads| ==> !HoldsLock(s.threads[w]);
      u := t;
    }
  }

  // ---------------------------------------------------------------- everything finishes

  /** The steps a thread still has to take, at most: a wait wakes up once in each sleep period. */
  function Rank(l: Local): nat {
    match l
    case Idle => 0
    case Unlock => 1
    case WantLock(Request(_)) => 6
    case WantLock(Close(_, _)) => 21
    case WantLock(Wait(timeLeft)) => 10 * Left(timeLeft) + 6
    case WantLock(Transition) => 7
    case WantLock(_) => 2
    case Shared(caller, section) => SectionRank(section) + CallerRank(caller)
    case ReqLocked => 5
    case ReqReady(_) => 4
    case ReqStateCall(_) => 3
    case ReqCall(_) => 2
    case WaitLocked(timeLeft) => 10 * Left(timeLeft) + 5
    case WaitReady(timeLeft) => 10 * Left(timeLeft) + 4
    case WaitCall(timeLeft, _) => 10 * Left(timeLeft) + 3
    case WaitUnlock(timeLeft) => 10 * Left(timeLeft) + 2
    case Sleeping(timeLeft) => 10 * Left(timeLeft) + 1
    case AskUnique => 10
    case Unique => 9
    case Exchanged(_) => 8
    case Closing(_) => 7
    case StopReady(_) => 6
    case StopStateCall(_) => 5
    case StopCall(_) => 4
    case CloseReady(_) => 3
    case CloseCall(_) => 2
    case OpenCheck => 2
    case OpenReady => 1
  }

  function Left(timeLeft: int): nat {
    if timeLeft < 0 then 0 else timeLeft
  }

  function SectionRank(section: Section): nat {
    match section
    case Ask => 5
    case Held => 4
    case Ready(_) => 3
    case Inside(_) => 2
    case Leave => 1
  }

  function CallerRank(caller: Caller): nat {
    match caller
    case Plain => 0
    case InTransition => 1
    case CloseRead => 10
    case CloseWritten => 15
  }

  /** Only a wait with time left goes to sleep. */
  ghost predicate Awake(l: Local) {
    (l.Sleeping? || l.WaitUnlock?) ==> 0 < l.timeLeft
  }

  lemma StepShrinksRank(l: Local, task: Task, p: Pointer, c: Choice)
    requires c.Go? && !l.Idle? && Awake(l)
    ensures Rank(Onward(l, task, p, c)) < Rank(l)
  {
  }

  lemma StepKeepsAwake(l: Local, task: Task, p: Pointer, c: Choice)
    requires Awake(l)
    ensures Awake(Onward(l, task, p, c))
  {
  }

  function Total(threads: seq<Local>): nat {
    if |threads| == 0 then 0 else Total(threads[..|threads| - 1]) + Rank(threads[|threads| - 1])
  }

  lemma {:induction false} TotalAfter(threads: seq<Local>, t: nat, l: Local)
    requires t < |threads|
    ensures Total(threads[t := l]) == Total(threads) - Rank(threads[t]) + Rank(l)
  {
    var last := |threads| - 1;
    if t < last {
      TotalAfter(threads[..last], t, l);
      assert threads[t := l][..last] == threads[..last][t := l];
    } else {
      assert threads[t := l][..last] == threads[..last];
    }
  }

  ghost predicate AllAwake(s: State) {
    forall t :: 0 <= t < |s.threads| ==> Awake(s.threads[t])
  }

  lemma {:induction false} RunsKeepAwake(s: State, moves: seq<Move>)
    requires Initial(s)
    ensures AllAwake(Run(s, moves))
  {
    if |moves| > 0 {
      RunsKeepAwake(s, moves[..|moves| - 1]);
      var before := Run(s, moves[..|moves| - 1]);
      var m := moves[|moves| - 1];
      if Enabled(before, m.t, m.choice) {
        StepKeepsAwake(before.threads[m.t], before.tasks[m.t], before.heap.pointer, m.choice);
      }
    }
  }

  ghost predicate AllIdle(s: State) {
    forall t :: 0 <= t < |s.threads| ==> s.threads[t].Idle?
  }

  /** Each move can be made when its turn comes, and none begins something new. */
  ghost predicate Finishing(s: State, moves: seq<Move>) {
    forall i :: 0 <= i < |moves| ==>
                  && moves[i].choice.Go?
                  && Enabled(Run(s, moves[..i]), moves[i].t, moves[i].choice)
  }

  /** Everything that has begun comes to its end: while nothing new begins, the threads can make no
      more moves than the ranks allow, in whatever order and with whatever choices, and when no
      thread can move any more all of them are idle. */
  lemma {:induction false} AllFinish(s: State, moves: seq<Move>)
    requires Inv(s) && AllAwake(s) && Finishing(s, moves)
    ensures var r := Run(s, moves);
            && Inv(r) && AllAwake(r) && |moves| + Total(r.threads) <= Total(s.threads)
            && ((forall t, yes :: !Enabled(r, t, Go(yes))) <==> AllIdle(r))
  {
    hide Inv, AllAwake, AllIdle, Enabled, Total, Next;
    var r := Run(s, moves);
    if |moves| > 0 {
      var front, m := moves[..|moves| - 1], moves[|moves| - 1];
      assert forall i :: 0 <= i < |front| ==> moves[..i] == front[..i];
      AllFinish(s, front);
      var before := Run(s, front);
      assert moves[..|front|] == front && Enabled(before, m.t, m.choice);
      StepKeepsInv(before, m.t, m.choice);
      StepShrinksTotal(before, m.t, m.choice);
    }
    StuckExactlyWhenIdle(r);
  }

  lemma StepShrinksTotal(s: State, t: nat, c: Choice)
    requires AllAwake(s) && Enabled(s, t, c) && c.Go?
    ensures AllAwake(Next(s, t, c)) && Total(Next(s, t, c).threads) < Total(s.threads)
  {
    hide Awake, Rank, Onward, Total;
    StepShrinksRank(s.threads[t], s.tasks[t], s.heap.pointer, c);
    StepKeepsAwake(s.threads[t], s.tasks[t], s.heap.pointer, c);
    TotalAfter(s.threads, t, Next(s, t, c).threads[t]);
  }

  lemma StuckExactlyWhenIdle(s: State)
    requires Inv(s)
    ensures (forall t, yes :: !Enabled(s, t, Go(yes))) <==> AllIdle(s)
  {
    if t :| 0 <= t < |s.threads| && !s.threads[t].Idle? {
      var u := NoDeadlock(s, t);
    }
  }
}
