/** What the calls of a writer and a reader amount to over a whole run of the lock-free queue, and that
    each of them returns (src/fifo/FifoBuffer.cpp). */
module FifoCalls {
  import opened Basics
  import opened Blocks
  import opened FifoProtocol
  import FifoBuffer
  import Ring

  // ---------------------------------------------------------------- what was asked for and done

  /** The running calls and their sum, told by the calls made and the counters alone: what the writer
      was last given, how many frames of it fit, and all that its completed calls stored; how many
      frames the reader last wanted, how many of them there were, and all it was handed. */
  datatype Tally = Tally(data: seq<Byte>, asked: nat, fits: nat, stored: seq<Byte>,
                         wanted: nat, ready: nat, taken: nat)

  /** The room a writer finds, and the frames a reader finds, between two counters. */
  function RoomFor(c: Layout, s: State): nat {
    Max(0, c.capacity - (s.writeCounter - s.readCounter))
  }

  function Fill(s: State): nat {
    Max(0, s.writeCounter - s.readCounter)
  }

  function Prefix(data: seq<Byte>, n: nat): seq<Byte> {
    if n <= |data| then data[..n] else data
  }

  /** What one step adds. The frames of a write are those of its call that fit when the read counter is
      loaded, the frames of a read those it wants of the ones there when the write counter is loaded. */
  function Count(c: Layout, s: State, a: Action, t: Tally): Tally {
    match a
    case StartWrite(data, frames) => t.(data := data, asked := frames)
    case WriterLoadsRead => t.(fits := Min(t.asked, RoomFor(c, s)))
    case WriterPublishes => t.(stored := t.stored + Prefix(t.data, c.Bytes(t.fits)))
    case StartRead(frames) => t.(wanted := frames)
    case ReaderLoadsWrite => t.(ready := Min(t.wanted, Fill(s)))
    case ReaderPublishes => t.(taken := t.taken + t.ready)
    case _ => t
  }

  ghost function TallyOf(c: Layout, s: State, actions: seq<Action>): Tally
    requires c.Valid()
  {
    if |actions| == 0 then Tally([], 0, 0, [], 0, 0, 0)
    else
      var front, a := actions[..|actions| - 1], actions[|actions| - 1];
      var before, t := Run(c, s, front), TallyOf(c, s, front);
      if Enabled(c, before, a) then Count(c, before, a, t) else t
  }

  /** The threads work for the calls that were made. */
  ghost predicate Agrees(c: Layout, s: State, t: Tally) {
    && s.written == t.stored && |s.delivered| == c.Bytes(t.taken)
    && (match s.writer
        case WriterIdle => true
        case Asked(data, frames) => data == t.data && frames == t.asked
        case WriteLoaded(data, frames, _) => data == t.data && frames == t.asked
        case Room(data, frames) => data == t.data && frames == t.fits
        case CopyingIn(data, frames, _, _) => data == t.data && frames == t.fits)
    && (match s.reader
        case ReaderIdle => true
        case Wanted(frames) => frames == t.wanted
        case FillLoaded(frames, w) => s.readCounter <= w && Min(frames, w - s.readCounter) == t.ready
        case Filled(frames) => frames == t.ready
        case CopyingOut(frames, _, _) => frames == t.ready)
  }

  lemma StepAgrees(c: Layout, s: State, a: Action, t: Tally)
    requires Inv(c, s) && Enabled(c, s, a) && Agrees(c, s, t)
    ensures Agrees(c, Next(c, s, a), Count(c, s, a, t))
  {
    hide Ring.At, Basics.Bytes;
    match a
    case ReaderPublishes => BytesAdd(c.bytesPerFrame, t.taken, t.ready);
    case _ =>
  }

  /** In every interleaving: the bytes written are, call after call, those that each completed write
      was given, as many frames of them as there was room for when it looked; the bytes delivered are
      as many as the completed reads wanted of those there were when they looked, and a prefix of the
      bytes written. */
  lemma {:induction false} RunsServeCalls(c: Layout, s: State, actions: seq<Action>)
    requires c.Valid() && Initial(c, s)
    requires |Run(c, s, actions).written| < c.Bytes(COUNTER_LIMIT)
    ensures Agrees(c, Run(c, s, actions), TallyOf(c, s, actions))
    ensures Run(c, s, actions).written == TallyOf(c, s, actions).stored
    ensures Run(c, s, actions).delivered <= TallyOf(c, s, actions).stored
    ensures |Run(c, s, actions).delivered| == c.Bytes(TallyOf(c, s, actions).taken)
  {
    hide Agrees, Count, Inv;
    if |actions| > 0 {
      var front, a := actions[..|actions| - 1], actions[|actions| - 1];
      var before := Run(c, s, front);
      if Enabled(c, before, a) {
        WrittenGrows(c, before, a);
        RunsServeCalls(c, s, front);
        RunsKeepInv(c, s, front);
        StepAgrees(c, before, a, TallyOf(c, s, front));
      } else {
        RunsServeCalls(c, s, front);
      }
    } else {
      NothingAgrees(c, s);
    }
    AgreesOnBytes(c, Run(c, s, actions), TallyOf(c, s, actions));
    RunsKeepInv(c, s, actions);
  }

  lemma WrittenGrows(c: Layout, s: State, a: Action)
    requires c.Valid() && Enabled(c, s, a)
    ensures |s.written| <= |Next(c, s, a).written|
  {
  }

  lemma NothingAgrees(c: Layout, s: State)
    requires c.Valid() && Initial(c, s)
    ensures Agrees(c, s, Tally([], 0, 0, [], 0, 0, 0))
  {
    BytesAdd(c.bytesPerFrame, 0, 0);
  }

  lemma AgreesOnBytes(c: Layout, s: State, t: Tally)
    requires Agrees(c, s, t)
    ensures s.written == t.stored && |s.delivered| == c.Bytes(t.taken)
  {
  }

  // ---------------------------------------------------------------- every call returns

  predicate ByWriter(a: Action) {
    a.StartWrite? || a.WriterLoadsWrite? || a.WriterLoadsRead? || a.WriterLoadsIndex? || a.WriterCopies?
    || a.WriterPublishes?
  }

  /** The bytes of a copy that are still to do. */
  ghost function ToDo(n: nat, done: set<nat>): nat {
    |Upto(n) - done|
  }

  ghost function Upto(n: nat): set<nat> {
    if n == 0 then {} else Upto(n - 1) + {n - 1}
  }

  lemma {:induction false} UptoSize(n: nat)
    ensures |Upto(n)| == n && forall j: nat :: j in Upto(n) <==> j < n
  {
    if n > 0 {
      UptoSize(n - 1);
    }
  }

  lemma NothingDone(n: nat)
    ensures ToDo(n, {}) == n
  {
    UptoSize(n);
    assert Upto(n) - {} == Upto(n);
  }

  lemma OneDone(n: nat, done: set<nat>, j: nat)
    requires j < n && j !in done
    ensures ToDo(n, done + {j}) == ToDo(n, done) - 1
  {
    UptoSize(n);
    assert Upto(n) - (done + {j}) == Upto(n) - done - {j};
  }

  /** An upper bound on the writer's own steps until its call returns. */
  ghost function WriterSteps(c: Layout, s: State): nat {
    match s.writer
    case WriterIdle => 0
    case Asked(_, frames) => 4 + c.Bytes(frames)
    case WriteLoaded(_, frames, _) => 3 + c.Bytes(frames)
    case Room(_, frames) => 2 + c.Bytes(frames)
    case CopyingIn(_, frames, _, copied) => 1 + ToDo(c.Bytes(frames), copied)
  }

  ghost function ReaderSteps(c: Layout, s: State): nat {
    match s.reader
    case ReaderIdle => 0
    case Wanted(frames) => 4 + c.Bytes(frames)
    case FillLoaded(frames, _) => 3 + c.Bytes(frames)
    case Filled(frames) => 2 + c.Bytes(frames)
    case CopyingOut(frames, _, out) => 1 + ToDo(c.Bytes(frames), out.Keys)
  }

  /** The reader never delays the writer: an idle writer may start, one under way always has a step to
      take, each of its steps brings it closer to its return, no step of the reader takes it back, and
      it returns only by publishing. */
  lemma WriterIsWaitFree(c: Layout, s: State, a: Action)
    requires c.Valid() && Enabled(c, s, a)
    ensures s.writer.WriterIdle? <==>
              forall data, frames :: 0 < frames && c.Bytes(frames) <= |data| ==> Enabled(c, s, StartWrite(data, frames))
    ensures !s.writer.WriterIdle? ==> exists b :: ByWriter(b) && Enabled(c, s, b)
    ensures !ByWriter(a) ==> WriterSteps(c, Next(c, s, a)) == WriterSteps(c, s)
    ensures ByWriter(a) && !a.StartWrite? ==> WriterSteps(c, Next(c, s, a)) < WriterSteps(c, s)
    ensures a.StartWrite? ==> !Next(c, s, a).writer.WriterIdle?
    ensures !s.writer.WriterIdle? ==> (Next(c, s, a).writer.WriterIdle? <==> a.WriterPublishes?)
  {
    hide ToDo, Basics.Bytes;
    if !s.writer.WriterIdle? {
      WriterHasStep(c, s);
    }
    assert !s.writer.WriterIdle? ==> !Enabled(c, s, StartWrite(seq(c.Bytes(1), _ => 0), 1));
    match a
    case WriterLoadsRead =>
      var empty := c.capacity - FifoBuffer.FullFrames(s.writer.writeCounter, s.readCounter, c.capacity);
      BytesOrdered(c.bytesPerFrame, Min(s.writer.frames, empty), s.writer.frames);
    case WriterLoadsIndex => NothingDone(c.Bytes(s.writer.frames));
    case WriterCopies(j) => OneDone(c.Bytes(s.writer.frames), s.writer.copied, j);
    case _ =>
  }

  lemma WriterHasStep(c: Layout, s: State)
    requires !s.writer.WriterIdle?
    ensures exists b :: ByWriter(b) && Enabled(c, s, b)
  {
    match s.writer
    case Asked(_, _) => assert Enabled(c, s, WriterLoadsWrite);
    case WriteLoaded(_, _, _) => assert Enabled(c, s, WriterLoadsRead);
    case Room(_, _) => assert Enabled(c, s, WriterLoadsIndex);
    case CopyingIn(_, frames, _, copied) =>
      if j: nat :| j < c.Bytes(frames) && j !in copied {
        assert Enabled(c, s, WriterCopies(j));
      } else {
        assert Enabled(c, s, WriterPublishes);
      }
  }

  /** Nor does the writer delay the reader. */
  lemma ReaderIsWaitFree(c: Layout, s: State, a: Action)
    requires c.Valid() && Enabled(c, s, a)
    ensures s.reader.ReaderIdle? <==> forall frames: nat :: 0 < frames ==> Enabled(c, s, StartRead(frames))
    ensures !s.reader.ReaderIdle? ==> exists b :: !ByWriter(b) && Enabled(c, s, b)
    ensures ByWriter(a) ==> ReaderSteps(c, Next(c, s, a)) == ReaderSteps(c, s)
    ensures !ByWriter(a) && !a.StartRead? ==> ReaderSteps(c, Next(c, s, a)) < ReaderSteps(c, s)
    ensures a.StartRead? ==> !Next(c, s, a).reader.ReaderIdle?
    ensures !s.reader.ReaderIdle? ==> (Next(c, s, a).reader.ReaderIdle? <==> a.ReaderPublishes?)
  {
    hide ToDo, Basics.Bytes;
    if !s.reader.ReaderIdle? {
      ReaderHasStep(c, s);
    }
    assert !s.reader.ReaderIdle? ==> !Enabled(c, s, StartRead(1));
    match a
    case ReaderLoadsRead =>
      var full := FifoBuffer.FullFrames(s.reader.writeCounter, s.readCounter, c.capacity);
      BytesOrdered(c.bytesPerFrame, Min(s.reader.frames, full), s.reader.frames);
    case ReaderLoadsIndex =>
      NothingDone(c.Bytes(s.reader.frames));
      assert Next(c, s, a).reader.out.Keys == {};
    case ReaderCopies(j) =>
      OneDone(c.Bytes(s.reader.frames), s.reader.out.Keys, j);
      assert Next(c, s, a).reader.out.Keys == s.reader.out.Keys + {j};
    case _ =>
  }

  lemma ReaderHasStep(c: Layout, s: State)
    requires !s.reader.ReaderIdle?
    ensures exists b :: !ByWriter(b) && Enabled(c, s, b)
  {
    match s.reader
    case Wanted(_) => assert Enabled(c, s, ReaderLoadsWrite);
    case FillLoaded(_, _) => assert Enabled(c, s, ReaderLoadsRead);
    case Filled(_) => assert Enabled(c, s, ReaderLoadsIndex);
    case CopyingOut(frames, _, out) =>
      if j: nat :| j < c.Bytes(frames) && j !in out {
        assert Enabled(c, s, ReaderCopies(j));
      } else {
        assert Enabled(c, s, ReaderPublishes);
      }
  }
}
