/** The lock-free queue between one writing and one reading thread: each load of a counter, each
    byte copied and each publication is a step of its own, and the steps of the two threads
    interleave in any way (src/fifo). The counters are taken to be sequentially consistent. */
module FifoProtocol {
  import opened Basics
  import opened Blocks
  import DivMod
  import FifoBuffer
  import Ring

  const COUNTER_LIMIT: nat := FifoBuffer.COUNTER_LIMIT

  datatype Layout = Layout(bytesPerFrame: nat, capacity: nat) {
    ghost predicate Valid() {
      0 < bytesPerFrame && 0 < capacity
    }

    function Bytes(frames: nat): nat {
      Basics.Bytes(bytesPerFrame, frames)
    }

    function Size(): nat {
      Bytes(capacity)
    }

    /** Where byte `j` of a copy goes, for a copy of `frames` frames that starts at frame `index` of
        the storage: two parts when it runs over the end. */
    function Slot(index: nat, frames: nat, j: nat): int {
      var part1 := Bytes(Max(0, capacity - index));
      if index + frames > capacity && part1 <= j then j - part1 else Bytes(index) + j
    }
  }

  datatype Writer =
    | WriterIdle
    | Asked(data: seq<Byte>, frames: nat)                        // next: load the write counter
    | WriteLoaded(data: seq<Byte>, frames: nat, writeCounter: nat)  // next: load the read counter
    | Room(data: seq<Byte>, frames: nat)                         // next: load the write index
    | CopyingIn(data: seq<Byte>, frames: nat, index: nat, copied: set<nat>)

  datatype Reader =
    | ReaderIdle
    | Wanted(frames: nat)                                        // next: load the write counter
    | FillLoaded(frames: nat, writeCounter: nat)                 // next: load the read counter
    | Filled(frames: nat)                                        // next: load the read index
    | CopyingOut(frames: nat, index: nat, out: map<nat, Byte>)

  /** `written` and `delivered` are all the bytes that have been published and handed to readers. */
  datatype State = State(storage: seq<Byte>, readCounter: nat, writeCounter: nat, writer: Writer,
                         reader: Reader, ghost written: seq<Byte>, ghost delivered: seq<Byte>)

  datatype Action =
    | StartWrite(data: seq<Byte>, frames: nat)
    | WriterLoadsWrite
    | WriterLoadsRead
    | WriterLoadsIndex
    | WriterCopies(j: nat)
    | WriterPublishes
    | StartRead(frames: nat)
    | ReaderLoadsWrite
    | ReaderLoadsRead
    | ReaderLoadsIndex
    | ReaderCopies(j: nat)
    | ReaderPublishes

  predicate Enabled(c: Layout, s: State, a: Action) {
    match a
    case StartWrite(data, frames) => s.writer.WriterIdle? && 0 < frames && c.Bytes(frames) <= |data|
    case WriterLoadsWrite => s.writer.Asked?
    case WriterLoadsRead => s.writer.WriteLoaded?
    case WriterLoadsIndex => s.writer.Room?
    case WriterCopies(j) => s.writer.CopyingIn? && j < c.Bytes(s.writer.frames) && j !in s.writer.copied
    case WriterPublishes =>
      s.writer.CopyingIn? && forall j: nat :: j < c.Bytes(s.writer.frames) ==> j in s.writer.copied
    case StartRead(frames) => s.reader.ReaderIdle? && 0 < frames
    case ReaderLoadsWrite => s.reader.Wanted?
    case ReaderLoadsRead => s.reader.FillLoaded?
    case ReaderLoadsIndex => s.reader.Filled?
    case ReaderCopies(j) => s.reader.CopyingOut? && j < c.Bytes(s.reader.frames) && j !in s.reader.out
    case ReaderPublishes =>
      s.reader.CopyingOut? && forall j: nat :: j < c.Bytes(s.reader.frames) ==> j in s.reader.out
  }

  function Put(storage: seq<Byte>, slot: int, b: Byte): seq<Byte> {
    if 0 <= slot < |storage| then storage[slot := b] else storage
  }

  function Get(storage: seq<Byte>, slot: int): Byte {
    if 0 <= slot < |storage| then storage[slot] else 0
  }

  function Gathered(out: map<nat, Byte>, n: nat): (bytes: seq<Byte>)
    ensures |bytes| == n
  {
    seq(n, j requires 0 <= j < n => if j in out then out[j] else 0)
  }

  /** One atomic step of one of the threads. */
  ghost function Next(c: Layout, s: State, a: Action): State
    requires c.Valid() && Enabled(c, s, a)
  {
    match a
    case StartWrite(data, frames) => s.(writer := Asked(data, frames))
    case WriterLoadsWrite => s.(writer := WriteLoaded(s.writer.data, s.writer.frames, s.writeCounter))
    case WriterLoadsRead =>
      var empty := c.capacity - FifoBuffer.FullFrames(s.writer.writeCounter, s.readCounter, c.capacity);
      s.(writer := Room(s.writer.data, Min(s.writer.frames, empty)))
    case WriterLoadsIndex =>
      s.(writer := CopyingIn(s.writer.data, s.writer.frames, s.writeCounter % c.capacity, {}))
    case WriterCopies(j) =>
      var b := if j < |s.writer.data| then s.writer.data[j] else 0;
      s.(storage := Put(s.storage, c.Slot(s.writer.index, s.writer.frames, j), b),
         writer := s.writer.(copied := s.writer.copied + {j}))
    case WriterPublishes =>
      var n := c.Bytes(s.writer.frames);
      s.(writeCounter := (s.writeCounter + s.writer.frames) % COUNTER_LIMIT,
         written := s.written + if n <= |s.writer.data| then s.writer.data[..n] else s.writer.data,
         writer := WriterIdle)
    case StartRead(frames) => s.(reader := Wanted(frames))
    case ReaderLoadsWrite => s.(reader := FillLoaded(s.reader.frames, s.writeCounter))
    case ReaderLoadsRead =>
      var full := FifoBuffer.FullFrames(s.reader.writeCounter, s.readCounter, c.capacity);
      s.(reader := Filled(Min(s.reader.frames, full)))
    case ReaderLoadsIndex =>
      s.(reader := CopyingOut(s.reader.frames, s.readCounter % c.capacity, map[]))
    case ReaderCopies(j) =>
      s.(reader := s.reader.(out := s.reader.out[j := Get(s.storage, c.Slot(s.reader.index, s.reader.frames, j))]))
    case ReaderPublishes =>
      s.(readCounter := (s.readCounter + s.reader.frames) % COUNTER_LIMIT,
         delivered := s.delivered + Gathered(s.reader.out, c.Bytes(s.reader.frames)),
         reader := ReaderIdle)
  }

  /** A run: an action that is not possible when its turn comes does nothing. */
  ghost function Run(c: Layout, s: State, actions: seq<Action>): State
    requires c.Valid()
  {
    if |actions| == 0 then s
    else
      var before := Run(c, s, actions[..|actions| - 1]);
      var a := actions[|actions| - 1];
      if Enabled(c, before, a) then Next(c, before, a) else before
  }

  ghost predicate Initial(c: Layout, s: State) {
    s == State(s.storage, 0, 0, WriterIdle, ReaderIdle, [], []) && |s.storage| == c.Size()
  }

  // ---------------------------------------------------------------- the invariant

  /** The counters bracket at most one capacity, what was delivered is a prefix of what was written,
      and the rest of it is in the storage. */
  ghost predicate QueueInv(c: Layout, s: State) {
    && c.Valid() && |s.storage| == c.Size() && 0 < c.Size()
    && s.readCounter <= s.writeCounter <= s.readCounter + c.capacity && s.writeCounter < COUNTER_LIMIT
    && |s.written| == c.Bytes(s.writeCounter) && |s.delivered| == c.Bytes(s.readCounter)
    && s.written == s.delivered + Ring.At(s.storage, c.Bytes(s.readCounter), c.Bytes(s.writeCounter - s.readCounter))
  }

  /** What a writer knows stays true while the reader runs: the room it found does not shrink. */
  ghost predicate WriterInv(c: Layout, s: State)
    requires 0 < c.capacity && 0 < |s.storage|
  {
    match s.writer
    case WriterIdle => true
    case Asked(data, frames) => c.Bytes(frames) <= |data|
    case WriteLoaded(data, frames, w) => c.Bytes(frames) <= |data| && w == s.writeCounter
    case Room(data, frames) => c.Bytes(frames) <= |data| && s.writeCounter + frames <= s.readCounter + c.capacity
    case CopyingIn(data, frames, index, copied) =>
      && c.Bytes(frames) <= |data| && s.writeCounter + frames <= s.readCounter + c.capacity
      && index == s.writeCounter % c.capacity
      && forall j :: j in copied ==>
           j < c.Bytes(frames) && s.storage[(c.Bytes(s.writeCounter) + j) % |s.storage|] == data[j]
  }

  /** What a reader knows stays true while the writer runs: the frames it found do not vanish. */
  ghost predicate ReaderInv(c: Layout, s: State)
    requires 0 < c.capacity
  {
    match s.reader
    case ReaderIdle => true
    case Wanted(_) => true
    case FillLoaded(_, w) => s.readCounter <= w <= s.writeCounter
    case Filled(frames) => s.readCounter + frames <= s.writeCounter
    case CopyingOut(frames, index, out) =>
      && s.readCounter + frames <= s.writeCounter && index == s.readCounter % c.capacity
      && forall j :: j in out ==>
           && j < c.Bytes(frames) && c.Bytes(s.readCounter) + j < |s.written|
           && out[j] == s.written[c.Bytes(s.readCounter) + j]
  }

  ghost predicate Inv(c: Layout, s: State) {
    QueueInv(c, s) && WriterInv(c, s) && ReaderInv(c, s)
  }

  /** Wrapping a frame counter by frames or by bytes leads to the same place. */
  lemma BytesOfRemainder(c: Layout, p: nat)
    requires c.Valid()
    ensures 0 < c.Size() && c.Bytes(p) % c.Size() == c.Bytes(p % c.capacity)
  {
    DivMod.Scale(c.bytesPerFrame, p, c.capacity);
  }

  /** The two-part copy walks the ring: byte `j` from frame counter `p` on is byte `j` from byte
      position `Bytes(p)` on. */
  lemma SlotOfPosition(c: Layout, p: nat, frames: nat, j: nat)
    requires c.Valid() && frames <= c.capacity && j < c.Bytes(frames)
    ensures 0 < c.Size() && c.Slot(p % c.capacity, frames, j) == (c.Bytes(p) + j) % c.Size()
  {
    hide Basics.Bytes;
    BytesOfRemainder(c, p);
    var index, q := p % c.capacity, c.Bytes(p) / c.Size();
    BytesOrdered(c.bytesPerFrame, index, c.capacity);
    BytesOrdered(c.bytesPerFrame, frames, c.capacity);
    assert c.Bytes(p) == q * c.Size() + c.Bytes(index);
    if index + frames > c.capacity && c.Bytes(c.capacity - index) <= j {
      DivMod.MulDistributes(q, 1, c.Size());
      DivMod.Unique(c.Bytes(p) + j, c.Size(), q + 1, j - c.Bytes(c.capacity - index));
    } else {
      if index + frames <= c.capacity {
        BytesOrdered(c.bytesPerFrame, index + frames, c.capacity);
        BytesAdd(c.bytesPerFrame, index, frames);
      }
      DivMod.Unique(c.Bytes(p) + j, c.Size(), q, c.Bytes(index) + j);
    }
  }

  /** Bytes within one turn of the ring have slots of their own. */
  lemma SlotsDiffer(p: nat, q: nat, size: nat)
    requires 0 < size && p != q && p < q + size && q < p + size
    ensures p % size != q % size
  {
    if p < q {
      DivMod.DistinctSlots(p, q, size);
    } else {
      DivMod.DistinctSlots(q, p, size);
    }
  }

  /** The slots that the writer copies into and those that the reader copies out of are disjoint. */
  lemma NoOverlap(c: Layout, s: State, i: nat, j: nat)
    requires Inv(c, s) && s.writer.CopyingIn? && s.reader.CopyingOut?
    requires i < c.Bytes(s.writer.frames) && j < c.Bytes(s.reader.frames)
    ensures c.Slot(s.writer.index, s.writer.frames, i) != c.Slot(s.reader.index, s.reader.frames, j)
    ensures 0 <= c.Slot(s.writer.index, s.writer.frames, i) < |s.storage|
    ensures 0 <= c.Slot(s.reader.index, s.reader.frames, j) < |s.storage|
  {
    hide Basics.Bytes, Ring.At;
    SlotOfPosition(c, s.writeCounter, s.writer.frames, i);
    SlotOfPosition(c, s.readCounter, s.reader.frames, j);
    BytesOrdered(c.bytesPerFrame, s.readCounter + s.reader.frames, s.writeCounter);
    BytesAdd(c.bytesPerFrame, s.readCounter, s.reader.frames);
    BytesOrdered(c.bytesPerFrame, s.writeCounter + s.writer.frames, s.readCounter + c.capacity);
    BytesAdd(c.bytesPerFrame, s.writeCounter, s.writer.frames);
    BytesAdd(c.bytesPerFrame, s.readCounter, c.capacity);
    SlotsDiffer(c.Bytes(s.readCounter) + j, c.Bytes(s.writeCounter) + i, c.Size());
  }

  // ---------------------------------------------------------------- every step keeps it

  lemma CopyInKeeps(c: Layout, s: State, j: nat)
    requires Inv(c, s) && Enabled(c, s, WriterCopies(j))
    ensures Inv(c, Next(c, s, WriterCopies(j)))
  {
    hide Basics.Bytes, Ring.At;
    var s' := Next(c, s, WriterCopies(j));
    var w, r, size := c.Bytes(s.writeCounter), c.Bytes(s.readCounter), c.Size();
    SlotOfPosition(c, s.writeCounter, s.writer.frames, j);
    BytesOrdered(c.bytesPerFrame, s.readCounter, s.writeCounter);
    BytesOrdered(c.bytesPerFrame, s.writeCounter + s.writer.frames, s.readCounter + c.capacity);
    BytesAdd(c.bytesPerFrame, s.writeCounter, s.writer.frames);
    BytesAdd(c.bytesPerFrame, s.readCounter, c.capacity);
    var n := c.Bytes(s.writeCounter - s.readCounter);
    StoreKeeps(s.storage, s'.storage, w + j, s.writer.data[j], r, n);
    forall i | i in s'.writer.copied
      ensures i < c.Bytes(s.writer.frames) && s'.storage[(w + i) % size] == s.writer.data[i]
    {
      if i != j {
        SlotsDiffer(w + i, w + j, size);
      }
    }
  }

  lemma StoreKeeps(store: seq<Byte>, store': seq<Byte>, p: nat, b: Byte, first: nat, n: nat)
    requires 0 < |store| && store' == store[p % |store| := b]
    requires first + n <= p < first + |store|
    ensures Ring.At(store', first, n) == Ring.At(store, first, n)
  {
    forall k | 0 <= k < n
      ensures Ring.At(store', first, n)[k] == Ring.At(store, first, n)[k]
    {
      SlotsDiffer(first + k, p, |store|);
    }
  }

  lemma PublishKeeps(c: Layout, s: State)
    requires Inv(c, s) && Enabled(c, s, WriterPublishes)
    requires |Next(c, s, WriterPublishes).written| < c.Bytes(COUNTER_LIMIT)
    ensures Inv(c, Next(c, s, WriterPublishes))
  {
    hide QueueInv;
    PublishKeepsQueue(c, s);
  }

  lemma PublishKeepsQueue(c: Layout, s: State)
    requires Inv(c, s) && Enabled(c, s, WriterPublishes)
    requires |Next(c, s, WriterPublishes).written| < c.Bytes(COUNTER_LIMIT)
    ensures QueueInv(c, Next(c, s, WriterPublishes))
    ensures Next(c, s, WriterPublishes).writeCounter == s.writeCounter + s.writer.frames
  {
    hide Basics.Bytes, Ring.At, ReaderInv, WriterInv;
    var m, r, w := s.writer.frames, s.readCounter, s.writeCounter;
    CopiedIsStored(c, s);
    BytesAdd(c.bytesPerFrame, w, m);
    BelowLimit(c, w + m);
    QueueGrows(c, s.storage, r, w, m);
    assert s.written + s.writer.data[..c.Bytes(m)]
        == s.delivered + Ring.At(s.storage, c.Bytes(r), c.Bytes(w + m - r));
  }

  lemma QueueGrows(c: Layout, storage: seq<Byte>, r: nat, w: nat, m: nat)
    requires 0 < |storage| && r <= w
    ensures Ring.At(storage, c.Bytes(r), c.Bytes(w + m - r))
         == Ring.At(storage, c.Bytes(r), c.Bytes(w - r)) + Ring.At(storage, c.Bytes(w), c.Bytes(m))
  {
    hide Basics.Bytes, Ring.At;
    BytesAdd(c.bytesPerFrame, r, w - r);
    BytesAdd(c.bytesPerFrame, w - r, m);
    Ring.AtSplit(storage, c.Bytes(r), c.Bytes(w - r), c.Bytes(m));
  }

  /** Once every byte is copied, the storage holds the writer's data behind the queue. */
  lemma CopiedIsStored(c: Layout, s: State)
    requires Inv(c, s) && Enabled(c, s, WriterPublishes)
    ensures c.Bytes(s.writer.frames) <= |s.writer.data|
    ensures s.writeCounter + s.writer.frames <= s.readCounter + c.capacity
    ensures Ring.At(s.storage, c.Bytes(s.writeCounter), c.Bytes(s.writer.frames))
         == s.writer.data[..c.Bytes(s.writer.frames)]
  {
    hide Basics.Bytes, ReaderInv;
  }

  lemma BelowLimit(c: Layout, frames: nat)
    requires c.Bytes(frames) < c.Bytes(COUNTER_LIMIT)
    ensures frames < COUNTER_LIMIT
  {
  }

  lemma CopyOutKeeps(c: Layout, s: State, j: nat)
    requires Inv(c, s) && Enabled(c, s, ReaderCopies(j))
    ensures Inv(c, Next(c, s, ReaderCopies(j)))
  {
    hide QueueInv;
    ByteUnderReader(c, s, j);
  }

  /** What the reader finds in the slot of byte `j` is the byte written at that position. */
  lemma ByteUnderReader(c: Layout, s: State, j: nat)
    requires Inv(c, s) && s.reader.CopyingOut? && j < c.Bytes(s.reader.frames)
    ensures c.Bytes(s.readCounter) + j < |s.written|
    ensures Get(s.storage, c.Slot(s.reader.index, s.reader.frames, j)) == s.written[c.Bytes(s.readCounter) + j]
    ensures QueueInv(c, s.(reader := s.reader.(out := s.reader.out[j := s.written[c.Bytes(s.readCounter) + j]])))
  {
    hide Basics.Bytes, WriterInv;
    var m, r, w := s.reader.frames, s.readCounter, s.writeCounter;
    SlotOfPosition(c, r, m, j);
    BytesOrdered(c.bytesPerFrame, m, w - r);
    var queue := Ring.At(s.storage, c.Bytes(r), c.Bytes(w - r));
    assert queue[j] == s.storage[(c.Bytes(r) + j) % |s.storage|];
    assert s.written[|s.delivered| + j] == queue[j];
  }

  lemma TakeKeeps(c: Layout, s: State)
    requires Inv(c, s) && Enabled(c, s, ReaderPublishes)
    ensures Inv(c, Next(c, s, ReaderPublishes))
    ensures Next(c, s, ReaderPublishes).delivered <= s.written
  {
    hide QueueInv, Gathered;
    TakeKeepsQueue(c, s);
  }

  lemma TakeKeepsQueue(c: Layout, s: State)
    requires Inv(c, s) && Enabled(c, s, ReaderPublishes)
    ensures QueueInv(c, Next(c, s, ReaderPublishes))
    ensures Next(c, s, ReaderPublishes).delivered <= s.written
    ensures Next(c, s, ReaderPublishes).readCounter == s.readCounter + s.reader.frames
  {
    hide Basics.Bytes, Ring.At, Gathered, WriterInv;
    var m, r, w := s.reader.frames, s.readCounter, s.writeCounter;
    BytesAdd(c.bytesPerFrame, r, m);
    BytesOrdered(c.bytesPerFrame, r + m, w);
    QueueGrows(c, s.storage, r, r + m, w - r - m);
    TakenIsFront(c, s);
  }

  /** What was copied out is what the storage holds at the front of the queue. */
  lemma TakenIsFront(c: Layout, s: State)
    requires Inv(c, s) && Enabled(c, s, ReaderPublishes)
    ensures Gathered(s.reader.out, c.Bytes(s.reader.frames))
         == Ring.At(s.storage, c.Bytes(s.readCounter), c.Bytes(s.reader.frames))
  {
    hide Basics.Bytes, Ring.At;
    var m, r, w := s.reader.frames, s.readCounter, s.writeCounter;
    BytesOrdered(c.bytesPerFrame, m, w - r);
    Ring.AtSplit(s.storage, c.Bytes(r), c.Bytes(m), c.Bytes(w - r - m));
    var taken, front := Gathered(s.reader.out, c.Bytes(m)), Ring.At(s.storage, c.Bytes(r), c.Bytes(m));
    forall j: nat | j < c.Bytes(m)
      ensures taken[j] == front[j]
    {
      assert taken[j] == s.written[c.Bytes(r) + j];
      assert front[j] == s.written[|s.delivered| + j];
    }
  }

  lemma StepKeeps(c: Layout, s: State, a: Action)
    requires Inv(c, s) && Enabled(c, s, a)
    requires |Next(c, s, a).written| < c.Bytes(COUNTER_LIMIT)
    ensures Inv(c, Next(c, s, a))
  {
    match a
    case WriterCopies(j) => CopyInKeeps(c, s, j);
    case WriterPublishes => PublishKeeps(c, s);
    case ReaderCopies(j) => CopyOutKeeps(c, s, j);
    case ReaderPublishes => TakeKeeps(c, s);
    case WriterLoadsRead =>
      var empty := c.capacity - FifoBuffer.FullFrames(s.writer.writeCounter, s.readCounter, c.capacity);
      BytesOrdered(c.bytesPerFrame, Min(s.writer.frames, empty), s.writer.frames);
    case _ =>
  }

  lemma InitialInv(c: Layout, s: State)
    requires c.Valid() && Initial(c, s)
    ensures Inv(c, s)
  {
  }

  /** In every run, whatever the interleaving: the counters are at most one capacity apart, and the
      bytes delivered are a prefix of the bytes written, the rest of which is in the storage. */
  lemma {:induction false} RunsKeepInv(c: Layout, s: State, actions: seq<Action>)
    requires c.Valid() && Initial(c, s)
    requires |Run(c, s, actions).written| < c.Bytes(COUNTER_LIMIT)
    ensures Inv(c, Run(c, s, actions))
    ensures Run(c, s, actions).delivered <= Run(c, s, actions).written
  {
    if |actions| == 0 {
      InitialInv(c, s);
    } else {
      var before := Run(c, s, actions[..|actions| - 1]);
      var a := actions[|actions| - 1];
      RunsKeepInv(c, s, actions[..|actions| - 1]);
      if Enabled(c, before, a) {
        StepKeeps(c, before, a);
      }
    }
  }

  // ---------------------------------------------------------------- refinement of a queue

  /** The bytes in the queue. */
  ghost function Queue(s: State): seq<Byte> {
    if |s.delivered| <= |s.written| then s.written[|s.delivered|..] else []
  }

  /** Only the two publications act on the queue: one appends what the writer was given, the other
      removes from the front what it hands to the reader. */
  lemma RefinesQueue(c: Layout, s: State, a: Action)
    requires Inv(c, s) && Enabled(c, s, a)
    requires |Next(c, s, a).written| < c.Bytes(COUNTER_LIMIT)
    ensures var s' := Next(c, s, a);
            match a
            case WriterPublishes =>
              && c.Bytes(s.writer.frames) <= |s.writer.data|
              && Queue(s') == Queue(s) + s.writer.data[..c.Bytes(s.writer.frames)] && |Queue(s')| <= c.Size()
              && s'.delivered == s.delivered
            case ReaderPublishes =>
              var taken := Gathered(s.reader.out, c.Bytes(s.reader.frames));
              taken + Queue(s') == Queue(s) && s'.delivered == s.delivered + taken
            case _ => Queue(s') == Queue(s) && s'.delivered == s.delivered
  {
    StepKeeps(c, s, a);
    QueueSize(c, s);
    QueueSize(c, Next(c, s, a));
  }

  lemma QueueSize(c: Layout, s: State)
    requires QueueInv(c, s)
    ensures s.written == s.delivered + Queue(s)
    ensures |Queue(s)| == c.Bytes(s.writeCounter - s.readCounter) <= c.Size()
  {
  }

  /** How much is written is decided when the read counter is loaded, by the room there is then; how
      much is read when the write counter is loaded, by what is in the queue then. */
  lemma SizesAreCurrent(c: Layout, s: State)
    requires Inv(c, s)
    ensures s.writer.WriteLoaded? ==>
              var frames := Next(c, s, WriterLoadsRead).writer.frames;
              || frames == s.writer.frames <= c.capacity - (s.writeCounter - s.readCounter)
              || frames == c.capacity - (s.writeCounter - s.readCounter) <= s.writer.frames
    ensures s.reader.Wanted? ==>
              var loaded := Next(c, s, ReaderLoadsWrite);
              var frames := Next(c, loaded, ReaderLoadsRead).reader.frames;
              || frames == s.reader.frames <= s.writeCounter - s.readCounter
              || frames == s.writeCounter - s.readCounter <= s.reader.frames
  {
  }
}
