/** The circular buffer of the lock-free queue, run by one thread at a time (src/fifo). */
module FifoBuffer {
  import opened Basics
  import opened Blocks
  import DivMod
  import Ring

  const COUNTER_LIMIT: int := 0x1_0000_0000_0000_0000
  const UINT32_LIMIT: int := 0x1_0000_0000
  const INT32_LIMIT: int := 0x8000_0000

  /** What the counters say about the number of frames to read, clipped to the capacity. */
  function FullFrames(writeCounter: int, readCounter: int, totalFrames: int): (frames: int)
    requires 0 <= totalFrames
    ensures 0 <= frames <= totalFrames
  {
    if readCounter > writeCounter then 0
    else if writeCounter - readCounter >= totalFrames then totalFrames
    else writeCounter - readCounter
  }

  /** The 64-bit counters count right until one of them wraps around before the other. */
  lemma FullFramesExactly(written: nat, read: nat, totalFrames: nat)
    requires read <= written <= read + totalFrames && totalFrames < UINT32_LIMIT
    ensures FullFrames(written % COUNTER_LIMIT, read % COUNTER_LIMIT, totalFrames) == written - read
       <==> written == read || written / COUNTER_LIMIT == read / COUNTER_LIMIT
  {
  }

  /** One frame is in the queue, and none is reported, once only the write counter has wrapped. */
  lemma WrapHidesFrames(totalFrames: nat)
    requires 0 < totalFrames < UINT32_LIMIT
    ensures var written, read := COUNTER_LIMIT, COUNTER_LIMIT - 1;
            && written - read == 1
            && FullFrames(written % COUNTER_LIMIT, read % COUNTER_LIMIT, totalFrames) == 0
  {
  }

  class FifoController {
    const totalFrames: int
    var readCounter: int
    var writeCounter: int

    ghost predicate InRange()
      reads this
    {
      && 0 < totalFrames <= (UINT32_LIMIT - 1) / 4
      && 0 <= readCounter < COUNTER_LIMIT && 0 <= writeCounter < COUNTER_LIMIT
    }

    /** Neither counter has wrapped, and they are at most the capacity apart. */
    ghost predicate Valid()
      reads this
    {
      InRange() && readCounter <= writeCounter <= readCounter + totalFrames
    }

    constructor (totalFrames: int)
      requires 0 < totalFrames <= (UINT32_LIMIT - 1) / 4
      ensures Valid() && this.totalFrames == totalFrames && readCounter == 0 && writeCounter == 0
    {
      this.totalFrames := totalFrames;
      readCounter, writeCounter := 0, 0;
    }

    function GetFullFramesAvailable(): (frames: int)
      requires InRange()
      reads this
      ensures 0 <= frames <= totalFrames
      ensures Valid() ==> frames == writeCounter - readCounter
      ensures writeCounter <= readCounter ==> frames == 0
    {
      FullFrames(writeCounter, readCounter, totalFrames)
    }

    function GetEmptyFramesAvailable(): (frames: int)
      requires InRange()
      reads this
      ensures frames + GetFullFramesAvailable() == totalFrames
    {
      totalFrames - GetFullFramesAvailable()
    }

    function GetReadIndex(): (index: int)
      requires InRange()
      reads this
      ensures 0 <= index < totalFrames
    {
      readCounter % totalFrames
    }

    function GetWriteIndex(): (index: int)
      requires InRange()
      reads this
      ensures 0 <= index < totalFrames
    {
      writeCounter % totalFrames
    }

    /** Taking no more than there is keeps the counters in order. */
    method AdvanceReadIndex(numFrames: int)
      requires InRange() && 0 <= numFrames
      modifies this`readCounter
      ensures InRange() && readCounter == (old(readCounter) + numFrames) % COUNTER_LIMIT
      ensures old(Valid()) && numFrames <= old(GetFullFramesAvailable()) ==>
                Valid() && readCounter == old(readCounter) + numFrames
    {
      readCounter := (readCounter + numFrames) % COUNTER_LIMIT;
    }

    /** Adding no more than there is room for keeps the counters in order until the write counter
        wraps around. */
    method AdvanceWriteIndex(numFrames: int)
      requires InRange() && 0 <= numFrames
      modifies this`writeCounter
      ensures InRange() && writeCounter == (old(writeCounter) + numFrames) % COUNTER_LIMIT
      ensures old(Valid()) && numFrames <= old(GetEmptyFramesAvailable()) ==>
                if old(writeCounter) + numFrames < COUNTER_LIMIT
                then Valid() && writeCounter == old(writeCounter) + numFrames
                else !Valid() && GetFullFramesAvailable() == 0
    {
      writeCounter := (writeCounter + numFrames) % COUNTER_LIMIT;
    }
  }

  method MemCopy(destination: array<Byte>, at: int, source: array<Byte>, from: int, numBytes: int)
    requires destination != source && 0 <= numBytes
    requires 0 <= at && at + numBytes <= destination.Length && 0 <= from && from + numBytes <= source.Length
    modifies destination
    ensures destination[..] == old(destination[..at]) + source[from..from + numBytes]
                               + old(destination[at + numBytes..])
  {
    forall k | 0 <= k < numBytes {
      destination[at + k] := source[from + k];
    }
  }

  class FifoBuffer {
    const bytesPerFrame: int
    const fifo: FifoController
    const storage: array<Byte>
    var framesReadCount: int
    var framesUnderrunCount: int

    ghost predicate Valid()
      reads fifo
    {
      && 0 < bytesPerFrame && fifo.Valid()
      && 0 < storage.Length == Bytes(fifo.totalFrames) < INT32_LIMIT
    }

    function Bytes(frames: int): int {
      Basics.Bytes(bytesPerFrame, frames)
    }

    /** The bytes in the queue, oldest first. */
    ghost function Contents(): seq<Byte>
      requires Valid()
      reads fifo, storage
    {
      ContentsFit();
      Ring.At(storage[..], Bytes(fifo.readCounter),
              Bytes(fifo.writeCounter - fifo.readCounter))
    }

    lemma ContentsFit()
      requires Valid()
      ensures 0 <= Bytes(fifo.readCounter)
      ensures 0 <= Bytes(fifo.writeCounter - fifo.readCounter) <= storage.Length
    {
    }

    constructor (bytesPerFrame: int, capacityInFrames: int)
      requires 0 < bytesPerFrame && 0 < capacityInFrames <= (UINT32_LIMIT - 1) / 4
      requires Basics.Bytes(bytesPerFrame, capacityInFrames) < INT32_LIMIT
      ensures Valid() && fresh(fifo) && fresh(storage) && Contents() == []
      ensures this.bytesPerFrame == bytesPerFrame && fifo.totalFrames == capacityInFrames
      ensures framesReadCount == 0 && framesUnderrunCount == 0
    {
      this.bytesPerFrame := bytesPerFrame;
      fifo := new FifoController(capacityInFrames);
      DivMod.MulMonotone(1, capacityInFrames, bytesPerFrame);
      storage := new Byte[Basics.Bytes(bytesPerFrame, capacityInFrames)];
      framesReadCount, framesUnderrunCount := 0, 0;
    }

    function ConvertFramesToBytes(frames: int): int {
      DivMod.Wrap32(Bytes(frames))
    }

    /** No more than the capacity converts without overflow: no call fails for being out of range. */
    lemma NeverOutOfRange(frames: int)
      requires Valid() && 0 <= frames <= fifo.totalFrames
      ensures ConvertFramesToBytes(frames) == Bytes(frames) && 0 <= Bytes(frames) <= storage.Length
    {
    }

    /** Takes up to `numFrames` frames from the front of the queue. */
    method Read(buffer: array<Byte>, numFrames: int) returns (framesRead: int)
      requires Valid() && buffer != storage
      requires numFrames < INT32_LIMIT && Bytes(numFrames) <= buffer.Length
      modifies buffer, fifo`readCounter
      ensures Valid()
      ensures framesRead == Min(Max(0, numFrames), old(fifo.GetFullFramesAvailable()))
      ensures fifo.readCounter == old(fifo.readCounter) + framesRead
      ensures 0 <= Bytes(framesRead) <= buffer.Length
      ensures buffer[..Bytes(framesRead)] + Contents() == old(Contents())
      ensures buffer[Bytes(framesRead)..] == old(buffer[Bytes(framesRead)..])
    {
      hide Basics.Bytes, FullFrames, Ring.At;
      ContentsFit();
      BytesAdd(bytesPerFrame, 0, 0);
      if numFrames <= 0 {
        return 0;
      }
      var framesToRead := Min(numFrames, fifo.GetFullFramesAvailable());
      BytesOrdered(bytesPerFrame, framesToRead, numFrames);
      CopyOut(buffer, framesToRead);
      ghost var full := fifo.GetFullFramesAvailable();
      BytesAdd(bytesPerFrame, framesToRead, full - framesToRead);
      BytesAdd(bytesPerFrame, fifo.readCounter, framesToRead);
      NeverOutOfRange(framesToRead);
      NeverOutOfRange(full - framesToRead);
      Ring.AtSplit(storage[..], Bytes(fifo.readCounter),
                   Bytes(framesToRead), Bytes(full - framesToRead));
      fifo.AdvanceReadIndex(framesToRead);
      framesRead := framesToRead;
    }

    /** Copies one part of what is in the storage from position `start` on. */
    method GetPart(buffer: array<Byte>, at: int, source: int, numBytes: int, ghost start: int)
      requires buffer != storage && 0 <= at && 0 <= numBytes && at + numBytes <= buffer.Length
      requires 0 < storage.Length && 0 <= start
      requires source == start % storage.Length && source + numBytes <= storage.Length
      modifies buffer
      ensures buffer[..at] == old(buffer[..at])
      ensures buffer[at..at + numBytes] == Ring.At(storage[..], start, numBytes)
      ensures buffer[at + numBytes..] == old(buffer[at + numBytes..])
    {
      hide Ring.At;
      MemCopy(buffer, at, storage, source, numBytes);
      Ring.AtStraight(storage[..], start, numBytes, source);
    }

    /** Copies the next frames to read to the start of `buffer`, in two parts if they wrap around. */
    method CopyOut(buffer: array<Byte>, framesToRead: int)
      requires Valid() && buffer != storage
      requires 0 <= framesToRead <= fifo.totalFrames && Bytes(framesToRead) <= buffer.Length
      modifies buffer
      ensures 0 <= Bytes(framesToRead) && 0 <= Bytes(fifo.readCounter)
      ensures buffer[..Bytes(framesToRead)]
           == Ring.At(storage[..], Bytes(fifo.readCounter), Bytes(framesToRead))
      ensures buffer[Bytes(framesToRead)..] == old(buffer[Bytes(framesToRead)..])
    {
      hide Basics.Bytes, FullFrames, Ring.At, DivMod.Wrap32, ConvertFramesToBytes;
      var readIndex := fifo.GetReadIndex();
      IndexOf(fifo.readCounter, framesToRead);
      var source := ConvertFramesToBytes(readIndex);
      ghost var start := Bytes(fifo.readCounter);
      if readIndex + framesToRead > fifo.totalFrames {
        // The frames run over the end: the tail of the storage comes first.
        var frames1 := fifo.totalFrames - readIndex;
        var numBytes1 := ConvertFramesToBytes(frames1);
        var numBytes2 := ConvertFramesToBytes(framesToRead - frames1);
        GetPart(buffer, 0, source, numBytes1, start);
        // The ring goes on at its start.
        GetPart(buffer, numBytes1, 0, numBytes2, start + numBytes1);
        Ring.AtSplit(storage[..], start, numBytes1, numBytes2);
        assert buffer[..numBytes1 + numBytes2] == buffer[..numBytes1] + buffer[numBytes1..numBytes1 + numBytes2];
      } else {
        var numBytes := ConvertFramesToBytes(framesToRead);
        GetPart(buffer, 0, source, numBytes, start);
      }
    }

    lemma ByteIndex(counter: int)
      requires Valid() && 0 <= counter
      ensures 0 <= Bytes(counter) && 0 <= counter % fifo.totalFrames < fifo.totalFrames
      ensures Bytes(counter) % storage.Length == Bytes(counter % fifo.totalFrames)
    {
      BytesOrdered(bytesPerFrame, 0, counter);
      DivMod.Scale(bytesPerFrame, counter, fifo.totalFrames);
    }

    /** Where the bytes of `frames` frames from a counter on lie in the storage. */
    lemma IndexOf(counter: int, frames: int)
      requires Valid() && 0 <= counter && 0 <= frames <= fifo.totalFrames
      ensures 0 <= Bytes(counter) && 0 <= Bytes(frames) <= storage.Length
      ensures var index := counter % fifo.totalFrames;
              var bytes1 := ConvertFramesToBytes(fifo.totalFrames - index);
              && 0 <= index < fifo.totalFrames
              && ConvertFramesToBytes(index) == Bytes(counter) % storage.Length
              && ConvertFramesToBytes(index) + bytes1 == storage.Length && 0 < bytes1
              && ConvertFramesToBytes(frames) == Bytes(frames)
              && (Bytes(counter) + bytes1) % storage.Length == 0
              && (if index + frames > fifo.totalFrames then
                    && 0 <= ConvertFramesToBytes(frames - (fifo.totalFrames - index))
                    && bytes1 + ConvertFramesToBytes(frames - (fifo.totalFrames - index)) == Bytes(frames)
                  else
                    ConvertFramesToBytes(index) + ConvertFramesToBytes(frames) <= storage.Length)
    {
      hide Basics.Bytes, ConvertFramesToBytes;
      var index := counter % fifo.totalFrames;
      var start := Bytes(counter);
      ByteIndex(counter);
      NeverOutOfRange(index);
      NeverOutOfRange(frames);
      NeverOutOfRange(fifo.totalFrames - index);
      BytesAdd(bytesPerFrame, index, fifo.totalFrames - index);
      BytesOrdered(bytesPerFrame, 0, fifo.totalFrames - index);
      DivMod.Unique(start + Bytes(fifo.totalFrames - index), storage.Length, start / storage.Length + 1, 0);
      if index + frames > fifo.totalFrames {
        NeverOutOfRange(frames - (fifo.totalFrames - index));
        BytesAdd(bytesPerFrame, fifo.totalFrames - index, frames - (fifo.totalFrames - index));
      } else {
        BytesOrdered(bytesPerFrame, frames, fifo.totalFrames - index);
      }
    }

    /** Appends up to `numFrames` frames to the queue, as many as there is room for. A write that
        makes the counter wrap around leaves a queue that looks empty. */
    method Write(buffer: array<Byte>, numFrames: int) returns (framesWritten: int)
      requires Valid() && buffer != storage
      requires numFrames < INT32_LIMIT && Bytes(numFrames) <= buffer.Length
      modifies storage, fifo`writeCounter
      ensures framesWritten == Min(Max(0, numFrames), old(fifo.GetEmptyFramesAvailable()))
      ensures 0 <= Bytes(framesWritten) <= buffer.Length
      ensures fifo.InRange() && fifo.writeCounter == (old(fifo.writeCounter) + framesWritten) % COUNTER_LIMIT
      ensures if old(fifo.writeCounter) + framesWritten < COUNTER_LIMIT
              then Valid() && Contents() == old(Contents()) + buffer[..Bytes(framesWritten)]
              else !Valid() && fifo.GetFullFramesAvailable() == 0
    {
      hide Basics.Bytes, FullFrames, Ring.At;
      ContentsFit();
      BytesAdd(bytesPerFrame, 0, 0);
      if numFrames <= 0 {
        return 0;
      }
      var framesToWrite := Min(numFrames, fifo.GetEmptyFramesAvailable());
      BytesOrdered(bytesPerFrame, framesToWrite, numFrames);
      ghost var full := fifo.GetFullFramesAvailable();
      CopyIn(buffer, framesToWrite);
      NeverOutOfRange(framesToWrite);
      NeverOutOfRange(full);
      BytesAdd(bytesPerFrame, full, framesToWrite);
      BytesAdd(bytesPerFrame, fifo.readCounter, full);
      Ring.AtSplit(storage[..], Bytes(fifo.readCounter),
                   Bytes(full), Bytes(framesToWrite));
      fifo.AdvanceWriteIndex(framesToWrite);
      framesWritten := framesToWrite;
    }

    /** Copies one part; the `n` bytes from position `first` on stay. */
    method PutPart(destination: int, buffer: array<Byte>, from: int, numBytes: int,
                   ghost start: int, ghost first: int, ghost n: int)
      requires buffer != storage && 0 <= from && 0 <= numBytes && from + numBytes <= buffer.Length
      requires 0 < storage.Length && 0 <= start && 0 <= first && 0 <= n
      requires destination == start % storage.Length && destination + numBytes <= storage.Length
      requires first + n <= start && start + numBytes <= first + storage.Length
      modifies storage
      ensures Ring.At(storage[..], start, numBytes) == buffer[from..from + numBytes]
      ensures Ring.At(storage[..], first, n) == old(Ring.At(storage[..], first, n))
    {
      hide Ring.At;
      MemCopy(storage, destination, buffer, from, numBytes);
      Ring.Put(old(storage[..]), storage[..], start, buffer[from..from + numBytes], destination, first, n);
    }

    lemma TwoParts(s1: seq<Byte>, s2: seq<Byte>, first: nat, n: nat, start: nat, a: nat, b: nat)
      requires 0 < |s1| == |s2| && first + n == start
      requires Ring.At(s2, first, n + a) == Ring.At(s1, first, n + a)
      ensures Ring.At(s2, first, n) == Ring.At(s1, first, n)
      ensures Ring.At(s2, start, a + b) == Ring.At(s1, start, a) + Ring.At(s2, start + a, b)
    {
      Ring.AtSplit(s1, first, n, a);
      Ring.AtSplit(s2, first, n, a);
      Ring.AtSplit(s2, start, a, b);
      assert Ring.At(s2, first, n) == Ring.At(s2, first, n + a)[..n];
      assert Ring.At(s2, start, a) == Ring.At(s2, first, n + a)[n..];
    }

    /** Copies frames from the start of `buffer` into the empty part of the storage, in two parts if
        they wrap around; the frames in the queue stay. */
    method CopyIn(buffer: array<Byte>, framesToWrite: int)
      requires Valid() && buffer != storage
      requires 0 <= framesToWrite <= fifo.GetEmptyFramesAvailable() && Bytes(framesToWrite) <= buffer.Length
      modifies storage
      ensures 0 <= Bytes(framesToWrite) && 0 <= Bytes(fifo.writeCounter)
      ensures Ring.At(storage[..], Bytes(fifo.writeCounter), Bytes(framesToWrite))
           == buffer[..Bytes(framesToWrite)]
      ensures Contents() == old(Contents())
    {
      hide Basics.Bytes, FullFrames, Ring.At, DivMod.Wrap32, ConvertFramesToBytes;
      var writeIndex := fifo.GetWriteIndex();
      IndexOf(fifo.writeCounter, framesToWrite);
      ContentsFit();
      BytesOrdered(bytesPerFrame, framesToWrite, fifo.GetEmptyFramesAvailable());
      BytesAdd(bytesPerFrame, fifo.readCounter, fifo.writeCounter - fifo.readCounter);
      BytesAdd(bytesPerFrame, fifo.GetEmptyFramesAvailable(), fifo.writeCounter - fifo.readCounter);
      var destination := ConvertFramesToBytes(writeIndex);
      ghost var start, first := Bytes(fifo.writeCounter), Bytes(fifo.readCounter);
      ghost var n := Bytes(fifo.writeCounter - fifo.readCounter);
      if writeIndex + framesToWrite > fifo.totalFrames {
        // The frames run over the end: fill the tail of the storage first.
        var frames1 := fifo.totalFrames - writeIndex;
        var numBytes1 := ConvertFramesToBytes(frames1);
        var numBytes2 := ConvertFramesToBytes(framesToWrite - frames1);
        PutPart(destination, buffer, 0, numBytes1, start, first, n);
        ghost var s1 := storage[..];
        // The ring goes on at its start.
        PutPart(0, buffer, numBytes1, numBytes2, start + numBytes1, first, n + numBytes1);
        TwoParts(s1, storage[..], first, n, start, numBytes1, numBytes2);
        assert buffer[..numBytes1] + buffer[numBytes1..numBytes1 + numBytes2] == buffer[..numBytes1 + numBytes2];
      } else {
        var numBytes := ConvertFramesToBytes(framesToWrite);
        PutPart(destination, buffer, 0, numBytes, start, first, n);
      }
    }

    lemma BytesToZero(framesRead: int, framesLeft: int, length: int)
      requires 0 < bytesPerFrame && 0 <= framesRead && 0 <= framesLeft
      requires Bytes(framesRead + framesLeft) <= length < INT32_LIMIT
      ensures ConvertFramesToBytes(framesRead) == Bytes(framesRead)
      ensures ConvertFramesToBytes(framesLeft) == Bytes(framesLeft)
      ensures 0 <= Bytes(framesRead) && 0 <= Bytes(framesLeft)
      ensures Bytes(framesRead) + Bytes(framesLeft) == Bytes(framesRead + framesLeft)
    {
    }

    /** Reads, fills the rest of the buffer with zeros, and counts what was read and what missed. */
    method ReadNow(buffer: array<Byte>, numFrames: int) returns (framesRead: int)
      requires Valid() && buffer != storage
      requires numFrames < INT32_LIMIT && Bytes(numFrames) <= buffer.Length < INT32_LIMIT
      modifies buffer, fifo`readCounter, this`framesReadCount, this`framesUnderrunCount
      ensures Valid()
      ensures framesRead == Min(Max(0, numFrames), old(fifo.GetFullFramesAvailable()))
      ensures 0 <= Bytes(framesRead) <= buffer.Length
      ensures buffer[..Bytes(framesRead)] + Contents() == old(Contents())
      ensures forall k :: Bytes(framesRead) <= k < Bytes(numFrames) ==> buffer[k] == 0
      ensures forall k :: 0 <= k < buffer.Length && Bytes(numFrames) <= k ==> buffer[k] == old(buffer[k])
      ensures framesReadCount == old(framesReadCount) + framesRead
      ensures framesUnderrunCount == old(framesUnderrunCount) + numFrames - framesRead
    {
      hide Basics.Bytes, FullFrames, Ring.At, Contents, ConvertFramesToBytes;
      framesRead := Read(buffer, numFrames);
      var framesLeft := numFrames - framesRead;
      if numFrames < framesRead {
        BytesOrdered(bytesPerFrame, numFrames, framesRead);
      }
      framesReadCount := framesReadCount + framesRead;
      framesUnderrunCount := framesUnderrunCount + framesLeft;
      // Silence where the queue had nothing to give.
      if framesLeft > 0 {
        BytesToZero(framesRead, framesLeft, buffer.Length);
        var destination := ConvertFramesToBytes(framesRead);
        var bytesToZero := ConvertFramesToBytes(framesLeft);
        forall k | destination <= k < destination + bytesToZero {
          buffer[k] := 0;
        }
      }
    }
  }
}
