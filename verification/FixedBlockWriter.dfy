/** Regroups writes of any size into blocks of one size (src/common/FixedBlockWriter.cpp). */
module FixedBlockWriter {
  import opened Blocks

  class FixedBlockWriter {
    const processor: BlockSink
    const size: int
    const storage: array<Byte>
    var position: int

    ghost predicate Valid()
      reads this
    {
      && processor.Valid() && size == processor.size
      && storage.Length == size && 0 <= position <= size
    }

    /** Bytes stored and not yet given to the processor. */
    ghost function Pending(): seq<Byte>
      requires Valid()
      reads this, storage
    {
      storage[..position]
    }

    /** Everything written so far, as far as it is still accounted for. */
    ghost function Total(): seq<Byte>
      requires Valid()
      reads this, storage, processor
    {
      processor.Received() + Pending()
    }

    constructor (processor: BlockSink)
      requires processor.Valid()
      ensures Valid() && fresh(storage) && this.processor == processor && Pending() == []
    {
      this.processor := processor;
      size := processor.size;
      storage := new Byte[processor.size];
      position := 0;
    }

    /** Stores as many of the bytes as there is room for. */
    method WriteToStorage(buffer: seq<Byte>) returns (bytesToStore: int)
      requires Valid()
      modifies this`position, storage
      ensures Valid()
      ensures bytesToStore == (if |buffer| <= size - old(position) then |buffer| else size - old(position))
      ensures Pending() == old(Pending()) + buffer[..bytesToStore]
    {
      bytesToStore := |buffer|;
      var roomAvailable := size - position;
      if bytesToStore > roomAvailable {
        bytesToStore := roomAvailable;
      }
      forall i | 0 <= i < bytesToStore {
        storage[position + i] := buffer[i];
      }
      position := position + bytesToStore;
      assert Pending() == old(Pending()) + buffer[..bytesToStore];
    }

    /** Why a write failed: the last answer was an error, or a full storage was not taken whole. */
    ghost predicate Failed(result: int, calls: nat)
      reads this, processor
    {
      && calls < |processor.blocks|
      && var last := processor.answer(|processor.blocks| - 1);
         (last < 0 && result == last) || (0 <= last < size && result == -1)
    }

    /** Every call since `before` got a block of the fixed size. */
    ghost predicate Whole(before: seq<seq<Byte>>)
      reads this, processor
    {
      && before <= processor.blocks
      && forall i :: |before| <= i < |processor.blocks| ==> |processor.blocks[i]| == size
    }

    /** Flushes the storage when it is full. */
    method FlushIfFull(ghost blocks: seq<seq<Byte>>) returns (result: int)
      requires Valid() && Whole(blocks)
      modifies this`position, processor`blocks
      ensures Valid() && Whole(blocks)
      ensures 0 <= result ==> Total() == old(Total())
      ensures 0 <= result ==> position == if old(position) == size then 0 else old(position)
      ensures old(position) != size ==> result == 0 && processor.blocks == old(processor.blocks)
      ensures result < 0 ==> Failed(result, |blocks|)
      ensures result < 0 ==> processor.Received() <= old(Total())
    {
      result := 0;
      if position == size {
        result := processor.OnProcessFixedBlock(storage[..]);
        assert storage[..] == old(Pending());
        if result < 0 {
          return;
        }
        position := 0;
        if result < size {
          // A partial answer to a full storage counts as a failure.
          return -1;
        }
      }
    }

    /** Gives the processor the block of `buffer` at `offset`. */
    method PassBlock(buffer: seq<Byte>, offset: nat, ghost blocks: seq<seq<Byte>>, ghost received: seq<Byte>)
        returns (result: int)
      requires Valid() && size < |buffer| - offset
      requires Whole(blocks) && processor.Received() == received + buffer[..offset]
      modifies processor`blocks
      ensures Whole(blocks) && result <= size
      ensures |processor.blocks| == |old(processor.blocks)| + 1
      ensures result == processor.answer(|old(processor.blocks)|)
      ensures if result < 0 then processor.Received() == received + buffer[..offset]
              else processor.Received() == received + buffer[..offset + result]
    {
      result := processor.OnProcessFixedBlock(buffer[offset..offset + size]);
      if 0 <= result {
        TakenSlice(buffer, offset, size, result);
      }
    }

    /** Passes complete blocks through, as long as more than one block is left. */
    method WriteThrough(buffer: seq<Byte>, ghost blocks: seq<seq<Byte>>) returns (result: int)
      requires Valid() && (position == 0 || buffer == []) && Whole(blocks)
      modifies processor`blocks
      ensures Valid() && Whole(blocks)
      ensures 0 <= result ==> result <= |buffer| && |buffer| - result <= size
      ensures 0 <= result ==> (result == |buffer| <==> buffer == [])
      ensures |buffer| <= size ==> result == 0 && processor.blocks == old(processor.blocks)
      ensures 0 <= result ==> Total() == old(Total()) + buffer[..result]
      ensures result < 0 ==> Failed(result, |blocks|)
      ensures result < 0 ==> processor.Received() <= old(Total()) + buffer
    {
      ghost var received := processor.Received();
      var offset := 0;
      while |buffer| - offset > size
        invariant 0 <= offset <= |buffer| && Whole(blocks)
        invariant processor.Received() == received + buffer[..offset]
        invariant offset == |buffer| <==> buffer == []
        invariant |buffer| <= size ==> offset == 0 && processor.blocks == old(processor.blocks)
        decreases |buffer| - offset, processor.patience(|processor.blocks|)
      {
        var bytesWritten := PassBlock(buffer, offset, blocks, received);
        if bytesWritten < 0 {
          return bytesWritten;
        }
        offset := offset + bytesWritten;
      }
      return offset;
    }

    /** Adds to a partly filled storage first, and returns what was left of the buffer. */
    method TopUp(buffer: seq<Byte>, ghost blocks: seq<seq<Byte>>) returns (result: int, rest: seq<Byte>)
      requires Valid() && Whole(blocks)
      modifies this`position, storage, processor`blocks
      ensures Valid() && Whole(blocks)
      ensures 0 <= result ==> Total() + rest == old(Total()) + buffer && |rest| <= |buffer|
      ensures 0 <= result ==> position == 0 || rest == []
      ensures 0 <= result && old(position) == 0 ==> rest == buffer && position == 0
      ensures 0 <= result && 0 < old(position) ==>
                if old(position) + |buffer| < size then rest == [] && position == old(position) + |buffer|
                else position == 0 && |rest| == old(position) + |buffer| - size
      ensures old(position) == 0 || old(position) + |buffer| < size ==> processor.blocks == old(processor.blocks)
      ensures result < 0 ==> Failed(result, |blocks|)
      ensures result < 0 ==> processor.Received() <= old(Total()) + buffer
    {
      result, rest := 0, buffer;
      if position > 0 {
        var bytesWritten := WriteToStorage(buffer);
        rest := buffer[bytesWritten..];
        assert buffer == buffer[..bytesWritten] + rest;
        result := FlushIfFull(blocks);
      }
    }

    /** Stores the last, partial block for the next write. */
    method StoreRest(rest: seq<Byte>) returns (bytesLeft: int)
      requires Valid() && |rest| <= size && (position == 0 || rest == [])
      modifies this`position, storage
      ensures Valid() && bytesLeft == 0 && Total() == old(Total()) + rest
      ensures position == old(position) + |rest|
    {
      bytesLeft := |rest|;
      if bytesLeft > 0 {
        var bytesWritten := WriteToStorage(rest);
        bytesLeft := bytesLeft - bytesWritten;
      }
    }

    /** Whether a write leaves nothing in storage: when it fills up a storage that held something, and
        no more. A block that comes alone, or last, is kept for the next write. */
    predicate StorageEmpty(stored: int, written: int) {
      stored + written == if stored == 0 then 0 else size
    }

    /** Returns the number of bytes written, which is all of them, or a negative error. */
    method Write(buffer: seq<Byte>) returns (result: int)
      requires Valid()
      modifies this`position, storage, processor`blocks
      ensures Valid() && Whole(old(processor.blocks))
      ensures 0 <= result ==> result == |buffer| && Total() == old(Total()) + buffer
      ensures 0 <= result ==> (position == 0 <==> StorageEmpty(old(position), |buffer|))
      ensures (if old(position) == 0 then |buffer| <= size else old(position) + |buffer| < size) ==>
                processor.blocks == old(processor.blocks)
      ensures result < 0 ==> Failed(result, |old(processor.blocks)|)
      ensures result < 0 ==> processor.Received() <= old(Total()) + buffer
    {
      hide Total, Failed, BlockSink.Received;
      ghost var blocks := processor.blocks;
      var rest;
      result, rest := TopUp(buffer, blocks);
      if result < 0 {
        return;
      }
      result := WriteThrough(rest, blocks);
      if result < 0 {
        return;
      }
      assert rest == rest[..result] + rest[result..];
      rest := rest[result..];
      var bytesLeft := StoreRest(rest);
      result := |buffer| - bytesLeft;
    }

    /** With a processor that takes every block whole, the blocks it got are the written bytes cut
        into blocks, up to at most one block that is still stored. */
    lemma BlocksAreTotal()
      requires Valid() && Whole([])
      requires forall i: nat :: i < |processor.blocks| ==> processor.answer(i) == size
      ensures Total() == Concat(processor.blocks) + Pending()
      ensures |Total()| == |processor.blocks| * size + |Pending()| && |Pending()| <= size
    {
      AcceptedWhole(processor.blocks, processor.answer);
      ConcatLength(processor.blocks, size);
    }
  }
}
