/** Serves reads of any size from blocks of one size (src/common/FixedBlockReader.cpp). */
module FixedBlockReader {
  import opened Blocks
  import DivMod

  class FixedBlockReader {
    const processor: BlockSource
    const size: int
    const storage: array<Byte>
    var position: int
    var valid: int  // number of valid bytes in storage
    ghost var consumed: seq<Byte>  // every byte handed on so far, also by a read that failed

    ghost predicate Valid()
      reads this, storage, processor
    {
      && processor.Valid() && size == processor.size
      && storage.Length == size && 0 <= position <= valid <= size
      && processor.Produced() == consumed + Pending()
    }

    /** Bytes received from the processor and not yet handed on. */
    ghost function Pending(): seq<Byte>
      requires 0 <= position <= valid <= storage.Length
      reads this, storage
    {
      storage[position..valid]
    }

    constructor (processor: BlockSource)
      requires processor.Valid() && processor.calls == 0
      ensures Valid() && fresh(storage) && this.processor == processor
      ensures Pending() == [] && consumed == []
    {
      this.processor := processor;
      size := processor.size;
      storage := new Byte[processor.size];
      position, valid := 0, 0;
      consumed := [];
    }

    /** Uses up bytes that are in storage. */
    method ReadFromStorage(numBytes: int) returns (bytes: seq<Byte>)
      requires Valid() && 0 <= numBytes
      modifies this`position, this`consumed
      ensures Valid() && valid == old(valid) && consumed == old(consumed) + bytes
      ensures |bytes| == (if numBytes <= |old(Pending())| then numBytes else |old(Pending())|)
      ensures bytes + Pending() == old(Pending())
    {
      var bytesToRead := numBytes;
      var dataAvailable := valid - position;
      if bytesToRead > dataAvailable {
        bytesToRead := dataAvailable;
      }
      bytes := storage[position..position + bytesToRead];
      assert bytes + storage[position + bytesToRead..valid] == Pending();
      consumed := consumed + bytes;
      position := position + bytesToRead;
    }

    /** Reads a block straight into the caller's buffer. */
    method ReadThrough() returns (result: int, bytes: seq<Byte>)
      requires Valid() && position == valid
      modifies this`consumed, processor`calls
      ensures Valid() && processor.calls == old(processor.calls) + 1
      ensures consumed == old(consumed) + bytes
      ensures if result < 0 then bytes == [] && Last(Error(result))
              else result == |bytes| <= size && Last(Data(bytes))
      ensures result == 0 ==>
                processor.patience(processor.calls) < processor.patience(old(processor.calls))
    {
      result, bytes := processor.OnProcessFixedBlock();
      consumed := consumed + bytes;
    }

    /** Loads the storage with the next block. */
    method Reload() returns (result: int)
      requires Valid() && position == valid
      modifies this`position, this`valid, storage, processor`calls
      ensures Valid() && consumed == old(consumed) && processor.calls == old(processor.calls) + 1
      ensures if result < 0 then Pending() == [] && Last(Error(result))
              else result == |Pending()| && Last(Data(Pending()))
    {
      var bytes;
      result, bytes := processor.OnProcessFixedBlock();
      if 0 <= result {
        forall i | 0 <= i < |bytes| {
          storage[i] := bytes[i];
        }
        position := 0;
        valid := result;
        assert Pending() == bytes;
      }
    }

    /** How the last call of the processor was answered. */
    ghost predicate Last(supply: Supply)
      reads this, processor
    {
      0 < processor.calls && processor.supply(processor.calls - 1) == supply
    }

    /** One turn of the read loop: from storage, straight through, or a reload that delivers
        nothing yet. `proceed` says whether the loop goes on. */
    method Turn(bytesLeft: int) returns (proceed: bool, result: int, bytes: seq<Byte>)
      requires Valid() && 0 < bytesLeft
      modifies this`position, this`valid, this`consumed, storage, processor`calls
      ensures Valid() && consumed == old(consumed) + bytes && |bytes| <= bytesLeft
      ensures old(processor.calls) <= processor.calls <= old(processor.calls) + 1
      ensures result < 0 ==> !proceed && bytes == [] && Pending() == []
      ensures result < 0 ==> old(processor.calls) < processor.calls && Last(Error(result))
      ensures 0 <= result && !proceed ==> bytes == [] && Pending() == []
      ensures 0 <= result && !proceed ==> old(processor.calls) < processor.calls && Last(Data([]))
      ensures proceed && bytes == [] ==> old(position) == old(valid)
      ensures proceed && bytes == [] && position == valid ==>
                processor.patience(processor.calls) < processor.patience(old(processor.calls))
      ensures |old(Pending())| < size ==> |Pending()| < size || (bytes == [] && |Pending()| == size)
      ensures |old(Pending())| == size ==> |Pending()| < size || bytes == []
      ensures old(Pending()) != [] ==> processor.calls == old(processor.calls) && bytes != []
      ensures old(Pending()) == [] ==> if size <= bytesLeft then Pending() == [] else bytes == []
    {
      proceed, result, bytes := true, 0, [];
      if position < valid {
        bytes := ReadFromStorage(bytesLeft);
      } else if bytesLeft >= size {
        result, bytes := ReadThrough();
        proceed := 0 <= result;
      } else {
        result := Reload();
        proceed := 0 < result;
      }
    }

    /** Reads into a buffer of any size. `bytes` is what the buffer holds afterwards; a negative
        result does not report them. */
    method Read(numBytes: int) returns (result: int, bytes: seq<Byte>)
      requires Valid()
      modifies this`position, this`valid, this`consumed, storage, processor`calls
      ensures Valid() && consumed == old(consumed) + bytes
      ensures old(processor.calls) <= processor.calls
      ensures |bytes| <= (if 0 <= numBytes then numBytes else 0)
      ensures 0 <= result ==> result == |bytes|
      ensures 0 <= result < numBytes ==> old(processor.calls) < processor.calls && Last(Data([]))
      ensures result < 0 ==> Pending() == [] && old(processor.calls) < processor.calls && Last(Error(result))
      ensures |old(Pending())| < size ==> |Pending()| < size
    {
      bytes := [];
      var bytesLeft := numBytes;
      while bytesLeft > 0
        invariant Valid() && consumed == old(consumed) + bytes
        invariant old(processor.calls) <= processor.calls
        invariant bytesLeft == numBytes - |bytes|
        invariant if 0 <= numBytes then 0 <= bytesLeft else bytes == []
        invariant |old(Pending())| < size ==> |Pending()| < size || 0 < bytesLeft
        decreases bytesLeft, if position < valid then 0 else 1, processor.patience(processor.calls)
      {
        var proceed, block;
        proceed, result, block := Turn(bytesLeft);
        bytes := bytes + block;
        if result < 0 {
          return;
        }
        if !proceed {
          break;
        }
        bytesLeft := bytesLeft - |block|;
      }
      result := numBytes - bytesLeft;
    }

    /** When every block so far was full and storage is not, the blocks requested are exactly as
        many as the bytes handed on need. */
    lemma BlocksNeeded()
      requires Valid() && |Pending()| < size
      requires forall k: nat :: k < processor.calls ==>
                 processor.supply(k).Data? && |processor.supply(k).bytes| == size
      ensures processor.calls == DivMod.CeilDiv(|consumed|, size)
    {
      SuppliedLength(processor.supply, processor.calls, size);
      DivMod.MulDistributes(processor.calls, 1, size);
      DivMod.CeilDivUnique(|consumed|, size, processor.calls);
    }
  }

  lemma {:induction false} SuppliedLength(supply: nat -> Supply, calls: nat, size: nat)
    requires forall k: nat :: k < calls ==> supply(k).Data? && |supply(k).bytes| == size
    ensures |Supplied(supply, 0, calls)| == calls * size
  {
    if calls > 0 {
      SuppliedLength(supply, calls - 1, size);
      DivMod.MulDistributes(calls - 1, 1, size);
    }
  }
}
