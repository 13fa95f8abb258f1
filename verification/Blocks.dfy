/** Bytes, and the processors on the far side of the block adapters
    (src/common/FixedBlockAdapter.h). */
module Blocks {
  import DivMod

  newtype Byte = b: int | 0 <= b < 256

  /** The part of a block that a processor takes when it answers `answer`. */
  function Taken(block: seq<Byte>, answer: int): seq<Byte> {
    if answer <= 0 then [] else if answer < |block| then block[..answer] else block
  }

  lemma TakenSlice(buffer: seq<Byte>, offset: nat, size: nat, answer: int)
    requires offset + size <= |buffer| && 0 <= answer <= size
    ensures buffer[..offset] + Taken(buffer[offset..offset + size], answer) == buffer[..offset + answer]
  {
  }

  /** All bytes taken from a series of blocks, call after call. */
  function Accepted(blocks: seq<seq<Byte>>, answer: nat -> int): seq<Byte> {
    if |blocks| == 0 then []
    else Accepted(blocks[..|blocks| - 1], answer) + Taken(blocks[|blocks| - 1], answer(|blocks| - 1))
  }

  function Concat(blocks: seq<seq<Byte>>): seq<Byte> {
    if |blocks| == 0 then [] else Concat(blocks[..|blocks| - 1]) + blocks[|blocks| - 1]
  }

  /** A processor that takes every block whole receives exactly the blocks. */
  lemma {:induction false} AcceptedWhole(blocks: seq<seq<Byte>>, answer: nat -> int)
    requires forall i: nat :: i < |blocks| ==> answer(i) == |blocks[i]|
    ensures Accepted(blocks, answer) == Concat(blocks)
  {
    if |blocks| > 0 {
      AcceptedWhole(blocks[..|blocks| - 1], answer);
    }
  }

  /** `size` bytes per block. */
  lemma {:induction false} ConcatLength(blocks: seq<seq<Byte>>, size: nat)
    requires forall i :: 0 <= i < |blocks| ==> |blocks[i]| == size
    ensures |Concat(blocks)| == |blocks| * size
  {
    if |blocks| > 0 {
      ConcatLength(blocks[..|blocks| - 1], size);
    }
  }

  /** Block `k` ends where block `last` starts, or before. */
  lemma BlockEnd(k: nat, last: nat, size: nat)
    requires k <= last
    ensures 0 <= k * size && (last + 1) * size == last * size + size
    ensures k < last ==> k * size + size <= last * size
  {
    DivMod.MulDistributes(last, 1, size);
    if k < last {
      DivMod.MulMonotone(k + 1, last, size);
      DivMod.MulDistributes(k, 1, size);
    }
  }

  lemma {:induction false} ConcatAt(blocks: seq<seq<Byte>>, size: nat, k: nat)
    requires k < |blocks| && forall i :: 0 <= i < |blocks| ==> |blocks[i]| == size
    ensures k * size + size <= |Concat(blocks)|
    ensures Concat(blocks)[k * size..k * size + size] == blocks[k]
  {
    var front := blocks[..|blocks| - 1];
    ConcatLength(front, size);
    ConcatLength(blocks, size);
    BlockEnd(k, |front|, size);
    if k < |front| {
      ConcatAt(front, size, k);
      assert front[k] == blocks[k];
    }
  }

  /** A processor that is given blocks: it answers how many bytes it processed, or an error.
      It does not answer zero for ever. */
  class BlockSink {
    const size: int
    const answer: nat -> int
    ghost const patience: nat -> nat
    var blocks: seq<seq<Byte>>  // every block it was given

    ghost predicate Valid() {
      && 0 < size
      && forall k: nat :: answer(k) <= size && (answer(k) == 0 ==> patience(k + 1) < patience(k))
    }

    ghost function Received(): seq<Byte>
      reads this
    {
      Accepted(blocks, answer)
    }

    constructor (size: int, answer: nat -> int, ghost patience: nat -> nat)
      ensures this.size == size && this.answer == answer && this.patience == patience && blocks == []
    {
      this.size := size;
      this.answer := answer;
      this.patience := patience;
      blocks := [];
    }

    method OnProcessFixedBlock(block: seq<Byte>) returns (result: int)
      modifies this`blocks
      ensures blocks == old(blocks) + [block]
      ensures result == answer(|old(blocks)|)
      ensures Received() == old(Received()) + Taken(block, result)
    {
      result := answer(|blocks|);
      assert (blocks + [block])[..|blocks|] == blocks;
      blocks := blocks + [block];
    }
  }

  datatype Supply = Error(code: int) | Data(bytes: seq<Byte>)

  /** The bytes of the calls `first` up to `last`. */
  function Supplied(supply: nat -> Supply, first: nat, last: nat): seq<Byte>
    requires first <= last
    decreases last
  {
    if first == last then [] else Supplied(supply, first, last - 1) + BytesOf(supply(last - 1))
  }

  function BytesOf(s: Supply): seq<Byte> {
    match s
    case Error(_) => []
    case Data(bytes) => bytes
  }

  /** A processor that is asked for blocks: it fills a block wholly or in part, or fails. It does
      not answer with an empty block for ever. */
  class BlockSource {
    const size: int
    const supply: nat -> Supply
    ghost const patience: nat -> nat
    var calls: nat

    ghost predicate Fair(k: nat) {
      match supply(k)
      case Error(code) => code < 0
      case Data(bytes) => |bytes| <= size && (bytes == [] ==> patience(k + 1) < patience(k))
    }

    ghost predicate Valid() {
      0 < size && forall k: nat :: Fair(k)
    }

    ghost function Produced(): seq<Byte>
      reads this
    {
      Supplied(supply, 0, calls)
    }

    constructor (size: int, supply: nat -> Supply, ghost patience: nat -> nat)
      ensures this.size == size && this.supply == supply && this.patience == patience && calls == 0
    {
      this.size := size;
      this.supply := supply;
      this.patience := patience;
      calls := 0;
    }

    /** The number of bytes, which are left in `bytes`, or a negative error. */
    method OnProcessFixedBlock() returns (result: int, bytes: seq<Byte>)
      requires Valid()
      modifies this`calls
      ensures calls == old(calls) + 1
      ensures if result < 0 then bytes == [] && supply(old(calls)) == Error(result)
              else result == |bytes| <= size && supply(old(calls)) == Data(bytes)
      ensures result == 0 ==> patience(calls) < patience(old(calls))
      ensures Produced() == old(Produced()) + bytes
    {
      assert Fair(calls);
      match supply(calls) {
        case Error(code) => result, bytes := code, [];
        case Data(data) => result, bytes := |data|, data;
      }
      calls := calls + 1;
    }
  }
}
