/** A circular byte store addressed by ever growing positions. */
module Ring {
  import opened Blocks
  import DivMod

  /** The `n` bytes at positions `start`, `start + 1`, and so on. */
  function At(store: seq<Byte>, start: nat, n: nat): (bytes: seq<Byte>)
    requires 0 < |store|
    ensures |bytes| == n
  {
    seq(n, k requires 0 <= k < n => store[(start + k) % |store|])
  }

  lemma AtSplit(store: seq<Byte>, start: nat, a: nat, b: nat)
    requires 0 < |store|
    ensures At(store, start, a + b) == At(store, start, a) + At(store, start + a, b)
  {
  }

  /** Bytes that do not cross the end of the store are contiguous in it. */
  lemma AtStraight(store: seq<Byte>, start: nat, n: nat, index: nat)
    requires 0 < |store| && index == start % |store| && index + n <= |store|
    ensures At(store, start, n) == store[index..index + n]
  {
    forall k | 0 <= k < n
      ensures At(store, start, n)[k] == store[index + k]
    {
      DivMod.Unique(start + k, |store|, start / |store|, index + k);
    }
  }

  /** Bytes stored at `start` without crossing the end leave the positions of one turn before their
      end as they were. */
  lemma Put(store: seq<Byte>, store': seq<Byte>, start: nat, data: seq<Byte>, index: nat, first: nat, n: nat)
    requires 0 < |store| && index == start % |store| && index + |data| <= |store|
    requires store' == store[..index] + data + store[index + |data|..]
    requires first + n <= start && start + |data| <= first + |store|
    ensures At(store', start, |data|) == data && At(store', first, n) == At(store, first, n)
  {
    AtStraight(store', start, |data|, index);
    forall k | 0 <= k < n
      ensures At(store', first, n)[k] == At(store, first, n)[k]
    {
      var slot := (first + k) % |store|;
      if index <= slot < index + |data| {
        var j := slot - index;
        DivMod.Unique(start + j, |store|, start / |store|, slot);
        DivMod.DistinctSlots(first + k, start + j, |store|);
        assert false;
      }
    }
  }
}
