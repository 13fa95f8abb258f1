/** Packed 24-bit samples: the source that unpacks them to reals and the sink that packs them again
    (src/flowgraph/SourceI24.cpp, src/flowgraph/SinkI24.cpp). A 24-bit sample fits the mantissa of
    a `float`, so the conversion is exact and reals are faithful. */
module PackedI24 {
  import opened Basics
  import opened Blocks
  import DivMod

  const BYTES_PER_SAMPLE: int := 3
  const I24_MAX: int := 0x007F_FFFF
  const I24_MIN: int := -0x0080_0000

  // ---------------------------------------------------------------- one sample

  /** A shift left by one byte, and a byte or-ed into the low bits thus freed. */
  function ShiftIn(pad: int, b: Byte): int {
    DivMod.Wrap32(pad * 256 + b as int)
  }

  /** Assembles three little-endian bytes in the upper part of 32 bits, so that the sign is right,
      and scales by 2^-31 to the range -1.0 to 1.0. */
  function Decode(b0: Byte, b1: Byte, b2: Byte): real {
    ShiftIn(ShiftIn(ShiftIn(b2 as int, b1), b0), 0) as real / 2147483648.0
  }

  /** Conversion of a real to an integer, toward zero. */
  function Truncate(x: real): int {
    if 0.0 <= x then x.Floor else -((-x).Floor)
  }

  /** The 24-bit integer for a sample, clipped. */
  function Quantise(sample: real): int {
    Min(I24_MAX, Max(I24_MIN, Truncate(sample * 8388608.0)))
  }

  /** Byte `k` of an integer: an arithmetic shift right, then the low bits. */
  function ByteOf(n: int, k: int): Byte
    requires 0 <= k < 3
  {
    if k == 0 then (n % 256) as Byte
    else if k == 1 then (n / 256 % 256) as Byte
    else (n / 65536 % 256) as Byte
  }

  /** The signed value of three little-endian bytes. */
  function Signed(b0: Byte, b1: Byte, b2: Byte): (n: int)
    ensures I24_MIN <= n <= I24_MAX
  {
    b0 as int + 256 * b1 as int + 65536 * (if b2 < 128 then b2 as int else b2 as int - 256)
  }

  lemma ShiftInSmall(pad: int, b: Byte)
    requires 0 <= pad < 0x1_0000
    ensures ShiftIn(pad, b) == pad * 256 + b as int
  {
  }

  lemma ShiftInTop(pad: int)
    requires 0 <= pad < 0x100_0000
    ensures ShiftIn(pad, 0) == if pad < 0x80_0000 then 256 * pad else 256 * (pad - 0x100_0000)
  {
  }

  lemma Assembled(b0: Byte, b1: Byte, b2: Byte)
    ensures ShiftIn(ShiftIn(ShiftIn(b2 as int, b1), b0), 0) == 256 * Signed(b0, b1, b2)
  {
    ShiftInSmall(b2 as int, b1);
    ShiftInSmall(b2 as int * 256 + b1 as int, b0);
    ShiftInTop(b2 as int * 65536 + b1 as int * 256 + b0 as int);
  }

  lemma BytesOfSigned(b0: Byte, b1: Byte, b2: Byte)
    ensures var n := Signed(b0, b1, b2);
            ByteOf(n, 0) == b0 && ByteOf(n, 1) == b1 && ByteOf(n, 2) == b2
  {
    var n := Signed(b0, b1, b2);
    var r := if b2 < 128 then b2 as int else b2 as int - 256;
    assert n / 256 == b1 as int + 256 * r && n % 256 == b0 as int;
    assert n / 65536 == r;
  }

  lemma SignedOfBytes(n: int)
    requires I24_MIN <= n <= I24_MAX
    ensures Signed(ByteOf(n, 0), ByteOf(n, 1), ByteOf(n, 2)) == n
  {
    var q := n / 256;
    assert n / 65536 == q / 256;
    assert -128 <= n / 65536 < 128;
  }

  /** Unpacking is exact: three bytes give a multiple of 2^-23 that quantises to their signed value. */
  lemma DecodeIsExact(b0: Byte, b1: Byte, b2: Byte)
    ensures Decode(b0, b1, b2) * 8388608.0 == Signed(b0, b1, b2) as real
    ensures Quantise(Decode(b0, b1, b2)) == Signed(b0, b1, b2)
  {
    var n := Signed(b0, b1, b2);
    Assembled(b0, b1, b2);
    assert Decode(b0, b1, b2) == (256 * n) as real / 2147483648.0;
    assert Decode(b0, b1, b2) * 8388608.0 == n as real;
    assert Truncate(n as real) == n;
  }

  /** A sample that is unpacked and packed again is the same three bytes. */
  lemma SampleRoundTrip(b0: Byte, b1: Byte, b2: Byte)
    ensures var n := Quantise(Decode(b0, b1, b2));
            ByteOf(n, 0) == b0 && ByteOf(n, 1) == b1 && ByteOf(n, 2) == b2
  {
    DecodeIsExact(b0, b1, b2);
    BytesOfSigned(b0, b1, b2);
  }

  /** A sample that is packed and unpacked again comes back clipped to the 24-bit range, rounded
      toward zero by less than one step. */
  lemma PackedSample(sample: real)
    ensures var n := Quantise(sample);
            var back := Decode(ByteOf(n, 0), ByteOf(n, 1), ByteOf(n, 2)) * 8388608.0;
            var exact := sample * 8388608.0;
            && (8388607.0 <= exact ==> back == 8388607.0)
            && (exact <= -8388608.0 ==> back == -8388608.0)
            && (0.0 <= exact <= 8388607.0 ==> back <= exact < back + 1.0)
            && (-8388608.0 <= exact <= 0.0 ==> back - 1.0 < exact <= back)
  {
    var n := Quantise(sample);
    SignedOfBytes(n);
    DecodeIsExact(ByteOf(n, 0), ByteOf(n, 1), ByteOf(n, 2));
    Truncated(sample * 8388608.0);
  }

  lemma Truncated(x: real)
    ensures 0.0 <= x ==> Truncate(x) as real <= x < Truncate(x) as real + 1.0
    ensures x <= 0.0 ==> Truncate(x) as real - 1.0 < x <= Truncate(x) as real
  {
  }

  // ---------------------------------------------------------------- streams of samples

  function Decoded(bytes: seq<Byte>): (samples: seq<real>)
    ensures |samples| == |bytes| / 3
  {
    seq(|bytes| / 3, i requires 0 <= i < |bytes| / 3 => Decode(bytes[3 * i], bytes[3 * i + 1], bytes[3 * i + 2]))
  }

  function Encoded(samples: seq<real>): (bytes: seq<Byte>)
    ensures |bytes| == 3 * |samples|
  {
    seq(3 * |samples|, j requires 0 <= j < 3 * |samples| => ByteOf(Quantise(samples[j / 3]), j % 3))
  }

  /** Any number of whole packed samples survives unpacking and packing, byte for byte. */
  lemma RoundTrip(bytes: seq<Byte>)
    requires |bytes| % 3 == 0
    ensures Encoded(Decoded(bytes)) == bytes
  {
    forall j | 0 <= j < |bytes|
      ensures Encoded(Decoded(bytes))[j] == bytes[j]
    {
      var i := j / 3;
      SampleRoundTrip(bytes[3 * i], bytes[3 * i + 1], bytes[3 * i + 2]);
    }
  }

  // ---------------------------------------------------------------- nodes

  class SourceI24 {
    const channelCount: int
    const output: array<real>  // buffer of the output port
    var data: seq<Byte>
    var sizeInFrames: int
    var frameIndex: int
    var lastCallCount: int
    var lastFrameCount: int

    ghost predicate Valid()
      reads this
    {
      && 0 < channelCount && output.Length == FRAMES_PER_BUFFER * channelCount
      && 0 <= frameIndex <= sizeInFrames
      && |data| == sizeInFrames * channelCount * BYTES_PER_SAMPLE
    }

    /** Where in the data the next frame starts. */
    ghost function Offset(): int
      reads this
    {
      frameIndex * channelCount * BYTES_PER_SAMPLE
    }

    lemma OffsetInData()
      requires Valid()
      ensures 0 <= Offset() <= |data|
    {
      DivMod.MulMonotone(0, frameIndex, channelCount);
      DivMod.MulMonotone(frameIndex, sizeInFrames, channelCount);
    }

    lemma FrameIndexInRange()
      requires Valid()
      ensures 0 <= frameIndex <= sizeInFrames
    {
    }

    /** The bytes not yet handed on. */
    ghost function Remaining(): seq<Byte>
      requires Valid()
      reads this
    {
      OffsetInData();
      data[Offset()..]
    }

    constructor (channelCount: int)
      requires 0 < channelCount
      ensures Valid() && this.channelCount == channelCount && fresh(output)
      ensures Remaining() == [] && lastCallCount == INITIAL_CALL_COUNT
    {
      this.channelCount := channelCount;
      output := new real[FRAMES_PER_BUFFER * channelCount];
      data, sizeInFrames, frameIndex := [], 0, 0;
      lastCallCount, lastFrameCount := INITIAL_CALL_COUNT, 0;
    }

    method SetData(data: seq<Byte>, numFrames: int)
      requires Valid() && 0 <= numFrames && |data| == numFrames * channelCount * BYTES_PER_SAMPLE
      modifies this`data, this`sizeInFrames, this`frameIndex
      ensures Valid() && Remaining() == data
    {
      this.data := data;
      sizeInFrames := numFrames;
      frameIndex := 0;
    }

    method OnProcess(numFrames: int) returns (framesToProcess: int)
      requires Valid() && 0 < numFrames <= FRAMES_PER_BUFFER
      modifies output, this`frameIndex
      ensures Valid() && framesToProcess == Min(numFrames, sizeInFrames - old(frameIndex))
      ensures frameIndex == old(frameIndex) + framesToProcess
      ensures Handed(old(Remaining()), framesToProcess)
    {
      var framesLeft := sizeInFrames - frameIndex;
      framesToProcess := Min(numFrames, framesLeft);
      var numSamples := framesToProcess * channelCount;
      OffsetInData();
      SamplesFit(framesToProcess);
      var base := frameIndex * channelCount * BYTES_PER_SAMPLE;
      UnpackSamples(base, numSamples);
      ghost var before := Remaining();
      frameIndex := frameIndex + framesToProcess;
      assert before[..3 * numSamples] == data[base..base + 3 * numSamples];
    }

    /** The output buffer holds the next `frames` frames of `before`; the rest remains. */
    ghost predicate Handed(before: seq<Byte>, frames: int)
      requires Valid()
      reads this, output
    {
      var n := frames * channelCount;
      && 0 <= n <= output.Length && 3 * n <= |before|
      && output[..n] == Decoded(before[..3 * n])
      && Remaining() == before[3 * n..]
    }

    lemma SamplesFit(frames: int)
      requires Valid() && 0 <= frames <= Min(FRAMES_PER_BUFFER, sizeInFrames - frameIndex)
      ensures 0 <= frames * channelCount <= output.Length
      ensures Offset() + 3 * (frames * channelCount)
           == (frameIndex + frames) * channelCount * BYTES_PER_SAMPLE <= |data|
    {
      DivMod.MulMonotone(0, frames, channelCount);
      DivMod.MulMonotone(frames, FRAMES_PER_BUFFER, channelCount);
      DivMod.MulMonotone(frameIndex + frames, sizeInFrames, channelCount);
      DivMod.MulDistributes(frameIndex, frames, channelCount);
    }

    /** Unpacks samples from the data at `base` to the start of the output buffer. */
    method UnpackSamples(base: int, numSamples: int)
      requires 0 <= base && 0 <= numSamples <= output.Length && base + 3 * numSamples <= |data|
      modifies output
      ensures output[..numSamples] == Decoded(data[base..base + 3 * numSamples])
    {
      hide Decode;
      var byteData := base;
      for i := 0 to numSamples
        invariant byteData == base + 3 * i
        invariant forall j :: 0 <= j < i ==>
                    output[j] == Decode(data[base + 3 * j], data[base + 3 * j + 1], data[base + 3 * j + 2])
      {
        output[i] := Decode(data[byteData], data[byteData + 1], data[byteData + 2]);
        byteData := byteData + BYTES_PER_SAMPLE;
      }
      ghost var bytes := data[base..base + 3 * numSamples];
      assert forall j :: 0 <= j < numSamples ==> output[j] == Decoded(bytes)[j];
    }

    /** A pull through the output port. */
    method PullData(callCount: int, numFrames: int) returns (frameCount: int)
      requires Valid() && 0 < numFrames && lastCallCount < callCount
      modifies output, this`frameIndex, this`lastCallCount, this`lastFrameCount
      ensures Valid() && lastCallCount == callCount && lastFrameCount == frameCount
      ensures frameCount == Min(Min(FRAMES_PER_BUFFER, numFrames), sizeInFrames - old(frameIndex))
      ensures frameIndex == old(frameIndex) + frameCount
      ensures Handed(old(Remaining()), frameCount)
    {
      frameCount := Min(FRAMES_PER_BUFFER, numFrames);
      if callCount > lastCallCount {
        lastCallCount := callCount;
        if frameCount > 0 {
          frameCount := OnProcess(frameCount);
        }
        lastFrameCount := frameCount;
      } else {
        frameCount := lastFrameCount;
      }
    }
  }

  class SinkI24 {
    const input: SourceI24
    var lastCallCount: int
    var lastFrameCount: int

    ghost predicate Valid()
      reads this, input
    {
      input.Valid() && input.lastCallCount <= lastCallCount
    }

    constructor (input: SourceI24)
      requires input.Valid() && input.lastCallCount == INITIAL_CALL_COUNT
      ensures Valid() && this.input == input
    {
      this.input := input;
      lastCallCount, lastFrameCount := INITIAL_CALL_COUNT, 0;
    }

    /** Runs the graph under the next call count. */
    method PullData(numFrames: int) returns (frameCount: int)
      requires Valid() && 0 < numFrames
      modifies this, input`frameIndex, input`lastCallCount, input`lastFrameCount, input.output
      ensures Valid() && lastCallCount == old(lastCallCount) + 1 && lastFrameCount == frameCount
      ensures frameCount == Min(Min(FRAMES_PER_BUFFER, numFrames), input.sizeInFrames - old(input.frameIndex))
      ensures input.frameIndex == old(input.frameIndex) + frameCount
      ensures input.Handed(old(input.Remaining()), frameCount)
    {
      lastCallCount := lastCallCount + 1;
      frameCount := input.PullData(lastCallCount, numFrames);
      lastFrameCount := frameCount;
    }

    /** Packs the first samples of the input buffer into `data` at `at`. */
    method PackSamples(data: array<Byte>, at: int, numSamples: int)
      requires 0 <= numSamples <= input.output.Length && 0 <= at && at + 3 * numSamples <= data.Length
      modifies data
      ensures data[..at] == old(data[..at])
      ensures data[at..at + 3 * numSamples] == Encoded(input.output[..numSamples])
      ensures data[at + 3 * numSamples..] == old(data[at + 3 * numSamples..])
    {
      hide Quantise, ByteOf;
      var byteData := at;
      for i := 0 to numSamples
        invariant byteData == at + 3 * i
        invariant forall k :: 0 <= k < at ==> data[k] == old(data[k])
        invariant forall k :: at <= k < byteData ==> data[k] == Encoded(input.output[..numSamples])[k - at]
        invariant forall k :: byteData <= k < data.Length ==> data[k] == old(data[k])
      {
        var n := Quantise(input.output[i]);
        data[byteData] := ByteOf(n, 0);
        data[byteData + 1] := ByteOf(n, 1);
        data[byteData + 2] := ByteOf(n, 2);
        byteData := byteData + BYTES_PER_SAMPLE;
      }
    }

    /** One pull, its samples packed into `data` at `at`. */
    method PullInto(data: array<Byte>, at: int, numFrames: int) returns (framesPulled: int)
      requires Valid() && 0 < numFrames
      requires 0 <= at && at + 3 * (numFrames * input.channelCount) <= data.Length
      modifies data, this, input`frameIndex, input`lastCallCount, input`lastFrameCount, input.output
      ensures Valid()
      ensures framesPulled == Min(Min(FRAMES_PER_BUFFER, numFrames), input.sizeInFrames - old(input.frameIndex))
      ensures input.frameIndex == old(input.frameIndex) + framesPulled
      ensures var end := at + 3 * (framesPulled * input.channelCount);
              && at <= end <= data.Length
              && data[..end] + input.Remaining() == old(data[..at]) + old(input.Remaining())
              && data[end..] == old(data[end..])
    {
      hide Encoded, Decoded, SourceI24.Remaining;
      framesPulled := PullData(numFrames);
      var numSamples := framesPulled * input.channelCount;
      DivMod.MulMonotone(framesPulled, numFrames, input.channelCount);
      PackSamples(data, at, numSamples);
      ghost var before := old(input.Remaining());
      RoundTrip(before[..3 * numSamples]);
      assert before == before[..3 * numSamples] + before[3 * numSamples..];
      assert data[..at + 3 * numSamples] == data[..at] + data[at..at + 3 * numSamples];
    }

    /** Reads up to `numFrames` frames into `data`: exactly the next bytes of the source, however
        the reads are cut, and as many as it has. */
    method Read(data: array<Byte>, numFrames: int) returns (framesRead: int)
      requires Valid() && 3 * (numFrames * input.channelCount) <= data.Length
      modifies data, this, input`frameIndex, input`lastCallCount, input`lastFrameCount, input.output
      ensures Valid()
      ensures framesRead == Min(Max(0, numFrames), input.sizeInFrames - old(input.frameIndex))
      ensures input.frameIndex == old(input.frameIndex) + framesRead
      ensures var end := 3 * (framesRead * input.channelCount);
              && 0 <= end <= data.Length
              && data[..end] + input.Remaining() == old(input.Remaining())
              && data[end..] == old(data[end..])
    {
      hide SourceI24.Remaining, SourceI24.Valid, Decoded, Encoded;
      input.FrameIndexInRange();
      var framesLeft := numFrames;
      var byteData := 0;
      while framesLeft > 0
        invariant Valid() && framesLeft <= numFrames
        invariant input.frameIndex == old(input.frameIndex) + numFrames - framesLeft <= input.sizeInFrames
        invariant 0 <= framesLeft || framesLeft == numFrames
        invariant byteData == 3 * ((numFrames - framesLeft) * input.channelCount)
        invariant 0 <= byteData <= data.Length
        invariant data[..byteData] + input.Remaining() == old(input.Remaining())
        invariant data[byteData..] == old(data[byteData..])
      {
        DivMod.MulDistributes(numFrames - framesLeft, framesLeft, input.channelCount);
        var framesPulled := PullInto(data, byteData, framesLeft);
        if framesPulled <= 0 {
          break;
        }
        DivMod.MulDistributes(numFrames - framesLeft, framesPulled, input.channelCount);
        byteData := byteData + 3 * (framesPulled * input.channelCount);
        framesLeft := framesLeft - framesPulled;
      }
      framesRead := numFrames - framesLeft;
    }
  }
}
