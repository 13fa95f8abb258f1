/** The resampler classes: the phase machine and the delay line they share, the polyphase
    resampler with its mono and stereo fast paths, and the linear one
    (src/flowgraph/resampler/). A virtual call is a dispatch on the kind of the filter. */
module MultiChannelResampler {
  import opened Fir
  import DivMod
  import Phase

  class MultiChannelResampler<T> {
    const filter: Filter<T>
    const buffer: array<T>       // every input sample twice, so reading needs no wrap
    const singleFrame: array<T>  // accumulators of the generic path
    var cursor: int
    var coefficientCursor: int
    var integerPhase: int
    var previousFrame: Frame<T>  // history of the linear resampler
    var currentFrame: Frame<T>
    ghost var written: seq<Frame<T>>
    ghost var readCount: nat

    ghost predicate Shape()
    {
      && filter.Valid()
      && buffer.Length == 2 * filter.numTaps * filter.channelCount
      && singleFrame.Length == filter.channelCount
      && buffer != singleFrame
    }

    /** The buffer, or the pair of frames of the linear resampler, holds the recent input. */
    ghost predicate Holds()
      reads this, buffer
    {
      if filter.kind.Linear? then
        && 0 < filter.channelCount && Frames(written, filter.channelCount)
        && HoldsFrame(previousFrame, |written| - 2)
        && HoldsFrame(currentFrame, |written| - 1)
      else
        DelayLine(filter.arith.zero, buffer[..], cursor, filter.numTaps, filter.channelCount, written)
    }

    ghost predicate HoldsFrame(frame: Frame<T>, i: int)
      requires Frames(written, filter.channelCount)
      reads this`written
    {
      && |frame| == filter.channelCount
      && forall c :: 0 <= c < filter.channelCount ==>
           frame[c] == Sample(filter.arith.zero, written, filter.channelCount, i, c)
    }

    /** The coefficient cursor and the phase, though advanced apart, both follow the counts. */
    ghost predicate InStep()
      reads this
    {
      && filter.Valid()
      && (!filter.kind.Linear? ==>
            coefficientCursor == (readCount % filter.denominator) * filter.numTaps)
      && integerPhase == Phase.PhaseAfter(|written|, readCount, filter.numerator, filter.denominator)
      && 0 <= integerPhase < filter.denominator + filter.numerator
    }

    ghost predicate Valid()
      reads this, buffer
    {
      Shape() && Holds() && InStep()
    }

    constructor (filter: Filter<T>)
      requires filter.Valid()
      ensures Valid() && fresh(buffer) && fresh(singleFrame)
      ensures this.filter == filter && written == [] && readCount == 0
    {
      this.filter := filter;
      DivMod.MulMonotone(0, 2 * filter.numTaps, filter.channelCount);
      buffer := new T[2 * filter.numTaps * filter.channelCount](_ => filter.arith.zero);
      singleFrame := new T[filter.channelCount](_ => filter.arith.zero);
      cursor := 0;
      coefficientCursor := 0;
      integerPhase := filter.denominator;
      previousFrame := seq(filter.channelCount, _ => filter.arith.zero);
      currentFrame := seq(filter.channelCount, _ => filter.arith.zero);
      written := [];
      readCount := 0;
      new;
      assert buffer[..] == seq(buffer.Length, _ => filter.arith.zero);
      forall s, c | 0 <= s < 2 * filter.numTaps && 0 <= c < filter.channelCount
        ensures SlotHolds(filter.arith.zero, buffer[..], 0, filter.numTaps, filter.channelCount, written, s, c)
      {
        IndexBound(s, c, 2 * filter.numTaps, filter.channelCount);
      }
      DivMod.Unique(0, filter.denominator, 0, 0);
    }

    predicate IsWriteNeeded()
      reads this
    {
      integerPhase >= filter.denominator
    }

    // -------------------------------------------------------------- writing

    /** Moves the cursor back, with a wrap, before a write. */
    method RetreatCursor()
      requires Shape() && 0 <= cursor < filter.numTaps
      modifies this`cursor
      ensures cursor == NextCursor(old(cursor), filter.numTaps)
    {
      cursor := cursor - 1;
      if cursor < 0 {
        cursor := filter.numTaps - 1;
      }
    }

    /** The place of the current frame, and the room for it in both halves. */
    lemma Destination()
      requires Shape() && 0 <= cursor < filter.numTaps
      ensures 0 <= cursor * filter.channelCount
      ensures cursor * filter.channelCount + filter.channelCount <= filter.numTaps * filter.channelCount
      ensures buffer.Length == 2 * (filter.numTaps * filter.channelCount)
    {
      IndexBound(cursor, filter.channelCount - 1, filter.numTaps, filter.channelCount);
      IndexBound(cursor, 0, filter.numTaps, filter.channelCount);
      DivMod.MulAssociative(2, filter.numTaps, filter.channelCount);
    }

    /** Writes every channel twice, so that reading does not have to wrap. */
    method StoreTwice(frame: Frame<T>, dest: int, offset: int)
      requires 0 <= dest && dest + |frame| <= offset && offset + offset == buffer.Length
      modifies buffer
      ensures StoredTwice(old(buffer[..]), buffer[..], frame, dest, offset)
    {
      for channel := 0 to |frame|
        invariant forall i :: 0 <= i < buffer.Length ==>
          buffer[i] == (if dest <= i < dest + channel then frame[i - dest]
                        else if dest + offset <= i < dest + offset + channel then frame[i - dest - offset]
                        else old(buffer[i]))
      {
        buffer[dest + channel + offset] := frame[channel];
        buffer[dest + channel] := frame[channel];
      }
    }

    method WriteFrameGeneric(frame: Frame<T>)
      requires Shape() && Holds() && !filter.kind.Linear? && |frame| == filter.channelCount
      modifies this`cursor, this`written, buffer
      ensures Holds() && written == old(written) + [frame]
      ensures cursor == NextCursor(old(cursor), filter.numTaps)
    {
      RetreatCursor();
      Destination();
      StoreTwice(frame, cursor * filter.channelCount, filter.numTaps * filter.channelCount);
      written := written + [frame];
      DelayLineWrite(filter.arith.zero, old(buffer[..]), buffer[..], old(cursor), filter.numTaps,
                     filter.channelCount, old(written), frame);
    }

    method WriteFrameMono(frame: Frame<T>)
      requires Shape() && Holds() && filter.kind.Mono? && |frame| == 1
      modifies this`cursor, this`written, buffer
      ensures Holds() && written == old(written) + [frame]
      ensures cursor == NextCursor(old(cursor), filter.numTaps)
    {
      RetreatCursor();
      Destination();
      var dest := cursor;
      var offset := filter.numTaps;
      var sample := frame[0];
      buffer[dest] := sample;
      buffer[dest + offset] := sample;
      written := written + [frame];
      assert StoredTwice(old(buffer[..]), buffer[..], frame, dest, offset);
      DelayLineWrite(filter.arith.zero, old(buffer[..]), buffer[..], old(cursor), filter.numTaps,
                     filter.channelCount, old(written), frame);
    }

    method WriteFrameStereo(frame: Frame<T>)
      requires Shape() && Holds() && filter.kind.Stereo? && |frame| == 2
      modifies this`cursor, this`written, buffer
      ensures Holds() && written == old(written) + [frame]
      ensures cursor == NextCursor(old(cursor), filter.numTaps)
    {
      RetreatCursor();
      Destination();
      var dest := cursor * 2;
      var offset := filter.numTaps * 2;
      var left, right := frame[0], frame[1];
      buffer[dest] := left;
      buffer[dest + 1] := right;
      buffer[dest + offset] := left;
      buffer[dest + 1 + offset] := right;
      written := written + [frame];
      assert StoredTwice(old(buffer[..]), buffer[..], frame, dest, offset);
      DelayLineWrite(filter.arith.zero, old(buffer[..]), buffer[..], old(cursor), filter.numTaps,
                     filter.channelCount, old(written), frame);
    }

    method WriteFrameLinear(frame: Frame<T>)
      requires Shape() && Holds() && filter.kind.Linear? && |frame| == filter.channelCount
      modifies this`previousFrame, this`currentFrame, this`written
      ensures Holds() && written == old(written) + [frame]
    {
      previousFrame := currentFrame;
      currentFrame := frame;
      written := written + [frame];
    }

    method WriteFrame(frame: Frame<T>)
      requires Shape() && Holds() && |frame| == filter.channelCount
      modifies this`cursor, this`previousFrame, this`currentFrame, this`written, buffer
      ensures Holds() && written == old(written) + [frame]
      ensures !filter.kind.Linear? ==> cursor == NextCursor(old(cursor), filter.numTaps)
    {
      match filter.kind
      case Linear => WriteFrameLinear(frame);
      case Mono => WriteFrameMono(frame);
      case Stereo => WriteFrameStereo(frame);
      case MultiChannel => WriteFrameGeneric(frame);
    }

    method WriteNextFrame(frame: Frame<T>)
      requires Valid() && IsWriteNeeded() && |frame| == filter.channelCount
      modifies this`cursor, this`previousFrame, this`currentFrame, this`written, this`integerPhase, buffer
      ensures Valid() && written == old(written) + [frame]
      ensures integerPhase == old(integerPhase) - filter.denominator
    {
      WriteFrame(frame);
      Phase.PhaseStep(|old(written)|, readCount, filter.numerator, filter.denominator);
      integerPhase := integerPhase - filter.denominator;
    }

    // -------------------------------------------------------------- reading

    /** The coefficient row under the cursor. */
    ghost function CurrentRow(): (row: seq<T>)
      requires Valid() && !filter.kind.Linear?
      reads this, buffer
      ensures |row| == filter.numTaps
      ensures 0 <= coefficientCursor && coefficientCursor + filter.numTaps <= |filter.coefficients|
      ensures row == filter.coefficients[coefficientCursor..coefficientCursor + filter.numTaps]
    {
      filter.RowBounds(readCount % filter.denominator);
      filter.Row(readCount % filter.denominator)
    }

    /** The partial sum of the newest `n` frames under the current row. */
    ghost function Sum(channel: int, n: nat): T
      requires Valid() && !filter.kind.Linear? && n <= filter.numTaps && 0 <= channel < filter.channelCount
      reads this, buffer
    {
      PartialSum(filter.arith, CurrentRow(), written, |written| - 1, filter.channelCount, channel, n)
    }

    /** The frame every polyphase read path computes. */
    ghost function FilteredFrame(): Frame<T>
      requires Valid() && !filter.kind.Linear?
      reads this, buffer
    {
      Convolution(filter.arith, CurrentRow(), written, |written| - 1, filter.channelCount)
    }

    /** One more tap of the sum, taken from the buffer. */
    lemma NextTap(channel: int, k: nat)
      requires Valid() && !filter.kind.Linear? && k < filter.numTaps && 0 <= channel < filter.channelCount
      ensures 0 <= Index(cursor + k, channel, filter.channelCount) < buffer.Length
      ensures 0 <= coefficientCursor + k < |filter.coefficients|
      ensures Sum(channel, k + 1)
           == filter.arith.add(Sum(channel, k),
                filter.arith.mul(buffer[Index(cursor + k, channel, filter.channelCount)],
                                 filter.coefficients[coefficientCursor + k]))
    {
      hide DelayLine, Index;
      Window(filter.arith.zero, buffer[..], cursor, filter.numTaps, filter.channelCount, written, k, channel);
      CoefficientAt(k);
    }

    lemma CoefficientAt(k: nat)
      requires Valid() && !filter.kind.Linear? && k < filter.numTaps
      ensures 0 <= coefficientCursor && coefficientCursor + k < |filter.coefficients|
      ensures CurrentRow()[k] == filter.coefficients[coefficientCursor + k]
    {
      hide Valid, Filter.Valid;
      SliceAt(filter.coefficients, coefficientCursor, filter.numTaps, CurrentRow(), k);
    }

    /** Every channel accumulates in turn, tap by tap, in the shared frame buffer. */
    method ReadFrameGeneric() returns (frame: Frame<T>)
      requires Valid() && !filter.kind.Linear?
      modifies this`coefficientCursor, singleFrame
      ensures frame == old(FilteredFrame())
      ensures coefficientCursor == (old(coefficientCursor) + filter.numTaps) % |filter.coefficients|
    {
      ClearAccumulators();
      var xFrame := cursor * filter.channelCount;
      for i := 0 to filter.numTaps
        invariant Valid() && coefficientCursor == old(coefficientCursor)
        invariant xFrame == (cursor + i) * filter.channelCount
        invariant forall c :: 0 <= c < filter.channelCount ==> singleFrame[c] == Sum(c, i)
      {
        NextTap(0, i);
        var coefficient := filter.coefficients[coefficientCursor + i];
        DivMod.MulDistributes(cursor + i, 1, filter.channelCount);
        xFrame := AccumulateTap(i, xFrame, coefficient);
      }
      frame := singleFrame[..];
      assert frame == FilteredFrame();
      coefficientCursor := (coefficientCursor + filter.numTaps) % |filter.coefficients|;
    }

    method ClearAccumulators()
      requires Shape()
      modifies singleFrame
      ensures forall c :: 0 <= c < filter.channelCount ==> singleFrame[c] == filter.arith.zero
    {
      for channel := 0 to filter.channelCount
        invariant forall c :: 0 <= c < channel ==> singleFrame[c] == filter.arith.zero
      {
        singleFrame[channel] := filter.arith.zero;
      }
    }

    /** Adds tap `i` of every channel to the accumulators. */
    method AccumulateTap(ghost i: nat, start: int, coefficient: T) returns (xFrame: int)
      requires Valid() && !filter.kind.Linear? && i < filter.numTaps
      requires start == Index(cursor + i, 0, filter.channelCount)
      requires 0 <= coefficientCursor + i < |filter.coefficients|
      requires coefficient == filter.coefficients[coefficientCursor + i]
      requires forall c :: 0 <= c < filter.channelCount ==> singleFrame[c] == Sum(c, i)
      modifies singleFrame
      ensures xFrame == start + filter.channelCount
      ensures forall c :: 0 <= c < filter.channelCount ==> singleFrame[c] == Sum(c, i + 1)
    {
      xFrame := start;
      for channel := 0 to filter.channelCount
        invariant xFrame == start + channel
        invariant forall c :: 0 <= c < filter.channelCount ==>
          singleFrame[c] == if c < channel then Sum(c, i + 1) else Sum(c, i)
      {
        NextTap(channel, i);
        singleFrame[channel] :=
          filter.arith.add(singleFrame[channel], filter.arith.mul(buffer[xFrame], coefficient));
        xFrame := xFrame + 1;
      }
    }

    /** One channel, four taps per iteration. */
    method ReadFrameMono() returns (frame: Frame<T>)
      requires Valid() && filter.kind.Mono?
      modifies this`coefficientCursor
      ensures frame == old(FilteredFrame())
      ensures coefficientCursor == (old(coefficientCursor) + filter.numTaps) % |filter.coefficients|
    {
      var sum := filter.arith.zero;
      for i := 0 to filter.numTaps / 4
        invariant sum == Sum(0, 4 * i)
      {
        sum := AddTap(sum, 0, 4 * i);
        sum := AddTap(sum, 0, 4 * i + 1);
        sum := AddTap(sum, 0, 4 * i + 2);
        sum := AddTap(sum, 0, 4 * i + 3);
      }
      frame := [sum];
      assert frame == FilteredFrame();
      coefficientCursor := (coefficientCursor + filter.numTaps) % |filter.coefficients|;
    }

    /** Two channels, four taps per iteration, each coefficient loaded once. */
    method ReadFrameStereo() returns (frame: Frame<T>)
      requires Valid() && filter.kind.Stereo?
      modifies this`coefficientCursor
      ensures frame == old(FilteredFrame())
      ensures coefficientCursor == (old(coefficientCursor) + filter.numTaps) % |filter.coefficients|
    {
      var left, right := filter.arith.zero, filter.arith.zero;
      for i := 0 to filter.numTaps / 4
        invariant left == Sum(0, 4 * i) && right == Sum(1, 4 * i)
      {
        left := AddTap(left, 0, 4 * i);
        right := AddTap(right, 1, 4 * i);
        left := AddTap(left, 0, 4 * i + 1);
        right := AddTap(right, 1, 4 * i + 1);
        left := AddTap(left, 0, 4 * i + 2);
        right := AddTap(right, 1, 4 * i + 2);
        left := AddTap(left, 0, 4 * i + 3);
        right := AddTap(right, 1, 4 * i + 3);
      }
      frame := [left, right];
      assert frame == FilteredFrame();
      coefficientCursor := (coefficientCursor + filter.numTaps) % |filter.coefficients|;
    }

    /** One multiply and add of an unrolled loop body. */
    function AddTap(sum: T, channel: int, k: nat): (next: T)
      requires Valid() && !filter.kind.Linear? && k < filter.numTaps && 0 <= channel < filter.channelCount
      requires sum == Sum(channel, k)
      reads this, buffer
      ensures next == Sum(channel, k + 1)
    {
      NextTap(channel, k);
      filter.arith.add(sum, filter.arith.mul(buffer[(cursor + k) * filter.channelCount + channel],
                                             filter.coefficients[coefficientCursor + k]))
    }

    /** Interpolates between the two stored frames at the current phase. */
    method ReadFrameLinear() returns (frame: Frame<T>)
      requires Valid() && filter.kind.Linear?
      ensures frame == Interpolation(filter.arith, written, |written| - 1, integerPhase,
                                     filter.denominator, filter.channelCount)
    {
      var phase := filter.arith.ratio(integerPhase, filter.denominator);
      frame := [];
      for channel := 0 to filter.channelCount
        invariant |frame| == channel
        invariant forall c :: 0 <= c < channel ==>
          frame[c] == Interpolate(filter.arith, previousFrame[c], currentFrame[c],
                                  integerPhase, filter.denominator)
      {
        var f0, f1 := previousFrame[channel], currentFrame[channel];
        frame := frame + [filter.arith.add(f0, filter.arith.mul(phase, filter.arith.sub(f1, f0)))];
      }
    }

    method ReadFrame() returns (frame: Frame<T>)
      requires Valid() && !IsWriteNeeded()
      modifies this`coefficientCursor, singleFrame
      ensures frame == filter.Output(written, readCount)
      ensures !filter.kind.Linear? ==>
                coefficientCursor == (old(coefficientCursor) + filter.numTaps) % |filter.coefficients|
    {
      Phase.PhaseAtRead(|written|, readCount, filter.numerator, filter.denominator);
      match filter.kind
      case Linear => frame := ReadFrameLinear();
      case Mono => frame := ReadFrameMono();
      case Stereo => frame := ReadFrameStereo();
      case MultiChannel => frame := ReadFrameGeneric();
    }

    /** Output `readCount` of the whole stream written so far. */
    method ReadNextFrame() returns (frame: Frame<T>)
      requires Valid() && !IsWriteNeeded()
      modifies this`coefficientCursor, this`integerPhase, this`readCount, singleFrame
      ensures Valid() && readCount == old(readCount) + 1
      ensures |written| == filter.Position(old(readCount)) + 1
      ensures frame == filter.Output(written, old(readCount))
      ensures integerPhase == old(integerPhase) + filter.numerator
    {
      Phase.PhaseAtRead(|written|, readCount, filter.numerator, filter.denominator);
      frame := ReadFrame();
      Phase.PhaseStep(|written|, readCount, filter.numerator, filter.denominator);
      Phase.CursorStep(readCount, filter.numTaps, filter.denominator);
      integerPhase := integerPhase + filter.numerator;
      readCount := readCount + 1;
    }
  }

  lemma SliceAt<T>(s: seq<T>, first: int, n: int, part: seq<T>, k: nat)
    requires 0 <= first && k < n && first + n <= |s| && part == s[first..first + n]
    ensures first + k < |s| && part[k] == s[first + k]
  {
  }
}
