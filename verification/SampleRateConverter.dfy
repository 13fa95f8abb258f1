/** The rate-converting node and the buffered source it pulls from
    (src/flowgraph/SampleRateConverter.cpp, SourceFloat.cpp and the ports of FlowGraphNode.cpp). */
module SampleRateConverter {
  import opened Basics
  import opened Fir
  import opened MultiChannelResampler
  import DivMod
  import Phase

  /** Frames in the buffer of a port. */

  /** A source node that reads from an external buffer. */
  class SourceFloat<T> {
    const channelCount: int
    var data: seq<Frame<T>>
    var frameIndex: int
    var output: seq<Frame<T>>  // buffer of the output port
    var lastCallCount: int
    var lastFrameCount: int

    ghost predicate Valid()
      reads this
    {
      && Frames(data, channelCount) && 0 <= frameIndex <= |data|
      && Frames(output, channelCount) && |output| == FRAMES_PER_BUFFER
    }

    /** The frames not yet handed on. */
    ghost function Remaining(): seq<Frame<T>>
      requires Valid()
      reads this
    {
      data[frameIndex..]
    }

    constructor (channelCount: int, zero: T)
      requires 0 < channelCount
      ensures Valid() && this.channelCount == channelCount
      ensures Remaining() == [] && lastCallCount == INITIAL_CALL_COUNT
    {
      this.channelCount := channelCount;
      data, frameIndex := [], 0;
      output := seq(FRAMES_PER_BUFFER, _ => seq(channelCount, _ => zero));
      lastCallCount, lastFrameCount := INITIAL_CALL_COUNT, 0;
    }

    method SetData(data: seq<Frame<T>>)
      requires Valid() && Frames(data, channelCount)
      modifies this`data, this`frameIndex
      ensures Valid() && Remaining() == data
    {
      this.data := data;
      frameIndex := 0;
    }

    method OnProcess(numFrames: int) returns (framesToProcess: int)
      requires Valid() && 0 < numFrames <= FRAMES_PER_BUFFER
      modifies this`output, this`frameIndex
      ensures Valid() && framesToProcess == Min(numFrames, |old(Remaining())|)
      ensures output[..framesToProcess] == old(Remaining())[..framesToProcess]
      ensures Remaining() == old(Remaining())[framesToProcess..]
    {
      var framesLeft := |data| - frameIndex;
      framesToProcess := Min(numFrames, framesLeft);
      output := data[frameIndex..frameIndex + framesToProcess] + output[framesToProcess..];
      frameIndex := frameIndex + framesToProcess;
    }

    /** The node runs once per call count; a repeated call count gets the remembered answer. */
    method PullNode(numFrames: int, callCount: int) returns (frameCount: int)
      requires Valid() && numFrames <= FRAMES_PER_BUFFER
      modifies this`output, this`frameIndex, this`lastCallCount, this`lastFrameCount
      ensures Valid()
      ensures lastCallCount == if old(lastCallCount) < callCount then callCount else old(lastCallCount)
      ensures frameCount == lastFrameCount
      ensures if old(lastCallCount) < callCount && 0 < numFrames then
                && frameCount == Min(numFrames, |old(Remaining())|)
                && output[..frameCount] == old(Remaining())[..frameCount]
                && Remaining() == old(Remaining())[frameCount..]
              else
                && frameCount == (if old(lastCallCount) < callCount then numFrames else old(lastFrameCount))
                && output == old(output) && Remaining() == old(Remaining())
    {
      frameCount := numFrames;
      if callCount > lastCallCount {
        lastCallCount := callCount;
        if frameCount > 0 {
          frameCount := OnProcess(frameCount);
        }
        lastFrameCount := frameCount;
      } else {
        frameCount := lastFrameCount;
      }
    }

    /** A pull through the output port asks for no more than fits its buffer. */
    method PullData(callCount: int, numFrames: int) returns (frameCount: int)
      requires Valid() && 0 < numFrames && lastCallCount < callCount
      modifies this`output, this`frameIndex, this`lastCallCount, this`lastFrameCount
      ensures Valid() && lastCallCount == callCount && frameCount == lastFrameCount
      ensures frameCount == Min(Min(FRAMES_PER_BUFFER, numFrames), |old(Remaining())|)
      ensures output[..frameCount] == old(Remaining())[..frameCount]
      ensures Remaining() == old(Remaining())[frameCount..]
    {
      frameCount := PullNode(Min(FRAMES_PER_BUFFER, numFrames), callCount);
    }
  }

  /** Outputs `first` up to `last` of the stream `x`. */
  ghost function Outputs<T>(f: Filter<T>, x: seq<Frame<T>>, first: nat, last: nat): (y: seq<Frame<T>>)
    requires f.Valid() && Frames(x, f.channelCount) && first <= last
    ensures |y| == last - first && Frames(y, f.channelCount)
  {
    var y := seq(last - first, i requires 0 <= i < last - first => f.Output(x, first + i));
    assert forall i :: 0 <= i < |y| ==> y[i] == f.Output(x, first + i);
    y
  }

  /** How many outputs `n` input frames yield. */
  function OutputCount<T>(f: Filter<T>, n: nat): int
    requires 0 < f.numerator
  {
    DivMod.CeilDiv(n * f.denominator, f.numerator)
  }

  lemma OutputCountSign<T>(f: Filter<T>, n: nat)
    requires f.Valid()
    ensures 0 <= OutputCount(f, n)
  {
  }

  /** The outputs that `n` frames yield are exactly those aligned with one of these frames. */
  lemma PositionBound<T>(f: Filter<T>, n: nat, r: nat)
    requires f.Valid()
    ensures r < OutputCount(f, n) <==> f.Position(r) < n
  {
    DivMod.BelowCeil(r, n * f.denominator, f.numerator);
    DivMod.QuotientBelow(r * f.numerator, f.denominator, n);
  }

  /** Input that arrives later changes none of the outputs that can be made now. */
  lemma OutputsStable<T>(f: Filter<T>, x: seq<Frame<T>>, y: seq<Frame<T>>, first: nat, last: nat)
    requires f.Valid() && Frames(x, f.channelCount) && Frames(y, f.channelCount)
    requires first <= last <= OutputCount(f, |x|)
    ensures Outputs(f, x, first, last) == Outputs(f, x + y, first, last)
  {
    forall r: nat | first <= r < last
      ensures f.Output(x, r) == f.Output(x + y, r)
    {
      PositionBound(f, |x|, r);
      OutputStable(f, x, y, r);
    }
    forall i | 0 <= i < last - first
      ensures Outputs(f, x, first, last)[i] == Outputs(f, x + y, first, last)[i]
    {
      var r: nat := first + i;
      assert f.Output(x, r) == f.Output(x + y, r);
    }
  }

  lemma OutputsConcat<T>(f: Filter<T>, x: seq<Frame<T>>, first: nat, middle: nat, last: nat)
    requires f.Valid() && Frames(x, f.channelCount) && first <= middle <= last
    ensures Outputs(f, x, first, last) == Outputs(f, x, first, middle) + Outputs(f, x, middle, last)
  {
  }

  class SampleRateConverter<T> {
    const resampler: MultiChannelResampler<T>
    const source: SourceFloat<T>
    var inputCursor: int          // the next frame of the source's output buffer
    var numValidInputFrames: int  // how many frames that buffer holds
    var inputCallCount: int       // counts the pulls of the source
    var output: seq<Frame<T>>     // buffer of the output port
    var lastCallCount: int
    var lastFrameCount: int

    ghost predicate Valid()
      reads this, resampler, resampler.buffer, source
    {
      && resampler.Valid() && source.Valid()
      && source.channelCount == resampler.filter.channelCount
      && 0 <= inputCursor <= numValidInputFrames <= FRAMES_PER_BUFFER
      && source.lastCallCount <= inputCallCount
      && |output| == FRAMES_PER_BUFFER
    }

    /** Frames pulled from the source but not yet written to the resampler. */
    ghost function Unread(): (x: seq<Frame<T>>)
      requires Valid()
      reads this, resampler, resampler.buffer, source
      ensures Frames(x, resampler.filter.channelCount)
    {
      source.output[inputCursor..numValidInputFrames]
    }

    /** Frames still to come. */
    ghost function Ahead(): (x: seq<Frame<T>>)
      requires Valid()
      reads this, resampler, resampler.buffer, source
      ensures Frames(x, resampler.filter.channelCount)
    {
      Unread() + source.Remaining()
    }

    /** The whole input stream as far as it is known: read, buffered and still in the source. */
    ghost function Stream(): (x: seq<Frame<T>>)
      requires Valid()
      reads this, resampler, resampler.buffer, source
      ensures Frames(x, resampler.filter.channelCount)
    {
      resampler.written + Ahead()
    }

    /** Exactly the outputs that the frames written yield, rounded up, have been read whenever
        the resampler asks for input, and never more. */
    lemma NoDrift()
      requires Valid()
      ensures resampler.readCount <= OutputCount(resampler.filter, |resampler.written|)
      ensures resampler.IsWriteNeeded() ==>
                resampler.readCount == OutputCount(resampler.filter, |resampler.written|)
    {
      var f := resampler.filter;
      Phase.CountBound(|resampler.written|, resampler.readCount, f.numerator, f.denominator);
      if resampler.IsWriteNeeded() {
        Phase.CountWhenStarved(|resampler.written|, resampler.readCount, f.numerator, f.denominator);
      }
    }

    /** All input is consumed and no output can be made without more. */
    ghost predicate Drained()
      requires Valid()
      reads this, resampler, resampler.buffer, source
    {
      resampler.IsWriteNeeded() && Ahead() == []
    }

    constructor (resampler: MultiChannelResampler<T>, source: SourceFloat<T>)
      requires resampler.Valid() && source.Valid()
      requires source.channelCount == resampler.filter.channelCount
      requires source.lastCallCount == INITIAL_CALL_COUNT
      ensures Valid() && this.resampler == resampler && this.source == source
      ensures Ahead() == source.Remaining() && lastCallCount == INITIAL_CALL_COUNT
    {
      this.resampler := resampler;
      this.source := source;
      inputCursor, numValidInputFrames, inputCallCount := 0, 0, 0;
      output := source.output;
      lastCallCount, lastFrameCount := INITIAL_CALL_COUNT, 0;
    }

    /** Pulls more input once the buffered frames are used up. */
    method IsInputAvailable() returns (available: bool)
      requires Valid()
      modifies this`inputCursor, this`numValidInputFrames, this`inputCallCount
      modifies source`output, source`frameIndex, source`lastCallCount, source`lastFrameCount
      ensures Valid() && Ahead() == old(Ahead())
      ensures available <==> Ahead() != []
      ensures if old(inputCursor) < old(numValidInputFrames)
              then inputCursor == old(inputCursor) && source.frameIndex == old(source.frameIndex)
              else && inputCursor == 0 && inputCallCount == old(inputCallCount) + 1
                   && numValidInputFrames == Min(FRAMES_PER_BUFFER, |old(source.Remaining())|)
      ensures available ==> inputCursor < numValidInputFrames
    {
      if inputCursor >= numValidInputFrames {
        ghost var before := source.Remaining();
        inputCallCount := inputCallCount + 1;
        numValidInputFrames := source.PullData(inputCallCount, FRAMES_PER_BUFFER);
        inputCursor := 0;
        assert before == before[..numValidInputFrames] + before[numValidInputFrames..];
      }
      available := inputCursor < numValidInputFrames;
    }

    /** Only called when input is available. */
    method GetNextInputFrame() returns (frame: Frame<T>)
      requires Valid() && inputCursor < numValidInputFrames
      modifies this`inputCursor
      ensures Valid() && |frame| == resampler.filter.channelCount
      ensures [frame] + Ahead() == old(Ahead())
    {
      frame := source.output[inputCursor];
      inputCursor := inputCursor + 1;
      assert [frame] + Unread() == old(Unread());
    }

    /** Feeds the resampler one frame, if there is one. */
    method Feed() returns (fed: bool)
      requires Valid() && resampler.IsWriteNeeded()
      modifies this`inputCursor, this`numValidInputFrames, this`inputCallCount
      modifies source`output, source`frameIndex, source`lastCallCount, source`lastFrameCount
      modifies resampler, resampler.buffer
      ensures Valid() && Stream() == old(Stream())
      ensures resampler.readCount == old(resampler.readCount)
      ensures fed ==> resampler.integerPhase < old(resampler.integerPhase)
      ensures !fed ==> Drained()
    {
      fed := IsInputAvailable();
      if fed {
        var frame := GetNextInputFrame();
        resampler.WriteNextFrame(frame);
      }
    }

    /** Produces one output frame, a function of the whole stream. */
    method Produce() returns (frame: Frame<T>)
      requires Valid() && !resampler.IsWriteNeeded()
      modifies resampler, resampler.singleFrame
      ensures Valid() && Stream() == old(Stream()) && Ahead() == old(Ahead())
      ensures resampler.readCount == old(resampler.readCount) + 1
      ensures frame == resampler.filter.Output(Stream(), old(resampler.readCount))
    {
      frame := resampler.ReadNextFrame();
      OutputStable(resampler.filter, resampler.written, Ahead(), old(resampler.readCount));
    }

    method OnProcess(numFrames: int) returns (frames: seq<Frame<T>>)
      requires Valid() && 0 <= numFrames
      modifies this`inputCursor, this`numValidInputFrames, this`inputCallCount
      modifies source`output, source`frameIndex, source`lastCallCount, source`lastFrameCount
      modifies resampler, resampler.buffer, resampler.singleFrame
      ensures Valid() && Stream() == old(Stream())
      ensures |frames| <= numFrames
      ensures resampler.readCount == old(resampler.readCount) + |frames|
      ensures frames == Outputs(resampler.filter, Stream(), old(resampler.readCount), resampler.readCount)
      ensures |frames| < numFrames ==> Drained()
      ensures resampler.readCount <= OutputCount(resampler.filter, |Stream()|)
      ensures Drained() ==> resampler.readCount == OutputCount(resampler.filter, |Stream()|)
    {
      frames := [];
      var framesLeft := numFrames;
      while framesLeft > 0
        invariant Valid() && Stream() == old(Stream())
        invariant 0 <= framesLeft && |frames| == numFrames - framesLeft
        invariant resampler.readCount == old(resampler.readCount) + |frames|
        invariant frames == Outputs(resampler.filter, Stream(), old(resampler.readCount), resampler.readCount)
        decreases framesLeft, resampler.integerPhase
      {
        if resampler.IsWriteNeeded() {
          var fed := Feed();
          if !fed {
            break;
          }
        } else {
          var frame := Produce();
          frames := frames + [frame];
          framesLeft := framesLeft - 1;
        }
      }
      CountBound();
    }

    lemma CountBound()
      requires Valid()
      ensures resampler.readCount <= OutputCount(resampler.filter, |Stream()|)
      ensures Drained() ==> resampler.readCount == OutputCount(resampler.filter, |Stream()|)
    {
      NoDrift();
      var f, w, n := resampler.filter, |resampler.written|, |Stream()|;
      DivMod.MulMonotone(w, n, f.denominator);
      DivMod.CeilDivMonotone(w * f.denominator, n * f.denominator, f.numerator);
    }

    /** The outputs that can still be made from the input known so far. */
    ghost function Coming(): (y: seq<Frame<T>>)
      requires Valid()
      reads this, resampler, resampler.buffer, source
      ensures Frames(y, resampler.filter.channelCount)
    {
      CountBound();
      Outputs(resampler.filter, Stream(), resampler.readCount, OutputCount(resampler.filter, |Stream()|))
    }

    /** The node runs once per call count; it pulls its own input. */
    method PullNode(numFrames: int, callCount: int) returns (frameCount: int)
      requires Valid() && numFrames <= FRAMES_PER_BUFFER
      modifies this
      modifies source`output, source`frameIndex, source`lastCallCount, source`lastFrameCount
      modifies resampler, resampler.buffer, resampler.singleFrame
      ensures Valid() && Stream() == old(Stream())
      ensures lastCallCount == if old(lastCallCount) < callCount then callCount else old(lastCallCount)
      ensures frameCount == lastFrameCount
      ensures if old(lastCallCount) < callCount && 0 < numFrames then
                && frameCount == Min(numFrames, |old(Coming())|)
                && output[..frameCount] + Coming() == old(Coming())
                && (frameCount < numFrames ==> Drained())
              else
                && frameCount == (if old(lastCallCount) < callCount then numFrames else old(lastFrameCount))
                && output == old(output) && Coming() == old(Coming())
    {
      frameCount := numFrames;
      if callCount > lastCallCount {
        lastCallCount := callCount;
        if frameCount > 0 {
          var frames := OnProcess(frameCount);
          OutputsConcat(resampler.filter, Stream(), old(resampler.readCount), resampler.readCount,
                        OutputCount(resampler.filter, |Stream()|));
          frameCount := |frames|;
          output := frames + output[frameCount..];
        }
        lastFrameCount := frameCount;
      } else {
        frameCount := lastFrameCount;
      }
    }
  }
}
