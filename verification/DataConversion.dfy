/** Pushing data through the pull graph: source, optional rate converter, sink and block writer
    (src/common/DataConversionFlowGraph.cpp, src/flowgraph/SinkFloat.cpp). */
module DataConversion {
  import opened Basics
  import opened Fir
  import opened SampleRateConverter
  import opened Blocks
  import opened FixedBlockWriter
  import DivMod

  /** The node the sink is connected to: `configure` puts a converter in the chain only when the
      rates differ. */
  datatype Upstream<!T> = Direct(source: SourceFloat<T>) | Converted(converter: SampleRateConverter<T>)
  {
    ghost function Repr(): set<object> {
      match this
      case Direct(source) => {source}
      case Converted(c) => {c, c.resampler, c.resampler.buffer, c.resampler.singleFrame, c.source}
    }

    ghost predicate Valid()
      reads Repr()
    {
      match this
      case Direct(source) => source.Valid()
      case Converted(converter) => converter.Valid()
    }

    function ChannelCount(): int {
      match this
      case Direct(source) => source.channelCount
      case Converted(converter) => converter.source.channelCount
    }

    ghost function LastCallCount(): int
      reads Repr()
    {
      match this
      case Direct(source) => source.lastCallCount
      case Converted(converter) => converter.lastCallCount
    }

    /** The output buffer the sink reads. */
    function Buffer(): seq<Frame<T>>
      reads match this case Direct(source) => {source as object} case Converted(c) => {c as object}
    {
      match this
      case Direct(source) => source.output
      case Converted(converter) => converter.output
    }

    /** The frames the graph can still deliver. */
    ghost function Coming(): seq<Frame<T>>
      requires Valid()
      reads Repr()
    {
      match this
      case Direct(source) => source.Remaining()
      case Converted(converter) => converter.Coming()
    }

    /** No frame of the input is left behind in the graph. */
    ghost predicate Idle()
      requires Valid()
      reads Repr()
    {
      Coming() == [] && (Converted? ==> converter.Drained())
    }

    /** All the frames that the input `x` yields. */
    ghost function Expected(x: seq<Frame<T>>): seq<Frame<T>>
      requires Frames(x, ChannelCount())
      requires Converted? ==>
                 var f := converter.resampler.filter; f.Valid() && f.channelCount == ChannelCount()
    {
      match this
      case Direct(_) => x
      case Converted(c) =>
        OutputCountSign(c.resampler.filter, |x|);
        Outputs(c.resampler.filter, x, 0, OutputCount(c.resampler.filter, |x|))
    }

    lemma NothingExpected()
      requires Valid()
      ensures Expected([]) == []
    {
    }

    /** What `x`, all the input so far, still makes the graph hold: nothing for a plain source,
        the stream itself for a converter. */
    ghost predicate HasRead(x: seq<Frame<T>>)
      requires Valid()
      reads Repr()
    {
      Frames(x, ChannelCount()) && (Converted? ==> converter.Stream() == x)
    }

    /** Puts new input at the head of the graph; what is now to come completes what the earlier
        input `x` had yielded. */
    method SetData(data: seq<Frame<T>>, ghost x: seq<Frame<T>>)
      requires Valid() && Idle() && HasRead(x) && Frames(data, ChannelCount())
      modifies match this case Direct(source) => {source as object} case Converted(c) => {c.source as object}
      ensures Valid() && LastCallCount() == old(LastCallCount())
      ensures HasRead(x + data)
      ensures Expected(x) + Coming() == Expected(x + data)
    {
      match this
      case Direct(source) =>
        source.SetData(data);
      case Converted(c) =>
        c.CountBound();
        assert c.Unread() == [];
        c.source.SetData(data);
        assert c.Unread() == [];
        assert c.Stream() == x + data;
        c.CountBound();
        OutputCountSign(c.resampler.filter, |x|);
        OutputsStable(c.resampler.filter, x, data, 0, c.resampler.readCount);
        OutputsConcat(c.resampler.filter, x + data, 0, c.resampler.readCount,
                      OutputCount(c.resampler.filter, |x + data|));
    }

    /** A pull through the output port asks for no more than fits its buffer. */
    method PullData(callCount: int, numFrames: int, ghost x: seq<Frame<T>>) returns (frameCount: int)
      requires Valid() && HasRead(x) && 0 < numFrames && LastCallCount() < callCount
      modifies Repr()
      ensures Valid() && LastCallCount() == callCount
      ensures frameCount == Min(Min(FRAMES_PER_BUFFER, numFrames), |old(Coming())|)
      ensures frameCount <= |Buffer()| && Buffer()[..frameCount] + Coming() == old(Coming())
      ensures HasRead(x) && (frameCount == 0 ==> Idle())
    {
      match this
      case Direct(source) =>
        ghost var before := source.Remaining();
        frameCount := source.PullData(callCount, numFrames);
        assert before == before[..frameCount] + before[frameCount..];
      case Converted(converter) =>
        frameCount := converter.PullNode(Min(FRAMES_PER_BUFFER, numFrames), callCount);
    }
  }

  /** A sink node. Reading from it runs the graph. */
  class SinkFloat<T> {
    const input: Upstream<T>
    var lastCallCount: int
    var lastFrameCount: int

    ghost predicate Valid()
      reads this, input.Repr()
    {
      this !in input.Repr() && input.Valid() && input.LastCallCount() <= lastCallCount
    }

    constructor (input: Upstream<T>)
      requires input.Valid() && input.LastCallCount() == INITIAL_CALL_COUNT
      ensures Valid() && this.input == input
    {
      this.input := input;
      lastCallCount, lastFrameCount := INITIAL_CALL_COUNT, 0;
    }

    /** Runs the graph under the next call count. */
    method PullData(numFrames: int, ghost x: seq<Frame<T>>) returns (frameCount: int)
      requires Valid() && input.Valid() && input.HasRead(x) && 0 < numFrames
      modifies this, input.Repr()
      ensures Valid() && input.Valid() && input.HasRead(x)
      ensures lastCallCount == old(lastCallCount) + 1 && lastFrameCount == frameCount
      ensures 0 <= frameCount <= |input.Buffer()|
      ensures frameCount == Min(Min(FRAMES_PER_BUFFER, numFrames), |old(input.Coming())|)
      ensures input.Buffer()[..frameCount] + input.Coming() == old(input.Coming())
      ensures frameCount == 0 ==> input.Idle()
    {
      lastCallCount := lastCallCount + 1;
      frameCount := input.PullData(lastCallCount, numFrames, x);
      lastFrameCount := frameCount;
    }

    method Read(numFrames: int, ghost x: seq<Frame<T>>) returns (frames: seq<Frame<T>>)
      requires Valid() && input.Valid() && input.HasRead(x)
      modifies this, input.Repr()
      ensures Valid() && input.Valid() && input.HasRead(x)
      ensures |frames| == Min(if numFrames < 0 then 0 else numFrames, |old(input.Coming())|)
      ensures frames + input.Coming() == old(input.Coming())
      ensures |frames| < numFrames ==> input.Idle()
    {
      hide Valid, Upstream.Valid, Upstream.Coming, Upstream.HasRead, Upstream.Idle, Upstream.Buffer;
      frames := [];
      var framesLeft := numFrames;
      while framesLeft > 0
        invariant Valid() && input.Valid() && input.HasRead(x)
        invariant framesLeft == numFrames - |frames| && (0 <= framesLeft || frames == [])
        invariant frames + input.Coming() == old(input.Coming())
      {
        var framesPulled := PullData(framesLeft, x);
        if framesPulled <= 0 {
          break;
        }
        frames := frames + input.Buffer()[..framesPulled];
        framesLeft := framesLeft - framesPulled;
      }
    }
  }

  // ---------------------------------------------------------------- bytes of frames

  /** The bytes of a list of samples, each converted to the app's format by `encode`. */
  function EncodeFrame<T>(encode: T -> seq<Byte>, frame: Frame<T>): seq<Byte> {
    if |frame| == 0 then [] else EncodeFrame(encode, frame[..|frame| - 1]) + encode(frame[|frame| - 1])
  }

  function Encode<T>(encode: T -> seq<Byte>, frames: seq<Frame<T>>): seq<Byte> {
    if |frames| == 0 then []
    else Encode(encode, frames[..|frames| - 1]) + EncodeFrame(encode, frames[|frames| - 1])
  }

  lemma {:induction false} EncodeConcat<T>(encode: T -> seq<Byte>, a: seq<Frame<T>>, b: seq<Frame<T>>)
    ensures Encode(encode, a + b) == Encode(encode, a) + Encode(encode, b)
  {
    if |b| == 0 {
      assert a + b == a;
    } else {
      var front := b[..|b| - 1];
      EncodeConcat(encode, a, front);
      assert (a + b)[..|a + b| - 1] == a + front && (a + b)[|a + b| - 1] == b[|b| - 1];
    }
  }

  lemma {:induction false} EncodeFrameLength<T>(encode: T -> seq<Byte>, frame: Frame<T>, bytesPerSample: nat)
    requires forall s: T :: |encode(s)| == bytesPerSample
    ensures |EncodeFrame(encode, frame)| == |frame| * bytesPerSample
  {
    if |frame| > 0 {
      EncodeFrameLength(encode, frame[..|frame| - 1], bytesPerSample);
      DivMod.MulDistributes(|frame| - 1, 1, bytesPerSample);
    }
  }

  lemma {:induction false} EncodeLength<T>(encode: T -> seq<Byte>, frames: seq<Frame<T>>, channelCount: nat,
                                  bytesPerSample: nat)
    requires (forall s: T :: |encode(s)| == bytesPerSample) && Frames(frames, channelCount)
    ensures |Encode(encode, frames)| == |frames| * (channelCount * bytesPerSample)
  {
    if |frames| > 0 {
      var bytesPerFrame := channelCount * bytesPerSample;
      EncodeLength(encode, frames[..|frames| - 1], channelCount, bytesPerSample);
      EncodeFrameLength(encode, frames[|frames| - 1], bytesPerSample);
      DivMod.MulDistributes(|frames| - 1, 1, bytesPerFrame);
    }
  }

  /** Frames `a` up to `b` are found in the bytes at `a` times the frame size. */
  lemma EncodeSlice<T>(encode: T -> seq<Byte>, frames: seq<Frame<T>>, channelCount: nat,
                       bytesPerSample: nat, a: nat, b: nat)
    requires (forall s: T :: |encode(s)| == bytesPerSample) && Frames(frames, channelCount)
    requires a <= b <= |frames|
    ensures var bytesPerFrame := channelCount * bytesPerSample;
            && 0 <= a * bytesPerFrame <= b * bytesPerFrame <= |Encode(encode, frames)|
            && Encode(encode, frames)[a * bytesPerFrame..b * bytesPerFrame] == Encode(encode, frames[a..b])
  {
    var bytesPerFrame := channelCount * bytesPerSample;
    assert frames == frames[..b] + frames[b..];
    assert frames[..b] == frames[..a] + frames[a..b];
    EncodeConcat(encode, frames[..b], frames[b..]);
    EncodeConcat(encode, frames[..a], frames[a..b]);
    EncodeLength(encode, frames[..b], channelCount, bytesPerSample);
    EncodeLength(encode, frames[..a], channelCount, bytesPerSample);
    EncodeLength(encode, frames[a..b], channelCount, bytesPerSample);
  }

  lemma {:induction false} EncodeFrameAt<T>(encode: T -> seq<Byte>, frame: Frame<T>, bytesPerSample: nat, c: nat)
    requires (forall s: T :: |encode(s)| == bytesPerSample) && c < |frame|
    ensures 0 <= c * bytesPerSample && c * bytesPerSample + bytesPerSample <= |EncodeFrame(encode, frame)|
    ensures EncodeFrame(encode, frame)[c * bytesPerSample..c * bytesPerSample + bytesPerSample] == encode(frame[c])
  {
    var front := frame[..|frame| - 1];
    EncodeFrameLength(encode, front, bytesPerSample);
    BlockEnd(c, |front|, bytesPerSample);
    if c < |front| {
      EncodeFrameAt(encode, front, bytesPerSample, c);
    }
  }

  /** Sample `c` of frame `i` lies at its own bytes: frame after frame, channel after channel. */
  lemma EncodeSampleAt<T>(encode: T -> seq<Byte>, frames: seq<Frame<T>>, channelCount: nat,
                          bytesPerSample: nat, i: nat, c: nat)
    requires (forall s: T :: |encode(s)| == bytesPerSample) && Frames(frames, channelCount)
    requires i < |frames| && c < channelCount
    ensures var first := (i * channelCount + c) * bytesPerSample;
            && 0 <= first && first + bytesPerSample <= |Encode(encode, frames)|
            && Encode(encode, frames)[first..first + bytesPerSample] == encode(frames[i][c])
  {
    hide Encode, EncodeFrame;
    var size := channelCount * bytesPerSample;
    EncodeFrameSlice(encode, frames, channelCount, bytesPerSample, i);
    EncodeFrameAt(encode, frames[i], bytesPerSample, c);
    EncodeFrameLength(encode, frames[i], bytesPerSample);
    DivMod.MulDistributes(i * channelCount, c, bytesPerSample);
    DivMod.MulAssociative(i, channelCount, bytesPerSample);
    SliceOfSlice(Encode(encode, frames), i * size, i * size + size, c * bytesPerSample, bytesPerSample);
  }

  lemma EncodeFrameSlice<T>(encode: T -> seq<Byte>, frames: seq<Frame<T>>, channelCount: nat,
                            bytesPerSample: nat, i: nat)
    requires (forall s: T :: |encode(s)| == bytesPerSample) && Frames(frames, channelCount) && i < |frames|
    ensures var size := channelCount * bytesPerSample;
            && 0 <= i * size && i * size + size <= |Encode(encode, frames)|
            && Encode(encode, frames)[i * size..i * size + size] == EncodeFrame(encode, frames[i])
  {
    hide Encode, EncodeFrame, Frames;
    EncodeSlice(encode, frames, channelCount, bytesPerSample, i, i + 1);
    DivMod.MulDistributes(i, 1, channelCount * bytesPerSample);
    assert frames[i..i + 1] == [frames[i]];
    EncodeOne(encode, frames[i]);
  }

  lemma EncodeOne<T>(encode: T -> seq<Byte>, frame: Frame<T>)
    ensures Encode(encode, [frame]) == EncodeFrame(encode, frame)
  {
    assert [frame][..0] == [];
  }

  lemma SliceOfSlice(bytes: seq<Byte>, first: nat, last: nat, offset: nat, n: nat)
    requires first + offset + n <= last <= |bytes|
    ensures bytes[first + offset..first + offset + n] == bytes[first..last][offset..offset + n]
  {
    var a := bytes[first + offset..first + offset + n];
    var b := bytes[first..last][offset..offset + n];
    assert forall j :: 0 <= j < n ==> a[j] == b[j];
  }

  class DataConversionFlowGraph<T> {
    const sink: SinkFloat<T>
    const blockWriter: FixedBlockWriter
    const encode: T -> seq<Byte>
    ghost var fed: seq<Frame<T>>  // every frame written so far

    ghost function WriterRepr(): set<object> {
      {blockWriter, blockWriter.storage, blockWriter.processor}
    }

    ghost function GraphRepr(): set<object> {
      {sink} + sink.input.Repr()
    }

    ghost predicate Separate() {
      WriterRepr() !! GraphRepr() && this !in GraphRepr()
    }

    /** Whole blocks go to a processor that takes them all. */
    ghost predicate WriterSound()
      reads WriterRepr()
    {
      && blockWriter.Valid() && blockWriter.Whole([])
      && forall k: nat :: blockWriter.processor.answer(k) == blockWriter.size
    }

    /** The graph has taken in the frames `x`. */
    ghost predicate GraphSound(x: seq<Frame<T>>)
      reads GraphRepr()
    {
      sink.Valid() && sink.input.Valid() && sink.input.HasRead(x)
    }

    /** The bytes of the frames the graph can still deliver. */
    ghost function BytesComing(): seq<Byte>
      requires sink.input.Valid()
      reads sink.input.Repr()
    {
      Encode(encode, sink.input.Coming())
    }

    /** The bytes of all the frames that `x` yields. */
    ghost function BytesExpected(x: seq<Frame<T>>): seq<Byte>
      requires GraphSound(x)
      reads GraphRepr()
    {
      Encode(encode, sink.input.Expected(x))
    }

    /** What the app got, what waits in the block writer and what the graph can still deliver make
        up all that the input yields, in order. */
    ghost predicate Conserves()
      reads this, WriterRepr(), GraphRepr()
    {
      && Separate() && WriterSound() && GraphSound(fed) && sink.input.Valid()
      && blockWriter.Total() + BytesComing() == BytesExpected(fed)
    }

    /** Between writes nothing is left in the graph. */
    ghost predicate Valid()
      reads this, WriterRepr(), GraphRepr()
    {
      Conserves() && sink.input.Idle()
    }

    constructor (input: Upstream<T>, processor: BlockSink, encode: T -> seq<Byte>)
      requires input.Valid() && input.LastCallCount() == INITIAL_CALL_COUNT
      requires input.Idle() && input.HasRead([])
      requires processor.Valid() && processor.blocks == [] && processor !in input.Repr()
      requires forall k: nat :: processor.answer(k) == processor.size
      ensures Valid() && fed == [] && fresh(sink) && fresh(blockWriter) && fresh(blockWriter.storage)
      ensures sink.input == input && blockWriter.processor == processor && this.encode == encode
    {
      sink := new SinkFloat(input);
      blockWriter := new FixedBlockWriter(processor);
      this.encode := encode;
      fed := [];
      new;
      StartsBalanced();
    }

    /** With nothing written, received or stored, the balance holds. */
    lemma StartsBalanced()
      requires sink.Valid() && sink.input.Valid() && sink.input.Idle() && sink.input.HasRead([]) && fed == []
      requires blockWriter.Valid() && blockWriter.Pending() == [] && blockWriter.processor.blocks == []
      requires forall k: nat :: blockWriter.processor.answer(k) == blockWriter.size
      requires Separate()
      ensures Valid()
    {
      sink.input.NothingExpected();
    }

    /** Writes the frames to the block adapter, which calls the app whenever it has enough data. */
    method Deliver(frames: seq<Frame<T>>)
      requires WriterSound()
      modifies WriterRepr()
      ensures WriterSound()
      ensures blockWriter.Total() == old(blockWriter.Total()) + Encode(encode, frames)
    {
      var bytesRead := blockWriter.Write(Encode(encode, frames));
    }

    /** Reads a small buffer of frames from the end of the graph. */
    method ReadSome(ghost x: seq<Frame<T>>) returns (frames: seq<Frame<T>>)
      requires GraphSound(x)
      modifies GraphRepr()
      ensures GraphSound(x) && sink.input.Valid() && BytesExpected(x) == old(BytesExpected(x))
      ensures Encode(encode, frames) + BytesComing() == old(BytesComing())
      ensures |frames| + |sink.input.Coming()| == |old(sink.input.Coming())|
      ensures frames == [] ==> sink.input.Idle()
    {
      frames := sink.Read(FRAMES_PER_BUFFER, x);
      EncodeConcat(encode, frames, sink.input.Coming());
    }

    /** Moves one small buffer of frames from the sink to the block writer; false when the graph
        is empty. */
    method Transfer() returns (more: bool)
      requires Conserves()
      modifies WriterRepr(), GraphRepr()
      ensures Conserves()
      ensures if more then |sink.input.Coming()| < |old(sink.input.Coming())| else sink.input.Idle()
    {
      hide SinkFloat.Valid, Upstream.Valid, Upstream.Coming, Upstream.Idle, GraphSound, WriterSound;
      hide BytesComing, BytesExpected, FixedBlockWriter.Total;
      var frames := ReadSome(fed);
      more := |frames| > 0;
      if more {
        Deliver(frames);
      } else {
        assert Encode(encode, frames) == [];
      }
    }

    /** Puts the data at the head of the graph. */
    method Feed(data: seq<Frame<T>>, ghost x: seq<Frame<T>>)
      requires GraphSound(x) && sink.input.Idle() && Frames(data, sink.input.ChannelCount())
      modifies GraphRepr()
      ensures GraphSound(x + data) && sink.input.Valid()
      ensures old(BytesExpected(x)) + BytesComing() == BytesExpected(x + data)
      ensures old(BytesComing()) == []
    {
      sink.input.SetData(data, x);
      EncodeConcat(encode, sink.input.Expected(x), sink.input.Coming());
    }

    /** Pushes a buffer of frames through the graph. */
    method Write(input: seq<Frame<T>>) returns (numFrames: int)
      requires Valid() && Frames(input, sink.input.ChannelCount())
      modifies this`fed, WriterRepr(), GraphRepr()
      ensures Valid() && fed == old(fed) + input
      ensures numFrames == |input|
    {
      hide SinkFloat.Valid, Upstream.Valid, Upstream.Coming, Upstream.Idle, GraphSound, WriterSound;
      hide BytesComing, BytesExpected, FixedBlockWriter.Total;
      Feed(input, fed);
      fed := fed + input;
      var more := true;
      while more
        invariant Conserves() && fed == old(fed) + input
        invariant !more ==> sink.input.Idle()
        decreases more, |sink.input.Coming()|
      {
        more := Transfer();
      }
      numFrames := |input|;
    }

    /** After any series of writes: the blocks the app got and the bytes still in the block writer
        are, in order, the bytes of all the frames the input yields. With a rate converter these
        are `ceil(n * denominator / numerator)` frames for `n` frames written. */
    lemma Conservation()
      requires Valid()
      ensures Concat(blockWriter.processor.blocks) + blockWriter.Pending()
           == Encode(encode, sink.input.Expected(fed))
      ensures |blockWriter.Pending()| <= blockWriter.size
      ensures forall block :: block in blockWriter.processor.blocks ==> |block| == blockWriter.size
      ensures |sink.input.Expected(fed)| ==
                match sink.input
                case Direct(_) => |fed|
                case Converted(c) =>
                  DivMod.CeilDiv(|fed| * c.resampler.filter.denominator, c.resampler.filter.numerator)
    {
      blockWriter.BlocksAreTotal();
    }

    lemma ExpectedFrames()
      requires Valid()
      ensures Frames(fed, sink.input.ChannelCount())
      ensures sink.input.Converted? ==>
                var f := sink.input.converter.resampler.filter;
                f.Valid() && f.channelCount == sink.input.ChannelCount()
      ensures Frames(sink.input.Expected(fed), sink.input.ChannelCount())
    {
    }

    /** Callback `k` gets frames `k * framesPerCallback` up to `(k + 1) * framesPerCallback`. */
    lemma CallbackFrames(framesPerCallback: nat, bytesPerSample: nat, k: nat)
      requires Valid() && (forall s: T :: |encode(s)| == bytesPerSample)
      requires 0 < sink.input.ChannelCount()
      requires blockWriter.size == framesPerCallback * (sink.input.ChannelCount() * bytesPerSample)
      requires k < |blockWriter.processor.blocks|
      ensures var frames := sink.input.Expected(fed);
              var first := k * framesPerCallback;
              && first + framesPerCallback <= |frames|
              && blockWriter.processor.blocks[k] == Encode(encode, frames[first..first + framesPerCallback])
    {
      Conservation();
      BlockFrames(encode, blockWriter.processor.blocks, blockWriter.Pending(), sink.input.Expected(fed),
                  sink.input.ChannelCount(), framesPerCallback, bytesPerSample, k);
    }
  }

  /** In callback `k`, sample `c` of frame `i` is that sample of frame `k * framesPerCallback + i` of
      all that the input yields, in the app's format. */
  lemma CallbackSample<T>(graph: DataConversionFlowGraph<T>, framesPerCallback: nat, bytesPerSample: nat,
                          k: nat, i: nat, c: nat)
    requires graph.Valid() && (forall s: T :: |graph.encode(s)| == bytesPerSample)
    requires c < graph.sink.input.ChannelCount() && i < framesPerCallback
    requires graph.blockWriter.size == framesPerCallback * (graph.sink.input.ChannelCount() * bytesPerSample)
    requires k < |graph.blockWriter.processor.blocks|
    ensures var block := graph.blockWriter.processor.blocks[k];
            var frames := graph.sink.input.Expected(graph.fed);
            var first := (i * graph.sink.input.ChannelCount() + c) * bytesPerSample;
            && 0 <= first && first + bytesPerSample <= |block| && k * framesPerCallback + i < |frames|
            && |frames[k * framesPerCallback + i]| == graph.sink.input.ChannelCount()
            && block[first..first + bytesPerSample] == graph.encode(frames[k * framesPerCallback + i][c])
  {
    hide DataConversionFlowGraph.Valid, Upstream.Expected, Filter.Valid, Encode;
    graph.ExpectedFrames();
    graph.CallbackFrames(framesPerCallback, bytesPerSample, k);
    SampleOfBlock(graph.encode, graph.blockWriter.processor.blocks[k], graph.sink.input.Expected(graph.fed),
                  k * framesPerCallback, framesPerCallback, graph.sink.input.ChannelCount(), bytesPerSample, i, c);
  }

  lemma SampleOfBlock<T>(encode: T -> seq<Byte>, block: seq<Byte>, frames: seq<Frame<T>>, first: nat, n: nat,
                         channelCount: nat, bytesPerSample: nat, i: nat, c: nat)
    requires (forall s: T :: |encode(s)| == bytesPerSample) && Frames(frames, channelCount)
    requires i < n && c < channelCount && first + n <= |frames|
    requires block == Encode(encode, frames[first..first + n])
    ensures var start := (i * channelCount + c) * bytesPerSample;
            && 0 <= start && start + bytesPerSample <= |block| && |frames[first + i]| == channelCount
            && block[start..start + bytesPerSample] == encode(frames[first + i][c])
  {
    hide Encode;
    EncodeSampleAt(encode, frames[first..first + n], channelCount, bytesPerSample, i, c);
  }

  lemma BlockFrames<T>(encode: T -> seq<Byte>, blocks: seq<seq<Byte>>, pending: seq<Byte>, frames: seq<Frame<T>>,
                       channelCount: nat, framesPerCallback: nat, bytesPerSample: nat, k: nat)
    requires (forall s: T :: |encode(s)| == bytesPerSample) && k < |blocks|
    requires 0 < channelCount && Frames(frames, channelCount)
    requires Concat(blocks) + pending == Encode(encode, frames)
    requires 0 < framesPerCallback * (channelCount * bytesPerSample)
    requires forall i :: 0 <= i < |blocks| ==> |blocks[i]| == framesPerCallback * (channelCount * bytesPerSample)
    ensures k * framesPerCallback + framesPerCallback <= |frames|
    ensures blocks[k] ==
              Encode(encode, frames[k * framesPerCallback..k * framesPerCallback + framesPerCallback])
  {
    hide Encode, Concat, Frames;
    var bytesPerFrame := channelCount * bytesPerSample;
    var size := framesPerCallback * bytesPerFrame;
    ConcatAt(blocks, size, k);
    EncodeLength(encode, frames, channelCount, bytesPerSample);
    DivMod.UnitsFit(k, framesPerCallback, bytesPerFrame, |frames|);
    EncodeSlice(encode, frames, channelCount, bytesPerSample,
                k * framesPerCallback, k * framesPerCallback + framesPerCallback);
    assert Encode(encode, frames)[k * size..k * size + size] == Concat(blocks)[k * size..k * size + size];
  }
}
