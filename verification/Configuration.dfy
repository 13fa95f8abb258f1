/** Choosing the chain of nodes for the rates of two streams, and what a chain so chosen delivers
    (DataConversionFlowGraph::configure). */
module Configuration {
  import opened Basics
  import opened Fir
  import opened Blocks
  import opened Coefficients
  import opened IntegerRatio
  import MultiChannelResampler
  import opened ResamplerBuilder
  import opened SampleRateConverter
  import opened DataConversion
  import DivMod

  /** The chain has a converter exactly when the rates differ, and it is one for these rates. */
  ghost predicate ChainFor(input: Upstream<real>, k: Kernel, inputRate: int, outputRate: int) {
    match input
    case Direct(_) => inputRate == outputRate
    case Converted(c) => inputRate != outputRate && BuiltFor(c.resampler.filter, k, inputRate, outputRate)
  }

  /** Chains a source, a converter if the rates differ, and a sink in front of a block writer; or
      gives nothing when `Make` does. */
  method Configure(k: Kernel, channelCount: int, inputRate: int, outputRate: int, quality: Quality,
                   processor: BlockSink, encode: real -> seq<Byte>)
      returns (result: Option<DataConversionFlowGraph<real>>)
    requires 1 <= channelCount && 1 <= inputRate && 1 <= outputRate
    requires inputRate != outputRate && !quality.Fastest? ==>
               Normalizable(k, inputRate, outputRate, outputRate, NumTaps(quality))
    requires processor.Valid() && processor.blocks == []
    requires forall i: nat :: processor.answer(i) == processor.size
    ensures result.None? ==> inputRate != outputRate && TooLarge(inputRate, outputRate, NumTaps(quality))
    ensures result.Some? ==>
              var graph := result.value;
              && fresh(graph) && fresh(graph.GraphRepr()) && fresh(graph.WriterRepr() - {processor})
              && graph.Valid() && graph.fed == [] && graph.sink.input.ChannelCount() == channelCount
              && graph.blockWriter.processor == processor && graph.encode == encode
              && ChainFor(graph.sink.input, k, inputRate, outputRate)
  {
    hide ChainFor, Upstream.Valid, Upstream.Idle, Upstream.HasRead, Upstream.LastCallCount;
    hide DataConversionFlowGraph.Valid, Normalizable, TooLarge;
    var input := Chain(k, channelCount, inputRate, outputRate, quality);
    if input.None? {
      return None;
    }
    var graph := new DataConversionFlowGraph(input.value, processor, encode);
    result := Some(graph);
  }

  /** The source and, if the rates differ, the converter. */
  method Chain(k: Kernel, channelCount: int, inputRate: int, outputRate: int, quality: Quality)
      returns (input: Option<Upstream<real>>)
    requires 1 <= channelCount && 1 <= inputRate && 1 <= outputRate
    requires inputRate != outputRate && !quality.Fastest? ==>
               Normalizable(k, inputRate, outputRate, outputRate, NumTaps(quality))
    ensures input.None? ==> inputRate != outputRate && TooLarge(inputRate, outputRate, NumTaps(quality))
    ensures input.Some? ==>
              && fresh(input.value.Repr()) && input.value.Valid() && input.value.ChannelCount() == channelCount
              && input.value.LastCallCount() == INITIAL_CALL_COUNT
              && input.value.Idle() && input.value.HasRead([])
              && ChainFor(input.value, k, inputRate, outputRate)
  {
    hide BuiltFor, Normalizable, TooLarge, MultiChannelResampler.MultiChannelResampler.Shape,
         MultiChannelResampler.MultiChannelResampler.Holds, MultiChannelResampler.MultiChannelResampler.InStep;
    var source := new SourceFloat(channelCount, 0.0);
    if inputRate == outputRate {
      return Some(Direct(source));
    }
    var made := Make(k, channelCount, inputRate, outputRate, quality);
    if made.None? {
      return None;
    }
    var converter := new SampleRateConverter(made.value, source);
    NothingToConvert(converter);
    input := Some(Converted(converter));
  }

  lemma NothingToConvert<T>(converter: SampleRateConverter<T>)
    requires converter.Valid() && converter.Ahead() == []
    requires converter.resampler.written == [] && converter.resampler.readCount == 0
    ensures converter.Drained() && converter.Coming() == [] && converter.Stream() == []
  {
    var f := converter.resampler.filter;
    DivMod.CeilDivUnique(0, f.numerator, 0);
  }

  /** A filter built for two rates yields the frames these rates ask for, rounded up. */
  lemma CountInRates(f: Filter<real>, k: Kernel, inputRate: int, outputRate: int, n: nat)
    requires 1 <= inputRate && BuiltFor(f, k, inputRate, outputRate)
    ensures OutputCount(f, n) == DivMod.CeilDiv(n * outputRate, inputRate)
  {
    var g :| ScaledPair(g, inputRate, outputRate, f.numerator, f.denominator);
    var q := OutputCount(f, n);
    ScaleBounds(g, n, f.numerator, f.denominator, q);
    DivMod.CeilDivUnique(n * outputRate, inputRate, q);
  }

  lemma ScaleBounds(g: int, n: int, num: int, den: int, q: int)
    requires 0 < g && (q - 1) * num < n * den <= q * num
    ensures (q - 1) * (g * num) < n * (g * den) <= q * (g * num)
  {
    DivMod.MulMonotone(n * den, q * num, g);
    DivMod.MulMonotone((q - 1) * num + 1, n * den, g);
    DivMod.MulDistributes((q - 1) * num, 1, g);
    assert n * (g * den) == n * den * g && q * (g * num) == q * num * g;
    assert (q - 1) * (g * num) == (q - 1) * num * g;
  }

  /** After any series of writes to a configured graph: the blocks the app got and the bytes still
      pending encode, for `n` frames written, exactly `ceil(n * outputRate / inputRate)` frames. */
  lemma Delivered(graph: DataConversionFlowGraph<real>, k: Kernel, inputRate: int, outputRate: int)
    requires 1 <= inputRate && graph.Valid() && ChainFor(graph.sink.input, k, inputRate, outputRate)
    ensures Concat(graph.blockWriter.processor.blocks) + graph.blockWriter.Pending()
         == Encode(graph.encode, graph.sink.input.Expected(graph.fed))
    ensures |graph.sink.input.Expected(graph.fed)| == DivMod.CeilDiv(|graph.fed| * outputRate, inputRate)
  {
    hide DataConversionFlowGraph.Valid, Encode, Concat, BuiltFor;
    graph.Conservation();
    match graph.sink.input
    case Direct(_) => DivMod.CeilDivUnique(|graph.fed| * outputRate, inputRate, |graph.fed|);
    case Converted(c) => CountInRates(c.resampler.filter, k, inputRate, outputRate, |graph.fed|);
  }
}
