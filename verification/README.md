# Oboe audio data path: a verified model

This project models the audio data path of the Oboe library in Dafny and proves its main properties
for all inputs, all runs and all interleavings.

* **Sample-rate converter** (`IntegerRatio`, `Phase`, `Fir`, `MultiChannelResampler`, `Coefficients`,
  `ResamplerBuilder`, `SampleRateConverter`). The streaming resampler classes keep an integer phase, a
  mirrored circular delay line and a wrapping coefficient cursor. All read paths refine one formula over
  the whole input stream: output `r` is the sum over taps `k` of
  `coefficient[r mod den][k] * x[floor(r * num / den) - k]`. Samples are of an abstract type with
  uninterpreted addition and multiplication, so the unrolled mono and stereo loops are shown to perform the
  same operations in the same order as the generic one. Reals are used for coefficients and gain.
* **Pull graph** (`GraphPaths`, `PullRequests`, `FlowGraph`). Nodes are heap objects that pull from each other under a call
  count. Graphs are arbitrary: shared nodes and cycles are allowed.
* **Block adapters** (`Blocks`, `FixedBlockWriter`, `FixedBlockReader`) regroup a byte stream into blocks of
  one size, against processors that may answer partly, with nothing, or with an error.
* **Push path** (`DataConversion`) composes source, optional rate converter, sink and block writer;
  `Configuration` chooses them for two sample rates.
* **Nodes**: packed 24-bit source and sink (`PackedI24`) and the linear gain ramp (`RampLinear`).
* **Lock-free queue** (`Ring`, `FifoBuffer` for one thread, `FifoProtocol` for the interleaved steps of a
  writer and a reader, `FifoCalls` for what their calls amount to).
* **Handle lifetime** (`HandleLifetime`, `HandleCalls`): any number of threads use, close and open a native stream under a
  mutex and a shared mutex.

`DivMod` and `Basics` hold what they share.

How the model reads the source:

* `writeNextFrame` requires that a write is needed and `readNextFrame` that it is not: this is the protocol
  of `isWriteNeeded()` that the resampler documentation describes
  (src/flowgraph/resampler/README.md:57-69), and that `SampleRateConverter::onProcess` follows.
* A virtual call is a dispatch on a kind tag; a pointer into a port buffer is a sequence or an array.
* `ghost` parameters and fields (whole input streams, call orders, logs) exist only for the proofs.
* Block processors may be asked any number of times but do not answer zero for ever: the read-through loop
  of the block reader makes no progress on a zero answer (src/common/FixedBlockReader.cpp:57-62), and
  neither does the write-through loop of the writer (src/common/FixedBlockWriter.cpp:59-64). A decreasing
  `patience` stands for that.
* The atomic counters of the queue and the stream pointer are taken to be sequentially consistent. The order
  in which `memcpy` moves bytes is left open.
* In `HandleLifetime`, a library call is a pair of steps, entry and return, and is assumed to return. A handle
  counts as closed from the entry of its close on. The version and the workarounds a call finds are
  parameters of the call, and library answers are free choices. A shared lock is not granted while a thread waits for the exclusive one, which is the strictest
  order.

Where the code does not do what its comments say:

* `reduce()` is meant to give the smallest ratio (src/flowgraph/resampler/MultiChannelResampler.cpp:36-37).
  It does so exactly when the rates share no prime factor above its table: `IntegerRatio.CoprimeIff`,
  with `IntegerRatio.NotAlwaysCoprime` as an instance.
* `RampLinear::setTarget` is meant to start at the target when the ramp has not been used
  (src/flowgraph/RampLinear.cpp:35). It does so exactly when nothing of an earlier ramp is left:
  `RampLinear.ImmediateExactlyWhenIdle`, or in terms of the calls made
  `RampLinear.ImmediateExactlyWhenRunOut`, with `RampLinear.NotImmediateAfterReset` as an instance.
* `getFullFramesAvailable()` is meant to calculate the frames to read from the two counters
  (include/oboe/FifoControllerBase.h:46-52). It does so exactly until one 64-bit counter has wrapped around and
  the other has not: `FifoBuffer.FullFramesExactly`, with `FifoBuffer.WrapHidesFrames` as an instance.
* The resampler documentation writes the expected output count as `960 * 48000 * 44100`
  (src/flowgraph/resampler/README.md:42); the code computes `960 * 48000 / 44100`, rounded down or up per
  buffer, which is `Phase.ChunkYield`.

## Model

| member | source | states |
|---|---|---|
| IntegerRatio.TableCovers | src/flowgraph/resampler/IntegerRatio.cpp:22-26 | every number from 2 to 210 has a factor in the prime table, so the table is complete up to 210 |
| IntegerRatio.IntegerRatio.RemoveFactor | src/flowgraph/resampler/IntegerRatio.cpp:35-47 | dividing out one prime keeps the ratio and all common primes above the table, and ends with a pair that the prime no longer divides; it terminates |
| IntegerRatio.IntegerRatio.Reduce | src/flowgraph/resampler/IntegerRatio.cpp:28-50 | for a positive pair: a common factor was taken out of both terms and no number from 2 to 210 divides both, in spite of the early exit; any other pair is left alone |
| IntegerRatio.NothingLeft | src/flowgraph/resampler/IntegerRatio.cpp:30-32 | stopping at the first prime above either term loses no common divisor below 211 |
| IntegerRatio.RatioPreserved | src/flowgraph/resampler/IntegerRatio.cpp:28-50 | the reduced pair is the same ratio, by cross-multiplication |
| IntegerRatio.CoprimeIff | src/flowgraph/resampler/IntegerRatio.cpp:28-50 | the result is in lowest terms if and only if the rates share no prime factor of 211 or more |
| IntegerRatio.CoprimeWhenSmall | src/flowgraph/resampler/IntegerRatio.cpp:28-50 | the result is in lowest terms whenever one of the reduced terms is below 211 |
| IntegerRatio.NotAlwaysCoprime | src/flowgraph/resampler/IntegerRatio.cpp:28-50 | 422/633 is left with the common factor 211, so "the smallest ratio" does not hold of all rates |
| Phase.PhaseAtRead | src/flowgraph/resampler/MultiChannelResampler.h:164-186 | when output r may be read exactly floor(r*num/den) + 1 frames have been written, and the integer phase is the remainder |
| Phase.CountWhenStarved | src/flowgraph/resampler/MultiChannelResampler.h:164-186 | whenever a write is needed after w writes, exactly ceil(w*den/num) outputs have been read |
| Phase.CountBound | src/flowgraph/resampler/MultiChannelResampler.h:164-186 | at any phase, no more outputs have been read than that, and fewer while a read is allowed |
| Phase.ChunkYield | src/flowgraph/resampler/README.md:36-46 | a chunk of n input frames yields n*den/num outputs rounded down or rounded up, whatever was fed before |
| Phase.CursorStep | src/flowgraph/resampler/PolyphaseResampler.cpp:54 | the wrapping coefficient cursor after output r is the start of row (r + 1) mod den |
| Phase.RowPhase | src/flowgraph/resampler/PolyphaseResampler.cpp:32-36 | row r mod den has the fractional phase of output r |
| Fir.DelayLineWrite | src/flowgraph/resampler/MultiChannelResampler.cpp:108-119 | storing a frame twice at the retreated cursor turns a delay line of x into a delay line of x followed by that frame |
| Fir.Mirrored | src/flowgraph/resampler/MultiChannelResampler.cpp:113-118 | the two halves of the buffer are equal, sample by sample |
| Fir.Window | src/flowgraph/resampler/MultiChannelResampler.cpp:108-119 | the numTaps slots from the cursor on lie inside the buffer and are the last numTaps frames, newest first, zero before the start of the stream |
| Fir.OutputStable | src/flowgraph/resampler/PolyphaseResampler.cpp:39-60 | an output does not change when more input arrives |
| MultiChannelResampler.MultiChannelResampler.constructor | src/flowgraph/resampler/MultiChannelResampler.cpp:30-43 | a new resampler is in step and holds silence, with a write needed first |
| MultiChannelResampler.MultiChannelResampler.StoreTwice | src/flowgraph/resampler/MultiChannelResampler.cpp:113-118 | exactly two copies of the frame change in the buffer, one in each half |
| MultiChannelResampler.MultiChannelResampler.WriteFrameGeneric | src/flowgraph/resampler/MultiChannelResampler.cpp:108-119 | the cursor steps back with a wrap, and the buffer becomes the delay line of the stream extended by the frame |
| MultiChannelResampler.MultiChannelResampler.WriteFrameMono | src/flowgraph/resampler/PolyphaseResamplerMono.cpp:29-41 | the mono path leaves the same cursor and the same delay line as the generic write |
| MultiChannelResampler.MultiChannelResampler.WriteFrameStereo | src/flowgraph/resampler/PolyphaseResamplerStereo.cpp:29-44 | the stereo path leaves the same cursor and the same delay line as the generic write |
| MultiChannelResampler.MultiChannelResampler.WriteFrameLinear | src/flowgraph/resampler/LinearResampler.cpp:27-30 | the two stored frames are the last two of the stream, silence before its start |
| MultiChannelResampler.MultiChannelResampler.WriteFrame | src/flowgraph/resampler/MultiChannelResampler.h:209 | every kind of resampler holds the stream extended by the frame, every polyphase one with the same cursor |
| MultiChannelResampler.MultiChannelResampler.WriteNextFrame | src/flowgraph/resampler/MultiChannelResampler.h:173-176 | a write keeps the whole invariant (buffer, cursor and phase in step) and takes the denominator off the phase |
| MultiChannelResampler.MultiChannelResampler.ReadFrameGeneric | src/flowgraph/resampler/PolyphaseResampler.cpp:39-60 | the frame is the convolution of the whole input stream with the current row, added in tap order, although channels accumulate side by side |
| MultiChannelResampler.MultiChannelResampler.ReadFrameMono | src/flowgraph/resampler/PolyphaseResamplerMono.cpp:43-63 | the unrolled mono loop returns the same frame and cursor as the generic path, for uninterpreted sample arithmetic |
| MultiChannelResampler.MultiChannelResampler.ReadFrameStereo | src/flowgraph/resampler/PolyphaseResamplerStereo.cpp:46-79 | the unrolled stereo loop returns the same frame and cursor as the generic path, for uninterpreted sample arithmetic |
| MultiChannelResampler.MultiChannelResampler.ReadFrameLinear | src/flowgraph/resampler/LinearResampler.cpp:32-42 | every channel is interpolated between the last two frames of the stream at the integer phase |
| MultiChannelResampler.MultiChannelResampler.ReadFrame | src/flowgraph/resampler/MultiChannelResampler.h:216 | every kind of resampler returns the closed formula for its next output; the phase is the remainder it interpolates with |
| MultiChannelResampler.MultiChannelResampler.ReadNextFrame | src/flowgraph/resampler/MultiChannelResampler.h:183-186 | on every run, output r is the closed formula over the whole stream: row r mod den against the numTaps frames up to floor(r*num/den); the invariant is kept |
| Coefficients.FillRow | src/flowgraph/resampler/MultiChannelResampler.cpp:144-159 | one row of raw coefficients, tap by tap, and their exact sum; earlier rows unchanged |
| Coefficients.RawMirrored | src/flowgraph/resampler/MultiChannelResampler.cpp:135-159 | with an even sinc function and window, the row for a phase is the row for the opposite phase read backward |
| Coefficients.RawFactors | src/flowgraph/resampler/MultiChannelResampler.cpp:148-155 | where the window is one a coefficient is the sinc function, and where the sinc function is one it is the window |
| Coefficients.TapSpacing | src/flowgraph/resampler/MultiChannelResampler.cpp:141-159 | from tap to tap the sinc function moves on by pi times the cutoff, and the window reaches its edges half the taps from the centre |
| Coefficients.CorrectGain | src/flowgraph/resampler/MultiChannelResampler.cpp:165-169 | the row is scaled by one over its sum and the rows before it are unchanged |
| Coefficients.AdvancePhase | src/flowgraph/resampler/MultiChannelResampler.cpp:160-163 | adding the increment and taking whole samples off gives the fractional phase of the next row exactly |
| Coefficients.GenerateCoefficients | src/flowgraph/resampler/MultiChannelResampler.cpp:128-171 | row i of the table is the normalised row for the fraction of i*inputRate/outputRate, for every row |
| Coefficients.UnitRow | src/flowgraph/resampler/MultiChannelResampler.cpp:165-169 | every normalised row sums to one |
| Coefficients.UnityGain | src/flowgraph/resampler/PolyphaseResampler.cpp:39-60 | once numTaps equal frames are in the delay line, every output of a row that sums to one equals that frame |
| Coefficients.LinearBetween | src/flowgraph/resampler/LinearResampler.cpp:32-42 | a linear output lies between the two frames it interpolates |
| Coefficients.LinearWeights | src/flowgraph/resampler/LinearResampler.cpp:32-42 | output r times the denominator is the frame before its position times the rest of the phase plus the frame at its position times the phase |
| Coefficients.LinearKeepsLines | src/flowgraph/resampler/LinearResampler.cpp:32-42 | a straight line comes out as the same line, read at the exact time of each output, one input frame late |
| ResamplerBuilder.Build | src/flowgraph/resampler/MultiChannelResampler.cpp:81-106 | which resampler is built, from which reduced ratio, and that every coefficient row is the one for its phase; when nothing is built, the table would be too large |
| ResamplerBuilder.Make | src/flowgraph/resampler/MultiChannelResampler.cpp:46-79 | every quality gives a valid resampler for the two rates with 2, 4, 8, 16 or 32 taps, linear exactly for the fastest; nothing only when the table would be too large |
| ResamplerBuilder.RowServesPhase | src/flowgraph/resampler/PolyphaseResampler.cpp:29-36 | the row that counting picks for output r was generated for the fractional phase r*inputRate/outputRate, which is the integer phase over the denominator: cursor and phase stay in lockstep for the original, unreduced rates |
| ResamplerBuilder.BuiltUnityGain | src/flowgraph/resampler/MultiChannelResampler.cpp:143-170 | unity gain at DC for every polyphase resampler that is built for two rates: its outputs equal the constant frame |
| ResamplerBuilder.BuiltKeepsLines | src/flowgraph/resampler/LinearResampler.cpp:32-42 | for a linear resampler built for two rates, output r of a straight line is the line at input time r*inputRate/outputRate - 1 |
| SampleRateConverter.SourceFloat.SetData | src/flowgraph/FlowGraphNode.h:376-380 | the new buffer is what is left to hand on |
| SampleRateConverter.SourceFloat.OnProcess | src/flowgraph/SourceFloat.cpp:29-42 | hands on the next frames, as many as asked for or as are left, and keeps the rest |
| SampleRateConverter.SourceFloat.PullNode | src/flowgraph/FlowGraphNode.cpp:25-45 | runs once per call count and remembers its answer; a repeated call count is answered from memory with nothing changed |
| SampleRateConverter.PositionBound | src/flowgraph/SampleRateConverter.cpp:50-71 | output r is among the first ceil(n*den/num) if and only if its position lies in the first n frames |
| SampleRateConverter.OutputsStable | src/flowgraph/SampleRateConverter.cpp:50-71 | outputs already produced are those of the longer stream, so the cutting into requests does not matter |
| SampleRateConverter.SampleRateConverter.constructor | src/flowgraph/SampleRateConverter.cpp:22-27 | nothing of the source is read yet |
| SampleRateConverter.SampleRateConverter.NoDrift | src/flowgraph/SampleRateConverter.cpp:50-71 | the outputs read never exceed ceil(w*den/num) for w frames written, and equal it whenever input is needed |
| SampleRateConverter.SampleRateConverter.IsInputAvailable | src/flowgraph/SampleRateConverter.cpp:35-43 | asks the source for one buffer, under its next call count, only when the buffered frames are used up; answers whether any input is left and loses none of it |
| SampleRateConverter.SampleRateConverter.GetNextInputFrame | src/flowgraph/SampleRateConverter.cpp:45-48 | takes exactly the next frame of the input |
| SampleRateConverter.SampleRateConverter.Feed | src/flowgraph/SampleRateConverter.cpp:56-62 | moves one frame into the resampler without changing the stream, or finds everything drained; the phase falls, which ends the loop |
| SampleRateConverter.SampleRateConverter.Produce | src/flowgraph/SampleRateConverter.cpp:63-68 | the next output is the closed formula over the whole stream |
| SampleRateConverter.SampleRateConverter.OnProcess | src/flowgraph/SampleRateConverter.cpp:50-71 | the frames are the next outputs of the closed formula over the whole stream; fewer than asked for only when drained, and then exactly ceil(n*den/num) outputs were made for n input frames; terminates |
| SampleRateConverter.SampleRateConverter.CountBound | src/flowgraph/SampleRateConverter.cpp:50-71 | the same count, for the whole stream including what is not read yet |
| SampleRateConverter.SampleRateConverter.PullNode | src/flowgraph/FlowGraphNode.cpp:25-45 | as a node: the output buffer followed by the outputs still to come is what was to come before |
| Blocks.BlockSink.OnProcessFixedBlock | src/common/FixedBlockAdapter.h:28-36 | what a processor received grows by the part of the block that its answer says it took |
| FixedBlockWriter.FixedBlockWriter.constructor | src/common/FixedBlockAdapter.cpp:24-30 | a new adapter stores nothing |
| FixedBlockWriter.FixedBlockWriter.WriteToStorage | src/common/FixedBlockWriter.cpp:27-36 | stores the longest prefix that fits behind what is stored |
| FixedBlockWriter.FixedBlockWriter.FlushIfFull | src/common/FixedBlockWriter.cpp:46-55 | flushes exactly when full; total bytes are kept, and a failure says why |
| FixedBlockWriter.FixedBlockWriter.TopUp | src/common/FixedBlockWriter.cpp:41-56 | with bytes in storage, the new ones go behind them first, and how many fit; nothing is lost or reordered |
| FixedBlockWriter.FixedBlockWriter.WriteThrough | src/common/FixedBlockWriter.cpp:58-64 | whole blocks go straight through while more than one block is left, so something always stays for the next write, and one block alone is not passed on; terminates |
| FixedBlockWriter.FixedBlockWriter.StoreRest | src/common/FixedBlockWriter.cpp:66-70 | what remains always fits the storage |
| FixedBlockWriter.FixedBlockWriter.Write | src/common/FixedBlockWriter.cpp:38-73 | on success all bytes were written, and what the processor took followed by what is stored is all that was ever written, in order; every block has the fixed size; storage is empty afterwards exactly when a storage that held something was filled up and no more; a negative result comes from a failing processor or a storage not taken whole, and nothing but a prefix of the bytes has been taken |
| FixedBlockWriter.FixedBlockWriter.BlocksAreTotal | src/common/FixedBlockWriter.cpp:38-73 | with a processor that takes every block: the blocks joined, then the storage, are the bytes written, and at most one block is stored |
| Blocks.BlockSource.OnProcessFixedBlock | src/common/FixedBlockAdapter.h:28-36 | what a processor produced grows by the bytes of its answer, and by nothing on an error |
| FixedBlockReader.FixedBlockReader.constructor | src/common/FixedBlockReader.cpp:30-35 | a new reader stores nothing |
| FixedBlockReader.FixedBlockReader.ReadFromStorage | src/common/FixedBlockReader.cpp:37-46 | uses up the longest prefix of the storage that was asked for |
| FixedBlockReader.FixedBlockReader.ReadThrough | src/common/FixedBlockReader.cpp:57-62 | a block goes straight to the caller; one that is empty uses up patience |
| FixedBlockReader.FixedBlockReader.Reload | src/common/FixedBlockReader.cpp:63-70 | the storage becomes the next block; on an error nothing changes |
| FixedBlockReader.FixedBlockReader.Turn | src/common/FixedBlockReader.cpp:52-70 | one turn of the loop: storage first, then whole blocks straight through, else a reload; and why the loop goes on or ends |
| FixedBlockReader.FixedBlockReader.Read | src/common/FixedBlockReader.cpp:48-73 | all bytes handed on followed by the storage are the blocks produced, in order; short only after an empty block, negative only after an error, when the bytes already copied are not reported; terminates |
| FixedBlockReader.FixedBlockReader.BlocksNeeded | src/common/FixedBlockReader.cpp:48-73 | with full blocks, exactly ceil(bytes handed on / size) blocks have been requested |
| DataConversion.Upstream.SetData | src/common/DataConversionFlowGraph.cpp:248-249 | new input at the head of the graph: what the earlier input yielded, then what is now to come, is what the longer input yields |
| DataConversion.Upstream.PullData | src/flowgraph/FlowGraphNode.cpp:76-79 | a pull answers with at most one port buffer of what is to come, and loses nothing |
| DataConversion.SinkFloat.PullData | src/flowgraph/FlowGraphNode.cpp:112-114 | a sink pulls under its next call count, so the graph always runs |
| DataConversion.SinkFloat.Read | src/flowgraph/SinkFloat.cpp:28-46 | reads exactly as many frames as asked for or as can still come, in order; terminates |
| DataConversion.DataConversionFlowGraph.constructor | src/common/DataConversionFlowGraph.cpp:186-233 | a chain of source, converter or none, and sink, in front of a new block writer, starts balanced; its parts are new, so it can be written to at once |
| DataConversion.DataConversionFlowGraph.Feed | src/common/DataConversionFlowGraph.cpp:248-249 | the bytes now to come complete what the earlier input yielded |
| DataConversion.DataConversionFlowGraph.Deliver | src/common/DataConversionFlowGraph.cpp:254-257 | the bytes of the frames go behind all bytes before them |
| DataConversion.DataConversionFlowGraph.Transfer | src/common/DataConversionFlowGraph.cpp:250-258 | one turn of the push loop moves frames from graph to writer and keeps the balance |
| DataConversion.DataConversionFlowGraph.Write | src/common/DataConversionFlowGraph.cpp:247-260 | every write terminates, returns its frame count, and leaves nothing behind in the graph: what the app got and what waits in the block writer is all that the input so far yields, in order |
| DataConversion.DataConversionFlowGraph.Conservation | src/common/DataConversionFlowGraph.cpp:247-267 | end to end over any series of writes: callbacks joined, then the pending bytes, encode exactly the outputs of all n frames written, n of them or ceil(n*den/num) with a converter; every callback gets one block of the fixed size |
| DataConversion.DataConversionFlowGraph.CallbackFrames | src/common/DataConversionFlowGraph.cpp:262-267 | callback k gets exactly frames k*f up to (k + 1)*f of the output |
| DataConversion.CallbackSample | src/common/DataConversionFlowGraph.cpp:262-267 | in callback k, sample c of frame i is that sample of output frame k*f + i, in the format of the app |
| Configuration.Configure | src/common/DataConversionFlowGraph.cpp:185-233 | the chain has a converter exactly when the rates differ, and it is one for these rates; the graph is new, balanced and ready for writes |
| Configuration.CountInRates | src/flowgraph/SampleRateConverter.cpp:50-71 | for n frames a filter built for two rates yields exactly ceil(n*outputRate/inputRate) frames, although it counts in the reduced ratio |
| Configuration.Delivered | src/common/DataConversionFlowGraph.cpp:247-267 | end to end for a configured graph: callbacks joined, then the pending bytes, encode exactly ceil(n*outputRate/inputRate) frames for n frames written |
| DataConversion.EncodeSlice | src/common/DataConversionFlowGraph.cpp:254-257 | frames a up to b are found in the bytes at a times the frame size |
| DataConversion.EncodeFrameAt | src/flowgraph/SinkFloat.cpp:39-43 | sample c of a frame lies at its own bytes, so channels keep their order |
| DataConversion.EncodeSampleAt | src/flowgraph/SinkFloat.cpp:39-43 | sample c of frame i lies at (i*channelCount + c) times the sample size |
| FlowGraph.FlowGraphNode.PullData | src/flowgraph/FlowGraphNode.cpp:25-45 | on any graph, cycles included: terminates by the number of nodes not yet run; the nodes run are upstream, each once, their inputs all run; each was asked for what a port of a node waiting for it offered, cut to one buffer, processed exactly what its own ports left of that, and remembers the answer; without cycles inputs run before the node |
| FlowGraph.FlowGraphNode.PullInputs | src/flowgraph/FlowGraphNode.cpp:30-36 | pulls every port when pulls are automatic, each for what the ports before it left of the request; what the last one leaves is the answer |
| FlowGraph.FlowGraphNode.PullPort | src/flowgraph/FlowGraphNode.cpp:76-99 | asks the node on the port for the frames offered, cut to one buffer, and answers with what that node remembers; an unconnected port answers for itself |
| FlowGraph.FlowGraphNode.Process | src/flowgraph/FlowGraphNode.cpp:37-40 | processes exactly the frames offered, once, if there are any, and remembers the answer |
| FlowGraph.FlowGraphNode.PullSink | src/flowgraph/FlowGraphNode.cpp:112-114 | whatever the call counts: exactly the nodes run that the sink reaches through nodes not yet run under its next call count, each once, all others unchanged; when no node upstream is ahead of the sink these are all nodes upstream, and the sink leads again afterwards; without cycles every node runs after what it reads from; on a chain the source is asked for the request, cut to one buffer, processes exactly that, and the sink answers what the chain makes of it |
| GraphPaths.PullsAllStale | src/flowgraph/FlowGraphNode.cpp:25-45 | the nodes run are exactly those reached through nodes that have not run under the call count, on any graph |
| GraphPaths.NothingCutOff | src/flowgraph/FlowGraphNode.cpp:112-114 | from a sink that no upstream node is ahead of, these are all the nodes upstream |
| GraphPaths.LogsKeepRising | src/flowgraph/FlowGraphNode.cpp:28-29 | whatever the graph, no node runs twice under one call count |
| GraphPaths.InputsOfNode | src/flowgraph/FlowGraphNode.cpp:30-38 | without cycles a node finishes after everything it reads from |
| PullRequests.FedByNode | src/flowgraph/FlowGraphNode.cpp:32-35 | a connected port asks its node for what the ports before it left, and what the ports offered before stays true |
| PullRequests.NodeFed | src/flowgraph/FlowGraphNode.cpp:37-40 | a node that processes what all its ports left explains every request made for it |
| PullRequests.ChainRunsBackward | src/flowgraph/FlowGraphNode.cpp:25-45 | a chain runs from its source to the sink |
| PullRequests.ChainAsked | src/flowgraph/FlowGraphNode.cpp:76-79 | every node of a chain behind the sink is asked for the request of the sink, cut to one buffer |
| PullRequests.ChainAnswers | src/flowgraph/FlowGraphNode.cpp:25-45 | the source of a chain processes exactly that many frames, and the sink answers what the nodes, one after the other, make of them |
| FlowGraph.ChainsServed | src/flowgraph/FlowGraphNode.cpp:112-114 | the same for any chain upstream of a leading sink |
| FlowGraph.FlowGraphNode.PullReset | src/flowgraph/FlowGraphNode.cpp:47-57 | on any graph, cycles included: terminates by the number of nodes without a flag; resets exactly the nodes reachable upstream without meeting a flag, and leaves every flag as it was |
| FlowGraph.FlowGraphNode.ResetPorts | src/flowgraph/FlowGraphNode.cpp:50-53 | resets everything reachable through the input ports, pulled automatically or not |
| FlowGraph.FlowGraphNode.Reset | src/flowgraph/FlowGraphNode.cpp:59-62 | the node forgets its call count and frame count, and no other node changes |
| GraphPaths.AvoidStart | src/flowgraph/FlowGraphNode.cpp:47-57 | a path that comes back to its start can be cut: flags that block only the current path hide no node |
| GraphPaths.ReachesSplit | src/flowgraph/FlowGraphNode.cpp:47-57 | what a node reaches is itself and what its inputs reach without coming back to it |
| FlowGraph.ResetLeads | src/flowgraph/FlowGraphNode.cpp:47-62 | after a reset from the sink the next pull runs everything upstream again, whatever the counts were |
| PackedI24.DecodeIsExact | src/flowgraph/SourceI24.cpp:49-61 | three bytes, sign included, unpack to an exact multiple of 2^-23 that quantises back to their signed value |
| PackedI24.SampleRoundTrip | src/flowgraph/SinkI24.cpp:53-61 | a sample unpacked and packed again is the same three bytes |
| PackedI24.PackedSample | src/flowgraph/SinkI24.cpp:53-61 | packing clips to the 24-bit range and rounds toward zero by less than one step, in both signs |
| PackedI24.RoundTrip | src/flowgraph/SinkI24.cpp:53-61 | any number of samples survives unpacking and packing byte for byte |
| PackedI24.SourceI24.SetData | src/flowgraph/FlowGraphNode.h:376-380 | the new buffer is what is left to hand on |
| PackedI24.SourceI24.OnProcess | src/flowgraph/SourceI24.cpp:35-65 | the output buffer holds the unpacked next frames; the bytes after them are left |
| PackedI24.SourceI24.UnpackSamples | src/flowgraph/SourceI24.cpp:50-61 | the samples at the moving byte pointer are unpacked in order |
| PackedI24.SourceI24.PullData | src/flowgraph/FlowGraphNode.cpp:25-45 | a pull hands on at most one buffer of the frames left |
| PackedI24.SinkI24.PackSamples | src/flowgraph/SinkI24.cpp:55-62 | the bytes written are the packed samples, and nothing around them changes |
| PackedI24.SinkI24.PullData | src/flowgraph/FlowGraphNode.cpp:112-114 | a pull under the next call count always reaches the source |
| PackedI24.SinkI24.PullInto | src/flowgraph/SinkI24.cpp:38-64 | one pull puts exactly the next bytes of the source behind the earlier ones |
| PackedI24.SinkI24.Read | src/flowgraph/SinkI24.cpp:33-66 | source feeding sink reproduces every input byte for any channel count, length and cutting into reads, and touches no byte beyond |
| RampLinear.GainsSplit | src/flowgraph/RampLinear.cpp:45-81 | the gains of a ramp do not depend on how the frames are cut into blocks |
| RampLinear.AmplifyIsLinear | src/flowgraph/RampLinear.cpp:68 | gain one passes a sample, gain zero silences it, and the output is linear in the sample and in the gain |
| RampLinear.OneFrame | src/flowgraph/RampLinear.cpp:64-71 | from one frame to the next the gain changes by the slope until the ramp ends, then not at all |
| RampLinear.Between | src/flowgraph/RampLinear.cpp:41-43 | the gain stays between the current level and the end level |
| RampLinear.NewRamp | src/flowgraph/RampLinear.cpp:50-57 | a new ramp starts at the current interpolated level, has equal steps, and is at its target exactly from its length in frames on, unless it is there already |
| RampLinear.BlocksDoNotMatter | src/flowgraph/RampLinear.cpp:45-81 | any series of blocks without retargeting gives the gains of one long block |
| RampLinear.NoPops | src/flowgraph/RampLinear.cpp:29-81 | over every run of retargets, length changes and blocks: gains stay in the range of the levels and no step exceeds the steepest slope possible, across blocks and retargets |
| RampLinear.ImmediateExactlyWhenIdle | src/flowgraph/RampLinear.cpp:33-39 | a target set while the ramp counts as unused takes effect at once if and only if nothing of an earlier ramp is left (remaining times slope is zero) |
| RampLinear.ImmediateExactlyWhenRunOut | src/flowgraph/RampLinear.cpp:33-39 | the same for a history of calls: after a ramp of a given length in any blocks and a reset, the next target takes effect at once if and only if the ramp had no way to go, had not begun, or ran its length |
| RampLinear.StateAfterBlocks | src/flowgraph/RampLinear.cpp:45-81 | blocks leave the ramp where one block of the total length leaves it |
| RampLinear.NotImmediateAfterReset | src/flowgraph/RampLinear.cpp:35-38 | a reset in the middle of a ramp: the level meant to start at 1/2 starts below zero |
| RampLinear.RampLinear.constructor | src/flowgraph/RampLinear.cpp:24-27 | the initial levels, target and length |
| RampLinear.RampLinear.SetTarget | src/flowgraph/RampLinear.cpp:33-39 | the state after a new target, forced at once only when unused |
| RampLinear.RampLinear.SetLengthInFrames | src/flowgraph/RampLinear.cpp:29-31 | a new length does not affect a ramp in progress |
| RampLinear.RampLinear.OnProcess | src/flowgraph/RampLinear.cpp:45-81 | each output sample is the input sample times the gain of its frame in the ramp that this block starts or continues, for every channel |
| RampLinear.RampLinear.StartRamp | src/flowgraph/RampLinear.cpp:50-57 | a new target, and only that, starts a ramp from the interpolated level |
| RampLinear.RampLinear.RampFrames | src/flowgraph/RampLinear.cpp:61-72 | the frames of the ramp get its gains, one per frame |
| RampLinear.RampLinear.HoldLevel | src/flowgraph/RampLinear.cpp:74-78 | the frames after the ramp continue its gains at the end level |
| RampLinear.RampLinear.Reset | src/flowgraph/FlowGraphNode.cpp:59-62 | a reset makes the ramp count as unused but leaves it where it is |
| RampLinear.RampLinear.PullData | src/flowgraph/FlowGraphNode.cpp:25-45 | a pull is one step of the run, and the output frames carry the gains of that step |
| FifoBuffer.FullFramesExactly | src/fifo/FifoControllerBase.cpp:32-44 | with 64-bit counters the number of full frames is right if and only if both counters have wrapped equally often or the queue is empty |
| FifoBuffer.WrapHidesFrames | src/fifo/FifoControllerBase.cpp:35-37 | 2^64 frames written and 2^64 - 1 read: one frame is in the queue and none is reported |
| FifoBuffer.FifoController.GetFullFramesAvailable | src/fifo/FifoControllerBase.cpp:32-44 | never more than the capacity; exactly the frames between counters that are in order, and zero when they are not |
| FifoBuffer.FifoController.GetEmptyFramesAvailable | src/fifo/FifoControllerBase.cpp:55-57 | full and empty frames add up to the capacity |
| FifoBuffer.FifoController.AdvanceReadIndex | src/fifo/FifoController.h:42-44 | counts modulo 2^64; taking no more than there is keeps the counters in order |
| FifoBuffer.FifoController.AdvanceWriteIndex | src/fifo/FifoController.h:51-53 | counts modulo 2^64; adding no more than there is room for keeps the counters in order, until the counter wraps and the queue looks empty |
| FifoBuffer.FifoBuffer.constructor | src/fifo/FifoBuffer.cpp:28-39 | a new queue is empty |
| FifoBuffer.FifoBuffer.NeverOutOfRange | src/fifo/FifoBuffer.cpp:65-67 | no copy within the capacity overflows, so no call fails for being out of range |
| FifoBuffer.FifoBuffer.IndexOf | src/fifo/FifoBuffer.cpp:81-92 | where the parts of a copy lie in the storage: together they walk the ring from the counter on |
| FifoBuffer.FifoBuffer.CopyOut | src/fifo/FifoBuffer.cpp:78-105 | in one or two parts, the buffer gets the next bytes of the queue |
| FifoBuffer.FifoBuffer.Read | src/fifo/FifoBuffer.cpp:69-109 | takes as many frames as asked for or as there are from the front of the queue: what is returned followed by what is left is what was there; the rest of the buffer is unchanged |
| FifoBuffer.FifoBuffer.CopyIn | src/fifo/FifoBuffer.cpp:121-148 | in one or two parts, the bytes go into the empty part and the queue is untouched |
| FifoBuffer.FifoBuffer.Write | src/fifo/FifoBuffer.cpp:111-152 | appends as many frames as asked for or as there is room for; when that carries the counter past 2^64 the queue looks empty |
| FifoBuffer.FifoBuffer.ReadNow | src/fifo/FifoBuffer.cpp:154-171 | as a read, then zeros up to the request, and both counts kept |
| Ring.Put | src/fifo/FifoBuffer.cpp:121-148 | bytes stored within one turn leave all earlier positions of that turn as they were |
| FifoProtocol.SlotOfPosition | src/fifo/FifoBuffer.cpp:81-92 | each byte of a two-part copy goes where its position in the ring says |
| FifoProtocol.NoOverlap | src/fifo/FifoBuffer.cpp:69-152 | while both threads copy, the slots written and the slots read are disjoint and inside the storage |
| FifoProtocol.CopyInKeeps | src/fifo/FifoBuffer.cpp:124-148 | a byte copied in harms neither the queue nor the bytes copied before, in whatever order they are copied |
| FifoProtocol.CopiedIsStored | src/fifo/FifoBuffer.cpp:124-148 | once every byte is copied in, the storage holds the data of the writer right behind the queue |
| FifoProtocol.CopyOutKeeps | src/fifo/FifoBuffer.cpp:81-105 | a byte copied out is the byte written at that position |
| FifoProtocol.TakenIsFront | src/fifo/FifoBuffer.cpp:81-105 | once every byte is copied out, the reader has the front of the queue |
| FifoProtocol.PublishKeeps | src/fifo/FifoController.h:51-53 | publishing what was copied in extends the queue by exactly that and keeps what the reader knows |
| FifoProtocol.TakeKeeps | src/fifo/FifoController.h:42-44 | publishing a read hands over exactly the front of the queue |
| FifoProtocol.StepKeeps | src/fifo/FifoControllerBase.cpp:32-66 | every load, copy and publication keeps the invariant |
| FifoProtocol.RunsKeepInv | src/fifo/FifoBuffer.cpp:69-152 | in every interleaving: read <= write <= read + capacity, and the bytes delivered are a prefix of the bytes written |
| FifoProtocol.RefinesQueue | src/fifo/FifoBuffer.cpp:69-152 | every step refines a simple queue: only the publications act, one appends, the other removes from the front what it delivers |
| FifoProtocol.SizesAreCurrent | src/fifo/FifoControllerBase.cpp:32-57 | the size of a write is decided by the room when the read counter is loaded, that of a read by the queue when the write counter is loaded |
| FifoCalls.StepAgrees | src/fifo/FifoBuffer.cpp:69-152 | every step keeps the threads working for the calls that were made, with the data and the frame counts these were given |
| FifoCalls.RunsServeCalls | src/fifo/FifoBuffer.cpp:69-152 | in every interleaving the bytes written are, call after call, those that each completed write was given, as many frames as there was room for when it looked; the bytes delivered are a prefix of them, as many as the completed reads wanted of those there were when they looked |
| FifoCalls.WriterIsWaitFree | src/fifo/FifoBuffer.cpp:111-152 | an idle writer may start; under way it always has a step to take, its steps are bounded, the reader never adds to them, and it returns exactly by publishing |
| FifoCalls.ReaderIsWaitFree | src/fifo/FifoBuffer.cpp:69-109 | the same for the reader |
| HandleLifetime.StepKeepsLocks | src/aaudio/AudioStreamAAudio.cpp:323-354 | the lock variables always name the threads that are where they hold them, and a unique holder excludes shared ones |
| HandleLifetime.StepKeepsLocal | src/aaudio/AudioStreamAAudio.cpp:394-470 | a handle loaded under a lock is still the current one at the call, also where the pointer is loaded a second time |
| HandleLifetime.StepKeepsOthers | src/aaudio/AudioStreamAAudio.cpp:323-354 | taking the pointer away, closing and opening harm no handle that another thread relies on |
| HandleLifetime.StepKeepsHeap | src/aaudio/AudioStreamAAudio.cpp:323-354 | the handle being closed was not closed before |
| HandleLifetime.StepKeepsHandles | src/aaudio/AudioStreamAAudio.cpp:332-351 | a handle taken from the pointer stays in the hand of the closing thread until it is closed |
| HandleLifetime.RunsKeepInv | src/aaudio/AudioStreamAAudio.cpp:323-470 | the invariant holds in every run of any number of threads that request, query, wait, close and open |
| HandleLifetime.HandlesAreSafe | src/aaudio/AudioStreamAAudio.cpp:323-470 | no thread that requests, queries, waits or closes is ever inside a library call on a handle that is closed or being closed, or on a null handle; each handle is closed at most once; none is lost |
| HandleLifetime.NoDeadlock | src/aaudio/AudioStreamAAudio.cpp:323-354 | as long as a thread is under way some thread can go on, even when a waiting exclusive lock keeps new shared ones out |
| HandleLifetime.StepShrinksRank | src/aaudio/AudioStreamAAudio.cpp:503-568 | every step, wake-ups of a wait included, brings a thread closer to its return |
| HandleLifetime.AllFinish | src/aaudio/AudioStreamAAudio.cpp:503-568 | while nothing new begins, every schedule of requests, queries, waits and closes is finite, and it can stop only when all threads are idle |
| HandleCalls.RequestTells | src/aaudio/AudioStreamAAudio.cpp:394-470 | a request that finds a handle asks an old platform for the state and makes the request on that handle unless it is there already |
| HandleCalls.WaitTells | src/aaudio/AudioStreamAAudio.cpp:503-568 | a wait asks the library once per turn, and sleeps in full periods until its time is used up |
| HandleCalls.CloseTells | src/aaudio/AudioStreamAAudio.cpp:323-354 | a close reads both counters, takes the handle away under the exclusive lock, stops the stream as the platform needs it, and closes that handle |
| HandleCalls.QueryTells | src/aaudio/AudioStreamAAudio.cpp:590-605 | a query makes its library call on the handle it finds |
| HandleCalls.OpenTells | src/aaudio/AudioStreamAAudio.cpp:171-274 | an open that finds no handle opens one |
| HandleCalls.OthersLeaveTold | src/aaudio/AudioStreamAAudio.cpp:323-354 | no step of another thread undoes what a call has found or done |
| HandleCalls.CallsComplete | src/aaudio/AudioStreamAAudio.cpp:323-470 | in every run of any number of threads, a call that has returned has made exactly the library calls of its kind on the handle it found under its lock; a close has closed the handle that was current when it took the exclusive lock; a wait without an answer has slept its time, and no period more |
| HandleCalls.MayBegin | src/aaudio/AudioStreamAAudio.cpp:323-470 | an idle thread may begin any call, an open unless another is under way |
| HandleCalls.PointerChanges | src/aaudio/AudioStreamAAudio.cpp:332-337 | the pointer changes only when the holder of the exclusive lock takes the handle away or an open puts in a new one |

## Left out

- SincResampler and SincResamplerStereo, which the builder falls back on when the coefficient table would be too large: an approximation by table lookup with no exact statement. `ResamplerBuilder.Build` returns nothing there.
- Rounding of `float` and `double`: the phase that `generateCoefficients` accumulates in a `double` is an exact fraction here, and gains, ramps and 24-bit samples are reals. The 24-bit conversion is exact in a `float` too.
- The sinc, Kaiser and hyperbolic cosine functions are uninterpreted.
- Coefficients.GenerateCoefficients: requires the raw sum of every row to be nonzero, because the source divides by it.
- RampLinear.RampLinear.SetLengthInFrames: requires a positive length; with length zero the source divides by zero, and a negative length is no number of frames.
- RampLinear.NoPops: runs without a node reset; what a reset in mid-ramp does is stated by RampLinear.ImmediateExactlyWhenIdle.
- SampleRateConverter::reset: it sets the input cursor to -1, which breaks the invariant of the cursor; runs are without it.
- setReadCounter and setWriteCounter of the queue, and the controller with counters outside the class: arbitrary counters break the invariant.
- FifoBuffer.FifoBuffer.constructor: requires the storage to have fewer than 2^31 bytes, as its size is an `int32_t`; under it the out-of-range results of read and write cannot occur (FifoBuffer.FifoBuffer.NeverOutOfRange).
- FifoBuffer.FifoBuffer.ReadNow: the two counts are unbounded integers; a negative request lowers the underrun count, as in the source.
- FifoProtocol.RunsKeepInv: runs in which fewer than 2^64 frames are written.
- Weak memory order: the acquire and release orders of the counters are not modelled.
- FlowGraph.FlowGraphNode.PullData: does not bound the frame count by the request, because the answer of a node that already ran may be larger; on chains FlowGraph.FlowGraphNode.PullSink and DataConversion say what is answered. Which samples a node computes is not part of the graph model.
- FlowGraph nodes that pull their inputs themselves count as nodes without automatic inputs; the rate converter, which is one, is modelled on its own with its source.
- Disconnecting ports, and adding nodes while a pull is under way.
- PackedI24.PackedSample: the conversion to `int32_t` of a sample beyond its range is undefined in C++; here it clips.
- 16-bit and 32-bit sources and sinks, and the Android variants of the packed conversions.
- Channel converters, and the push path with them: `configure` is modelled for equal channel counts, with `SourceFloat` at the head and any sample encoding of fixed size after the sink.
- DataConversion.DataConversionFlowGraph.Write: the app callback never refuses a block, as in src/common/DataConversionFlowGraph.cpp:262-267; stop results of the callback are not modelled.
- The pull path of the data conversion graph with its source callers, timeouts and blocking reads.
- HandleLifetime.RunsKeepInv: `write` and `read` take no lock and are not actions of the model.
- HandleLifetime.HandlesAreSafe: `write`, `read` and the property queries in `open` take no lock and are outside the claim, and two threads do not open the stream at the same time.
- HandleLifetime.AllFinish: leaves out `write` and `read`, and speaks of runs in which nothing new begins; without fair locks a single thread may wait for ever while others keep coming.
- HandleCalls.CallsComplete: for a call that finds no handle it says nothing of a handle that an open puts in meanwhile.
- The cutoff of a filter is a parameter of its kernel; how `make` and `build` compute it is not modelled.
- The results of the stream calls, cached fields, callbacks, the stop thread and the delay before a close.
- OpenSL ES streams, loaders, quirks, builders, latency tuning, tracing and the samples: foreign calls or flat case analysis.
- IntegerRatio and the resamplers use unbounded integers where the source has `int32_t`.
