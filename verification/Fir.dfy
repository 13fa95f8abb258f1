/** The mathematics of the streaming FIR filter: what one output frame is, as a function of the
    whole input stream, and how a mirrored circular delay line holds the recent input. */
module Fir {
  import DivMod

  /** Sample arithmetic, with `ratio(p, q)` for the conversion of an integer fraction. The
      operations are left uninterpreted: facts about them hold for `float` and its rounding too. */
  datatype Arith<!T> = Arith(
    zero: T,
    add: (T, T) -> T,
    sub: (T, T) -> T,
    mul: (T, T) -> T,
    ratio: (int, int) -> T)

  type Frame<T> = seq<T>

  /** The resampler classes the builder chooses from. */
  datatype Kind = Linear | Mono | Stereo | MultiChannel

  /** What a resampler is built from. In a polyphase filter bank, row `i` of the coefficients
      serves fractional phase `i`; the linear resampler has no coefficients. */
  datatype Filter<!T> = Filter(
    kind: Kind,
    arith: Arith<T>,
    coefficients: seq<T>,
    numTaps: int,
    numerator: int,
    denominator: int,
    channelCount: int)
  {
    ghost predicate Valid() {
      && 0 < numTaps && 0 < numerator && 0 < denominator && 0 < channelCount
      && (!kind.Linear? ==> numTaps % 4 == 0 && |coefficients| == denominator * numTaps)
      && (kind.Mono? ==> channelCount == 1)
      && (kind.Stereo? ==> channelCount == 2)
    }

    function Row(i: int): (row: seq<T>)
      requires Valid() && !kind.Linear? && 0 <= i < denominator
      ensures |row| == numTaps
    {
      RowBounds(i);
      coefficients[i * numTaps..i * numTaps + numTaps]
    }

    lemma RowBounds(i: int)
      requires Valid() && !kind.Linear? && 0 <= i < denominator
      ensures 0 <= i * numTaps && i * numTaps + numTaps <= |coefficients|
    {
      DivMod.MulMonotone(i + 1, denominator, numTaps);
      DivMod.MulMonotone(0, i, numTaps);
      DivMod.MulDistributes(i, 1, numTaps);
    }

    /** The frame of `x` that output `r` is aligned with: the integer part of its phase. */
    function Position(r: nat): (p: nat)
      requires Valid()
    {
      DivMod.MulMonotone(0, r, numerator);
      DivMod.QuotientSign(r * numerator, denominator);
      r * numerator / denominator
    }

    /** Output frame `r` of the stream `x`: the closed form. */
    function Output(x: seq<Frame<T>>, r: nat): (f: Frame<T>)
      requires Valid() && Frames(x, channelCount)
      ensures |f| == channelCount
    {
      if kind.Linear? then
        Interpolation(arith, x, Position(r), r * numerator % denominator, denominator, channelCount)
      else
        Convolution(arith, Row(r % denominator), x, Position(r), channelCount)
    }
  }

  predicate Frames<T>(x: seq<Frame<T>>, channelCount: int) {
    forall i :: 0 <= i < |x| ==> |x[i]| == channelCount
  }

  /** One sample of a stream that is silent before its first frame. */
  function Sample<T>(zero: T, x: seq<Frame<T>>, channelCount: int, i: int, channel: int): T
    requires Frames(x, channelCount) && 0 <= channel < channelCount
  {
    if 0 <= i < |x| then x[i][channel] else zero
  }

  /** The sum over the first `n` taps `k` of `row[k] * x[position - k]`, added in tap order. */
  function PartialSum<T>(a: Arith<T>, row: seq<T>, x: seq<Frame<T>>, position: int,
                         channelCount: int, channel: int, n: nat): T
    requires n <= |row| && Frames(x, channelCount) && 0 <= channel < channelCount
  {
    if n == 0 then a.zero
    else a.add(PartialSum(a, row, x, position, channelCount, channel, n - 1),
               a.mul(Sample(a.zero, x, channelCount, position - (n - 1), channel), row[n - 1]))
  }

  function Convolution<T>(a: Arith<T>, row: seq<T>, x: seq<Frame<T>>, position: int,
                          channelCount: int): (f: Frame<T>)
    requires Frames(x, channelCount) && 0 < channelCount
    ensures |f| == channelCount
  {
    seq(channelCount, c requires 0 <= c < channelCount =>
      PartialSum(a, row, x, position, channelCount, c, |row|))
  }

  /** From the frame before `position` to the one at it, `phase / denominator` of the way. */
  function Interpolation<T>(a: Arith<T>, x: seq<Frame<T>>, position: int, phase: int,
                            denominator: int, channelCount: int): (f: Frame<T>)
    requires Frames(x, channelCount) && 0 < channelCount
    ensures |f| == channelCount
  {
    seq(channelCount, c requires 0 <= c < channelCount =>
      Interpolate(a, Sample(a.zero, x, channelCount, position - 1, c),
                  Sample(a.zero, x, channelCount, position, c), phase, denominator))
  }

  function Interpolate<T>(a: Arith<T>, f0: T, f1: T, phase: int, denominator: int): T {
    a.add(f0, a.mul(a.ratio(phase, denominator), a.sub(f1, f0)))
  }

  /** An output depends only on the input up to its position, so input that arrives later never
      changes an output already produced. */
  lemma {:induction false} PartialSumStable<T>(a: Arith<T>, row: seq<T>, x: seq<Frame<T>>, y: seq<Frame<T>>,
                              position: int, channelCount: int, channel: int, n: nat)
    requires n <= |row| && Frames(x, channelCount) && Frames(x + y, channelCount)
    requires 0 <= channel < channelCount && position < |x|
    ensures PartialSum(a, row, x, position, channelCount, channel, n)
         == PartialSum(a, row, x + y, position, channelCount, channel, n)
  {
    if n > 0 {
      PartialSumStable(a, row, x, y, position, channelCount, channel, n - 1);
    }
  }

  lemma OutputStable<T>(f: Filter<T>, x: seq<Frame<T>>, y: seq<Frame<T>>, r: nat)
    requires f.Valid() && Frames(x, f.channelCount) && Frames(y, f.channelCount)
    requires f.Position(r) < |x|
    ensures f.Output(x, r) == f.Output(x + y, r)
  {
    forall c | 0 <= c < f.channelCount
      ensures f.Output(x, r)[c] == f.Output(x + y, r)[c]
    {
      if !f.kind.Linear? {
        var row := f.Row(r % f.denominator);
        PartialSumStable(f.arith, row, x, y, f.Position(r), f.channelCount, c, |row|);
      }
    }
  }

  // ---------------------------------------------------------------- mirrored delay line

  /** The place of channel `c` of slot `s` in the interleaved buffer. */
  function Index(s: int, c: int, channelCount: int): int {
    s * channelCount + c
  }

  lemma IndexBound(s: int, c: int, slots: int, channelCount: int)
    requires 0 <= s < slots && 0 <= c < channelCount
    ensures 0 <= Index(s, c, channelCount) < slots * channelCount
  {
    DivMod.MulMonotone(s + 1, slots, channelCount);
    DivMod.MulMonotone(0, s, channelCount);
    DivMod.MulDistributes(s, 1, channelCount);
  }

  lemma IndexApart(s: int, t: int, c: int, channelCount: int)
    requires 0 <= c < channelCount && s != t
    ensures Index(s, c, channelCount) < Index(t, 0, channelCount)
         || Index(s, c, channelCount) >= Index(t, 0, channelCount) + channelCount
  {
    if s < t {
      DivMod.MulMonotone(s + 1, t, channelCount);
    } else {
      DivMod.MulMonotone(t + 1, s, channelCount);
    }
    DivMod.MulDistributes(s, 1, channelCount);
    DivMod.MulDistributes(t, 1, channelCount);
  }

  /** How many frames ago slot `s` was written, when the newest frame is at `cursor`. */
  function Age(s: int, cursor: int, numTaps: int): int {
    var t := if s >= numTaps then s - numTaps else s;
    if t >= cursor then t - cursor else t - cursor + numTaps
  }

  /** Both halves of the buffer hold the last `numTaps` frames of `x`, the newest at `cursor`. */
  ghost predicate DelayLine<T>(zero: T, buffer: seq<T>, cursor: int, numTaps: int,
                               channelCount: int, x: seq<Frame<T>>)
  {
    && 0 <= cursor < numTaps && 0 < channelCount
    && |buffer| == 2 * numTaps * channelCount
    && Frames(x, channelCount)
    && forall s, c :: 0 <= s < 2 * numTaps && 0 <= c < channelCount ==>
         SlotHolds(zero, buffer, cursor, numTaps, channelCount, x, s, c)
  }

  ghost predicate SlotHolds<T>(zero: T, buffer: seq<T>, cursor: int, numTaps: int,
                               channelCount: int, x: seq<Frame<T>>, s: int, c: int)
    requires 0 <= s < 2 * numTaps && 0 <= c < channelCount
    requires |buffer| == 2 * numTaps * channelCount && Frames(x, channelCount)
  {
    IndexBound(s, c, 2 * numTaps, channelCount);
    buffer[Index(s, c, channelCount)]
      == Sample(zero, x, channelCount, |x| - 1 - Age(s, cursor, numTaps), c)
  }

  /** Reading on from the cursor never needs a wrap: the next `numTaps` slots are the last
      `numTaps` frames, newest first, with silence before the start of the stream. */
  lemma Window<T>(zero: T, buffer: seq<T>, cursor: int, numTaps: int, channelCount: int,
                  x: seq<Frame<T>>, k: int, c: int)
    requires DelayLine(zero, buffer, cursor, numTaps, channelCount, x)
    requires 0 <= k < numTaps && 0 <= c < channelCount
    ensures 0 <= Index(cursor + k, c, channelCount) < |buffer|
    ensures buffer[Index(cursor + k, c, channelCount)]
         == Sample(zero, x, channelCount, |x| - 1 - k, c)
  {
    IndexBound(cursor + k, c, 2 * numTaps, channelCount);
    assert SlotHolds(zero, buffer, cursor, numTaps, channelCount, x, cursor + k, c);
  }

  /** The two halves are equal. */
  lemma Mirrored<T>(zero: T, buffer: seq<T>, cursor: int, numTaps: int, channelCount: int,
                    x: seq<Frame<T>>, s: int, c: int)
    requires DelayLine(zero, buffer, cursor, numTaps, channelCount, x)
    requires 0 <= s < numTaps && 0 <= c < channelCount
    ensures 0 <= Index(s, c, channelCount) && Index(s + numTaps, c, channelCount) < |buffer|
    ensures Index(s + numTaps, c, channelCount) == Index(s, c, channelCount) + |buffer| / 2
    ensures buffer[Index(s, c, channelCount)] == buffer[Index(s + numTaps, c, channelCount)]
  {
    IndexBound(s, c, 2 * numTaps, channelCount);
    IndexBound(s + numTaps, c, 2 * numTaps, channelCount);
    assert SlotHolds(zero, buffer, cursor, numTaps, channelCount, x, s, c);
    assert SlotHolds(zero, buffer, cursor, numTaps, channelCount, x, s + numTaps, c);
    DivMod.MulDistributes(s, numTaps, channelCount);
    DivMod.MulAssociative(2, numTaps, channelCount);
  }

  /** The cursor of the next write. */
  function NextCursor(cursor: int, numTaps: int): int {
    if cursor - 1 < 0 then numTaps - 1 else cursor - 1
  }

  /** `after` is `before` with `frame` stored at `base` and again at `base + offset`. */
  ghost predicate StoredTwice<T>(before: seq<T>, after: seq<T>, frame: Frame<T>, base: int, offset: int) {
    && |after| == |before|
    && forall i :: 0 <= i < |before| ==>
         after[i] == (if base <= i < base + |frame| then frame[i - base]
                      else if base + offset <= i < base + offset + |frame| then frame[i - base - offset]
                      else before[i])
  }

  /** Storing a frame twice at the next cursor extends the stream by that frame. */
  lemma DelayLineWrite<T>(zero: T, before: seq<T>, after: seq<T>, cursor: int, numTaps: int,
                          channelCount: int, x: seq<Frame<T>>, frame: Frame<T>)
    requires DelayLine(zero, before, cursor, numTaps, channelCount, x) && |frame| == channelCount
    requires StoredTwice(before, after, frame, Index(NextCursor(cursor, numTaps), 0, channelCount),
                         numTaps * channelCount)
    ensures DelayLine(zero, after, NextCursor(cursor, numTaps), numTaps, channelCount, x + [frame])
  {
    var cursor' := NextCursor(cursor, numTaps);
    forall s, c | 0 <= s < 2 * numTaps && 0 <= c < channelCount
      ensures SlotHolds(zero, after, cursor', numTaps, channelCount, x + [frame], s, c)
    {
      IndexBound(s, c, 2 * numTaps, channelCount);
      assert SlotHolds(zero, before, cursor, numTaps, channelCount, x, s, c);
      DivMod.MulDistributes(cursor', numTaps, channelCount);
      if s == cursor' {
      } else if s == cursor' + numTaps {
        IndexApart(s, cursor', c, channelCount);
      } else {
        IndexApart(s, cursor', c, channelCount);
        IndexApart(s, cursor' + numTaps, c, channelCount);
      }
    }
  }
}
