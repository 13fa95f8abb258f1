/** Choosing and constructing a resampler for a pair of sample rates
    (MultiChannelResampler::make and Builder::build). */
module ResamplerBuilder {
  import opened Basics
  import opened Fir
  import opened Coefficients
  import opened IntegerRatio
  import opened MultiChannelResampler
  import DivMod
  import Phase

  const MAX_COEFFICIENTS: int := 8 * 1024

  datatype Quality = Fastest | Low | Medium | High | Best

  function NumTaps(quality: Quality): int {
    match quality
    case Fastest => 2
    case Low => 4
    case Medium => 8
    case High => 16
    case Best => 32
  }

  /** What the filter promises about the rates it was built for. */
  ghost predicate BuiltFor(f: Filter<real>, k: Kernel, inputRate: int, outputRate: int) {
    && f.Valid() && f.arith == RealArith() && 2 <= f.numTaps && 0 < outputRate
    && Reduced(inputRate, outputRate, f.numerator, f.denominator)
    && (!f.kind.Linear? ==>
          && Normalizable(k, inputRate, outputRate, f.denominator, f.numTaps)
          && forall i :: 0 <= i < f.denominator ==>
               f.Row(i) == NormalRow(k, Fraction(i, inputRate, outputRate), f.numTaps))
  }

  /** The table of a polyphase filter for these rates would hold too many coefficients. */
  ghost predicate TooLarge(inputRate: int, outputRate: int, numTaps: int) {
    2 < numTaps && exists num, den :: Reduced(inputRate, outputRate, num, den) && MAX_COEFFICIENTS < numTaps * den
  }

  /** Builds a resampler, or nothing when the table would be too large: the source then falls
      back on a resampler that computes its coefficients from a phase increment. */
  method Build(k: Kernel, numTaps: int, channelCount: int, inputRate: int, outputRate: int)
      returns (result: Option<MultiChannelResampler<real>>)
    requires 1 <= channelCount && 1 <= inputRate && 1 <= outputRate
    requires numTaps == 2 || (4 <= numTaps && numTaps % 4 == 0)
    requires numTaps != 2 ==> Normalizable(k, inputRate, outputRate, outputRate, numTaps)
    ensures result.Some? ==> fresh(result.value) && fresh(result.value.buffer) && fresh(result.value.singleFrame)
    ensures result.Some? ==>
              var r := result.value;
              && r.Valid() && r.written == [] && r.readCount == 0
              && r.filter.numTaps == numTaps && r.filter.channelCount == channelCount
              && r.filter.kind == (if numTaps == 2 then Linear else if channelCount == 1 then Mono
                                   else if channelCount == 2 then Stereo else MultiChannel)
              && BuiltFor(r.filter, k, inputRate, outputRate)
    ensures result.Some? && numTaps != 2 ==> numTaps * result.value.filter.denominator <= MAX_COEFFICIENTS
    ensures result.None? ==> TooLarge(inputRate, outputRate, numTaps)
  {
    var ratio := new IntegerRatio(inputRate, outputRate);
    ratio.Reduce();
    DenominatorBound(inputRate, outputRate, ratio.numerator, ratio.denominator);
    if numTaps == 2 {
      var filter := Filter(Linear, RealArith(), [], numTaps, ratio.numerator, ratio.denominator, channelCount);
      var resampler := new MultiChannelResampler(filter);
      return Some(resampler);
    }
    if numTaps * ratio.denominator <= MAX_COEFFICIENTS {
      var kind := if channelCount == 1 then Mono else if channelCount == 2 then Stereo else MultiChannel;
      var coefficients := GenerateCoefficients(k, inputRate, outputRate, ratio.denominator, numTaps);
      var filter := Filter(kind, RealArith(), coefficients, numTaps, ratio.numerator, ratio.denominator,
                           channelCount);
      RowsBuilt(filter, k, inputRate, outputRate);
      var resampler := new MultiChannelResampler(filter);
      return Some(resampler);
    }
    return None;
  }

  lemma DenominatorBound(num0: int, den0: int, num: int, den: int)
    requires 1 <= num0 && 1 <= den0 && Reduced(num0, den0, num, den)
    ensures den <= den0
  {
  }

  lemma RowsBuilt(f: Filter<real>, k: Kernel, inputRate: int, outputRate: int)
    requires f.Valid() && !f.kind.Linear? && 2 <= f.numTaps
    requires Normalizable(k, inputRate, outputRate, f.denominator, f.numTaps)
    requires forall i :: 0 <= i < f.denominator ==>
               IsRow(k, inputRate, outputRate, f.numTaps, f.coefficients, i)
    ensures forall i :: 0 <= i < f.denominator ==>
              f.Row(i) == NormalRow(k, Fraction(i, inputRate, outputRate), f.numTaps)
  {
    forall i | 0 <= i < f.denominator
      ensures f.Row(i) == NormalRow(k, Fraction(i, inputRate, outputRate), f.numTaps)
    {
      assert IsRow(k, inputRate, outputRate, f.numTaps, f.coefficients, i);
    }
  }

  /** A resampler for one of the named qualities. */
  method Make(k: Kernel, channelCount: int, inputRate: int, outputRate: int, quality: Quality)
      returns (result: Option<MultiChannelResampler<real>>)
    requires 1 <= channelCount && 1 <= inputRate && 1 <= outputRate
    requires !quality.Fastest? ==> Normalizable(k, inputRate, outputRate, outputRate, NumTaps(quality))
    ensures result.Some? ==> fresh(result.value) && fresh(result.value.buffer) && fresh(result.value.singleFrame)
    ensures result.Some? ==>
              var r := result.value;
              && r.Valid() && r.written == [] && r.readCount == 0
              && r.filter.channelCount == channelCount
              && (r.filter.kind.Linear? <==> quality.Fastest?)
              && r.filter.numTaps == (if quality.Fastest? then 2 else if quality.Low? then 4
                                      else if quality.Medium? then 8 else if quality.High? then 16 else 32)
              && BuiltFor(r.filter, k, inputRate, outputRate)
    ensures result.None? ==> TooLarge(inputRate, outputRate, NumTaps(quality))
  {
    result := Build(k, NumTaps(quality), channelCount, inputRate, outputRate);
  }

  /** The row picked for output `r` by counting rows is the row generated for the fractional phase
      of output `r`, which is also the value of the integer phase when that output is read. */
  lemma RowServesPhase(f: Filter<real>, k: Kernel, inputRate: int, outputRate: int, r: nat)
    requires 1 <= inputRate && BuiltFor(f, k, inputRate, outputRate)
    ensures Fraction(r % f.denominator, inputRate, outputRate) == Fraction(r, inputRate, outputRate)
    ensures Fraction(r, inputRate, outputRate)
         == (r * f.numerator % f.denominator) as real / f.denominator as real
    ensures f.Position(r) == r * inputRate / outputRate
    ensures !f.kind.Linear? ==>
              && Total(RawRow(k, Fraction(r, inputRate, outputRate), f.numTaps)) != 0.0
              && f.Row(r % f.denominator) == NormalRow(k, Fraction(r, inputRate, outputRate), f.numTaps)
  {
    var num, den := f.numerator, f.denominator;
    var g :| ScaledPair(g, inputRate, outputRate, num, den);
    ScaledFraction(g, r, num, den);
    ScaledFraction(g, r % den, num, den);
    Phase.RowPhase(r, num, den);
  }

  /** Once `numTaps` equal frames are in the delay line of a polyphase resampler built for any two
      rates, its outputs equal them. */
  lemma BuiltUnityGain(f: Filter<real>, k: Kernel, inputRate: int, outputRate: int, x: seq<Frame<real>>,
                       r: nat, level: Frame<real>)
    requires BuiltFor(f, k, inputRate, outputRate) && !f.kind.Linear?
    requires Frames(x, f.channelCount) && |level| == f.channelCount
    requires f.numTaps <= f.Position(r) + 1 <= |x|
    requires forall j :: f.Position(r) - f.numTaps < j <= f.Position(r) ==> x[j] == level
    ensures f.Output(x, r) == level
  {
    UnitRow(k, Fraction(r % f.denominator, inputRate, outputRate), f.numTaps);
    UnityGain(f, x, r, level);
  }

  /** A straight line passes through a linear resampler built for any two rates as the same line, with
      output `r` at the time of input `r * inputRate / outputRate`, one input frame late. */
  lemma BuiltKeepsLines(f: Filter<real>, k: Kernel, inputRate: int, outputRate: int, x: seq<Frame<real>>,
                        r: nat, c: int, slope: real, start: real)
    requires 1 <= inputRate && BuiltFor(f, k, inputRate, outputRate) && f.kind.Linear?
    requires Frames(x, f.channelCount) && 0 <= c < f.channelCount && 1 <= f.Position(r) < |x|
    requires forall i :: 0 <= i < |x| ==> x[i][c] == slope * i as real + start
    ensures f.Output(x, r)[c] == slope * ((r * inputRate) as real / outputRate as real - 1.0) + start
  {
    var num, den := f.numerator, f.denominator;
    var g :| ScaledPair(g, inputRate, outputRate, num, den);
    LinearKeepsLines(f, x, r, c, slope, start);
    DivMod.MulMonotone(1, den, g);
    assert r * (g * num) == g * (r * num);
    CancelFactor(g, r * num, den);
  }

  lemma ScaledFraction(g: int, i: int, num: int, den: int)
    requires 0 < g && 0 < den
    ensures 0 < g * den
    ensures Fraction(i, g * num, g * den) == (i * num % den) as real / den as real
    ensures i * (g * num) / (g * den) == i * num / den
  {
    DivMod.Scale(g, i * num, den);
    DivMod.MulAssociative(g, i, num);
    assert i * (g * num) == g * (i * num);
    var p := i * num % den;
    assert (g * p) as real / (g * den) as real == p as real / den as real by {
      CancelFactor(g, p, den);
    }
  }

  lemma CancelFactor(g: int, p: int, q: int)
    requires 0 < g && 0 < q && 0 < g * q
    ensures (g * p) as real / (g * q) as real == p as real / q as real
  {
  }
}
