/** Generation of the polyphase filter bank, over the reals, with the sinc function and the window
    left uninterpreted (MultiChannelResampler::generateCoefficients). The phase the source keeps in
    a `double` is the exact fraction `phase / outputRate` here. */
module Coefficients {
  import opened Fir
  import DivMod

  datatype Kernel = Kernel(sinc: real -> real, window: real -> real, pi: real, cutoffScaler: real)

  /** Where the sinc function is taken, `tapPhase` samples from the centre: in radians, stretched by
      the cutoff. */
  function Radians(k: Kernel, tapPhase: real): real {
    tapPhase * k.pi * k.cutoffScaler
  }

  /** Where the window is taken: as a fraction of its half width. */
  function Place(tapPhase: real, halfInverse: real): real {
    tapPhase * halfInverse
  }

  /** The sinc function under its window, `tapPhase` samples from the centre. */
  function Windowed(k: Kernel, tapPhase: real, halfInverse: real): real {
    k.sinc(Radians(k, tapPhase)) * k.window(Place(tapPhase, halfInverse))
  }

  /** One coefficient before normalisation; `phase` is the fraction between two samples. */
  function Raw(k: Kernel, phase: real, numTaps: int, tap: int): real
    requires 2 <= numTaps
  {
    var half := numTaps / 2;
    Windowed(k, phase - half as real + tap as real, 1.0 / half as real)
  }

  /** With an even sinc function and an even window, the row for a phase is the row for the opposite
      phase read backward, so a filter delays all frequencies alike. */
  lemma RawMirrored(k: Kernel, phase: real, numTaps: int, tap: int)
    requires 2 <= numTaps && numTaps % 2 == 0
    requires (forall t :: k.sinc(-t) == k.sinc(t)) && forall t :: k.window(-t) == k.window(t)
    ensures Raw(k, phase, numTaps, tap) == Raw(k, 1.0 - phase, numTaps, numTaps - 1 - tap)
  {
    hide Windowed;
    var half := (numTaps / 2) as real;
    var time := phase - half + tap as real;
    assert 1.0 - phase - half + (numTaps - 1 - tap) as real == -time;
    WindowedEven(k, time, 1.0 / half);
  }

  lemma WindowedEven(k: Kernel, time: real, halfInverse: real)
    requires (forall t :: k.sinc(-t) == k.sinc(t)) && forall t :: k.window(-t) == k.window(t)
    ensures Windowed(k, -time, halfInverse) == Windowed(k, time, halfInverse)
  {
    assert Radians(k, -time) == -Radians(k, time);
    assert Place(-time, halfInverse) == -Place(time, halfInverse);
    hide Radians, Place;
    assert k.sinc(Radians(k, -time)) == k.sinc(Radians(k, time));
    assert k.window(Place(-time, halfInverse)) == k.window(Place(time, halfInverse));
  }

  /** A coefficient is the product of both functions: where the window is one it is the sinc function,
      and where the sinc function is one it is the window. */
  lemma RawFactors(k: Kernel, phase: real, numTaps: int, tap: int)
    requires 2 <= numTaps
    ensures var half := (numTaps / 2) as real;
            var time := phase - half + tap as real;
            && ((forall t :: k.window(t) == 1.0) ==> Raw(k, phase, numTaps, tap) == k.sinc(Radians(k, time)))
            && ((forall t :: k.sinc(t) == 1.0) ==> Raw(k, phase, numTaps, tap) == k.window(Place(time, 1.0 / half)))
  {
    hide Radians, Place;
  }

  /** Between two neighbouring taps the sinc function moves on by pi, less in the measure of the
      cutoff; the window reaches its edge half the taps from the centre. */
  lemma TapSpacing(k: Kernel, time: real, half: real)
    requires 0.0 < half
    ensures Radians(k, 0.0) == 0.0 && Radians(k, time + 1.0) == Radians(k, time) + k.pi * k.cutoffScaler
    ensures Place(-half, 1.0 / half) == -1.0 && Place(0.0, 1.0 / half) == 0.0 && Place(half, 1.0 / half) == 1.0
    ensures Place(time + 1.0, 1.0 / half) == Place(time, 1.0 / half) + 1.0 / half
  {
    assert (time + 1.0) * k.pi * k.cutoffScaler == time * k.pi * k.cutoffScaler + k.pi * k.cutoffScaler;
  }

  function RawRow(k: Kernel, phase: real, numTaps: int): (row: seq<real>)
    requires 2 <= numTaps
    ensures |row| == numTaps
  {
    seq(numTaps, tap requires 0 <= tap < numTaps => Raw(k, phase, numTaps, tap))
  }

  function Total(s: seq<real>): real {
    if |s| == 0 then 0.0 else Total(s[..|s| - 1]) + s[|s| - 1]
  }

  function Scaled(s: seq<real>, factor: real): (t: seq<real>)
    ensures |t| == |s|
  {
    seq(|s|, i requires 0 <= i < |s| => s[i] * factor)
  }

  lemma ScaledAt(s: seq<real>, factor: real, i: int)
    requires 0 <= i < |s|
    ensures Scaled(s, factor)[i] == s[i] * factor
  {
  }

  /** The row for a phase, with its gain corrected. */
  function NormalRow(k: Kernel, phase: real, numTaps: int): (row: seq<real>)
    requires 2 <= numTaps && Total(RawRow(k, phase, numTaps)) != 0.0
    ensures |row| == numTaps
  {
    Scaled(RawRow(k, phase, numTaps), 1.0 / Total(RawRow(k, phase, numTaps)))
  }

  /** The fractional part of `i * inputRate / outputRate`. */
  function Fraction(i: int, inputRate: int, outputRate: int): real
    requires 0 < outputRate
  {
    (i * inputRate % outputRate) as real / outputRate as real
  }

  /** The source divides by the raw sum of every row. */
  ghost predicate Normalizable(k: Kernel, inputRate: int, outputRate: int, numRows: int, numTaps: int) {
    && 2 <= numTaps && 0 < outputRate
    && forall i :: 0 <= i < numRows ==>
         Total(RawRow(k, Fraction(i, inputRate, outputRate), numTaps)) != 0.0
  }

  /** Row `i` of the table is the normalised row for the phase of output `i`. */
  ghost predicate IsRow(k: Kernel, inputRate: int, outputRate: int, numTaps: int, table: seq<real>, i: int)
    requires 2 <= numTaps && 0 < outputRate
    requires Total(RawRow(k, Fraction(i, inputRate, outputRate), numTaps)) != 0.0
  {
    && 0 <= i * numTaps && i * numTaps + numTaps <= |table|
    && table[i * numTaps..i * numTaps + numTaps]
       == NormalRow(k, Fraction(i, inputRate, outputRate), numTaps)
  }

  method GenerateRow(k: Kernel, phase: real, numTaps: int, table: array<real>, start: int)
    requires 2 <= numTaps && Total(RawRow(k, phase, numTaps)) != 0.0
    requires 0 <= start && start + numTaps <= table.Length
    modifies table
    ensures table[..start] == old(table[..start])
    ensures table[start..start + numTaps] == NormalRow(k, phase, numTaps)
  {
    var gain := FillRow(k, phase, numTaps, table, start);
    CorrectGain(gain, numTaps, table, start);
  }

  /** Stores the raw coefficients and returns their sum. */
  method FillRow(k: Kernel, phase: real, numTaps: int, table: array<real>, start: int)
      returns (gain: real)
    requires 2 <= numTaps && 0 <= start && start + numTaps <= table.Length
    modifies table
    ensures table[..start] == old(table[..start])
    ensures table[start..start + numTaps] == RawRow(k, phase, numTaps)
    ensures gain == Total(RawRow(k, phase, numTaps))
  {
    hide Windowed, RawRow;
    ghost var raw := RawRow(k, phase, numTaps);
    var half := numTaps / 2;
    var halfInverse := 1.0 / half as real;
    var tapPhase := phase - half as real;
    var coefficientIndex := start;
    gain := 0.0;
    for tap := 0 to numTaps
      invariant tapPhase == phase - half as real + tap as real
      invariant coefficientIndex == start + tap
      invariant gain == Total(raw[..tap])
      invariant forall i :: 0 <= i < table.Length ==>
        table[i] == if start <= i < start + tap then raw[i - start] else old(table[i])
    {
      var coefficient := Windowed(k, tapPhase, halfInverse);
      WindowedAt(k, phase, numTaps, tap, tapPhase, halfInverse);
      table[coefficientIndex] := coefficient;
      coefficientIndex := coefficientIndex + 1;
      TotalNext(raw, tap);
      gain := gain + coefficient;
      tapPhase := tapPhase + 1.0;
    }
    assert raw[..numTaps] == raw;
    assert table[start..start + numTaps] == raw;
    assert table[..start] == old(table[..start]);
  }

  lemma WindowedAt(k: Kernel, phase: real, numTaps: int, tap: int, tapPhase: real, halfInverse: real)
    requires 2 <= numTaps && 0 <= tap < numTaps
    requires tapPhase == phase - (numTaps / 2) as real + tap as real
    requires halfInverse == 1.0 / (numTaps / 2) as real
    ensures Windowed(k, tapPhase, halfInverse) == RawRow(k, phase, numTaps)[tap]
  {
  }

  lemma TotalNext(s: seq<real>, n: nat)
    requires n < |s|
    ensures Total(s[..n + 1]) == Total(s[..n]) + s[n]
  {
    assert s[..n + 1][..n] == s[..n];
  }

  method CorrectGain(gain: real, numTaps: int, table: array<real>, start: int)
    requires 0 <= numTaps && gain != 0.0
    requires 0 <= start && start + numTaps <= table.Length
    modifies table
    ensures table[..start] == old(table[..start])
    ensures table[start..start + numTaps] == Scaled(old(table[start..start + numTaps]), 1.0 / gain)
  {
    var gainCorrection := 1.0 / gain;
    for tap := 0 to numTaps
      invariant forall i :: 0 <= i < table.Length ==>
        table[i] == if start <= i < start + tap then old(table[i]) * gainCorrection else old(table[i])
    {
      table[start + tap] := table[start + tap] * gainCorrection;
    }
    assert table[..start] == old(table[..start]);
    ghost var row := old(table[start..start + numTaps]);
    forall i | 0 <= i < numTaps
      ensures table[start..start + numTaps][i] == Scaled(row, gainCorrection)[i]
    {
      ScaledAt(row, gainCorrection, i);
    }
  }

  method GenerateCoefficients(k: Kernel, inputRate: int, outputRate: int, numRows: int, numTaps: int)
      returns (coefficients: seq<real>)
    requires 0 < inputRate && 0 <= numRows
    requires Normalizable(k, inputRate, outputRate, numRows, numTaps)
    ensures |coefficients| == numRows * numTaps
    ensures forall i :: 0 <= i < numRows ==> IsRow(k, inputRate, outputRate, numTaps, coefficients, i)
  {
    hide NormalRow, IsRow, RawRow, Total;
    DivMod.MulMonotone(0, numRows, numTaps);
    var table := new real[numRows * numTaps];
    var phase := 0;
    DivMod.Unique(0, outputRate, 0, 0);
    for i := 0 to numRows
      invariant phase == i * inputRate % outputRate
      invariant forall j :: 0 <= j < i ==> IsRow(k, inputRate, outputRate, numTaps, table[..], j)
    {
      RowRoom(i, numRows, numTaps);
      ghost var before := table[..];
      assert phase as real / outputRate as real == Fraction(i, inputRate, outputRate);
      GenerateRow(k, phase as real / outputRate as real, numTaps, table, i * numTaps);
      KeepRows(k, inputRate, outputRate, numTaps, before, table[..], i);
      phase := AdvancePhase(i, phase, inputRate, outputRate);
    }
    coefficients := table[..];
  }

  lemma RowRoom(i: int, numRows: int, numTaps: int)
    requires 0 <= i < numRows && 0 < numTaps
    ensures 0 <= i * numTaps && i * numTaps + numTaps <= numRows * numTaps
  {
    DivMod.MulMonotone(0, i, numTaps);
    DivMod.MulMonotone(i + 1, numRows, numTaps);
    DivMod.MulDistributes(i, 1, numTaps);
  }

  lemma KeepRows(k: Kernel, inputRate: int, outputRate: int, numTaps: int,
                 before: seq<real>, after: seq<real>, i: int)
    requires 0 <= i && |after| == |before| && Normalizable(k, inputRate, outputRate, i + 1, numTaps)
    requires 0 <= i * numTaps && i * numTaps + numTaps <= |after|
    requires after[..i * numTaps] == before[..i * numTaps]
    requires after[i * numTaps..i * numTaps + numTaps]
          == NormalRow(k, Fraction(i, inputRate, outputRate), numTaps)
    requires forall j :: 0 <= j < i ==> IsRow(k, inputRate, outputRate, numTaps, before, j)
    ensures forall j :: 0 <= j < i + 1 ==> IsRow(k, inputRate, outputRate, numTaps, after, j)
  {
    forall j | 0 <= j < i
      ensures IsRow(k, inputRate, outputRate, numTaps, after, j)
    {
      RowRoom(j, i, numTaps);
      assert after[j * numTaps..j * numTaps + numTaps]
          == after[..i * numTaps][j * numTaps..j * numTaps + numTaps];
      assert before[j * numTaps..j * numTaps + numTaps]
          == before[..i * numTaps][j * numTaps..j * numTaps + numTaps];
      assert IsRow(k, inputRate, outputRate, numTaps, before, j);
    }
  }

  /** Adds the phase increment and takes whole samples off. */
  method AdvancePhase(ghost i: int, phase: int, inputRate: int, outputRate: int) returns (next: int)
    requires 0 < inputRate && 0 < outputRate
    requires phase == i * inputRate % outputRate
    ensures next == (i + 1) * inputRate % outputRate
  {
    next := phase + inputRate;
    ghost var whole := i * inputRate / outputRate;
    DivMod.MulDistributes(i, 1, inputRate);
    while next >= outputRate
      invariant 0 <= next
      invariant (i + 1) * inputRate == whole * outputRate + next
    {
      next := next - outputRate;
      DivMod.MulDistributes(whole, 1, outputRate);
      whole := whole + 1;
    }
    DivMod.Unique((i + 1) * inputRate, outputRate, whole, next);
  }

  // ---------------------------------------------------------------- unity gain

  lemma ScaledFront(s: seq<real>, factor: real)
    requires 0 < |s|
    ensures Scaled(s, factor) == Scaled(s[..|s| - 1], factor) + [s[|s| - 1] * factor]
  {
    var front := s[..|s| - 1];
    forall i | 0 <= i < |s|
      ensures Scaled(s, factor)[i] == (Scaled(front, factor) + [s[|s| - 1] * factor])[i]
    {
      ScaledAt(s, factor, i);
      if i < |front| {
        ScaledAt(front, factor, i);
      }
    }
  }

  lemma {:induction false} TotalScaled(s: seq<real>, factor: real)
    ensures Total(Scaled(s, factor)) == Total(s) * factor
  {
    hide Scaled;
    if |s| > 0 {
      var front, last := s[..|s| - 1], s[|s| - 1];
      TotalScaled(front, factor);
      ScaledFront(s, factor);
      TotalAppend(Scaled(front, factor), last * factor);
      assert (Total(front) + last) * factor == Total(front) * factor + last * factor;
    }
  }

  lemma TotalAppend(s: seq<real>, last: real)
    ensures Total(s + [last]) == Total(s) + last
  {
  }

  /** Every normalised row sums to one. */
  lemma UnitRow(k: Kernel, phase: real, numTaps: int)
    requires 2 <= numTaps && Total(RawRow(k, phase, numTaps)) != 0.0
    ensures Total(NormalRow(k, phase, numTaps)) == 1.0
  {
    var raw := RawRow(k, phase, numTaps);
    TotalScaled(raw, 1.0 / Total(raw));
  }

  /** Sample arithmetic without rounding. */
  function RealArith(): Arith<real> {
    Arith(0.0, (a, b) => a + b, (a, b) => a - b, (a, b) => a * b,
          (p: int, q: int) => if q == 0 then 0.0 else p as real / q as real)
  }

  lemma {:induction false} ConstantSum(row: seq<real>, x: seq<Frame<real>>, position: int, channelCount: int,
                          channel: int, level: real, n: nat)
    requires n <= |row| && Frames(x, channelCount) && 0 <= channel < channelCount
    requires forall j :: position - n < j <= position ==> Sample(0.0, x, channelCount, j, channel) == level
    ensures PartialSum(RealArith(), row, x, position, channelCount, channel, n) == level * Total(row[..n])
  {
    if n > 0 {
      ConstantSum(row, x, position, channelCount, channel, level, n - 1);
      assert row[..n][..n - 1] == row[..n - 1];
    }
  }

  /** Once `numTaps` equal frames are in the delay line, every polyphase output equals them. */
  lemma UnityGain(f: Filter<real>, x: seq<Frame<real>>, r: nat, level: Frame<real>)
    requires f.Valid() && !f.kind.Linear? && f.arith == RealArith()
    requires Frames(x, f.channelCount) && |level| == f.channelCount
    requires Total(f.Row(r % f.denominator)) == 1.0
    requires f.numTaps <= f.Position(r) + 1 <= |x|
    requires forall j :: f.Position(r) - f.numTaps < j <= f.Position(r) ==> x[j] == level
    ensures f.Output(x, r) == level
  {
    var row := f.Row(r % f.denominator);
    assert row[..|row|] == row;
    forall c | 0 <= c < f.channelCount
      ensures f.Output(x, r)[c] == level[c]
    {
      ConstantSum(row, x, f.Position(r), f.channelCount, c, level[c], |row|);
    }
  }

  /** A linear output weighs the frame before its position by the rest of the phase, and the frame
      at its position by the phase. */
  lemma LinearWeights(f: Filter<real>, x: seq<Frame<real>>, r: nat, c: int)
    requires f.Valid() && f.kind.Linear? && f.arith == RealArith()
    requires Frames(x, f.channelCount) && 0 <= c < f.channelCount
    ensures var before := Sample(0.0, x, f.channelCount, f.Position(r) - 1, c);
            var here := Sample(0.0, x, f.channelCount, f.Position(r), c);
            var phase := r * f.numerator % f.denominator;
            f.Output(x, r)[c] * f.denominator as real
            == before * (f.denominator - phase) as real + here * phase as real
  {
    var before := Sample(0.0, x, f.channelCount, f.Position(r) - 1, c);
    var here := Sample(0.0, x, f.channelCount, f.Position(r), c);
    Weights(before, here, r * f.numerator % f.denominator, f.denominator);
  }

  lemma Weights(before: real, here: real, phase: int, den: int)
    requires 0 < den
    ensures (before + phase as real / den as real * (here - before)) * den as real
         == before * (den - phase) as real + here * phase as real
  {
    var t, d := phase as real / den as real, den as real;
    assert t * d == phase as real;
    assert (before + t * (here - before)) * d == before * d + t * d * (here - before);
    assert (den - phase) as real == d - phase as real;
  }

  /** A straight line comes out as the same line, read at the exact time of each output, one input
      frame late. */
  lemma LinearKeepsLines(f: Filter<real>, x: seq<Frame<real>>, r: nat, c: int, slope: real, start: real)
    requires f.Valid() && f.kind.Linear? && f.arith == RealArith()
    requires Frames(x, f.channelCount) && 0 <= c < f.channelCount && 1 <= f.Position(r) < |x|
    requires forall i :: f.Position(r) - 1 <= i <= f.Position(r) ==> x[i][c] == slope * i as real + start
    ensures f.Output(x, r)[c] == slope * ((r * f.numerator) as real / f.denominator as real - 1.0) + start
  {
    var n, den, p := r * f.numerator, f.denominator, f.Position(r);
    LinearWeights(f, x, r, c);
    LineAt(f.Output(x, r)[c], slope, start, n, p, n % den, den);
  }

  lemma LineAt(y: real, slope: real, start: real, n: int, p: int, phase: int, den: int)
    requires 0 < den && n == p * den + phase
    requires y * den as real == (slope * (p - 1) as real + start) * (den - phase) as real
                                + (slope * p as real + start) * phase as real
    ensures y == slope * (n as real / den as real - 1.0) + start
  {
    var d, q, f := den as real, p as real, phase as real;
    assert n as real == q * d + f;
    assert (p - 1) as real == q - 1.0 && (den - phase) as real == d - f;
    assert (slope * (q - 1.0) + start) * (d - f) + (slope * q + start) * f
        == slope * (q * d + f - d) + start * d;
    var t := n as real / d;
    assert t * d == q * d + f;
    assert (slope * (t - 1.0) + start) * d == slope * (t * d - d) + start * d;
    SameProduct(y, slope * (t - 1.0) + start, d);
  }

  lemma SameProduct(a: real, b: real, d: real)
    requires 0.0 < d && a * d == b * d
    ensures a == b
  {
    assert (a - b) * d == 0.0;
  }

  /** A linear output lies between the two frames it interpolates. */
  lemma LinearBetween(f: Filter<real>, x: seq<Frame<real>>, r: nat, c: int)
    requires f.Valid() && f.kind.Linear? && f.arith == RealArith()
    requires Frames(x, f.channelCount) && 0 <= c < f.channelCount
    ensures var f0 := Sample(0.0, x, f.channelCount, f.Position(r) - 1, c);
            var f1 := Sample(0.0, x, f.channelCount, f.Position(r), c);
            if f0 <= f1 then f0 <= f.Output(x, r)[c] <= f1 else f1 <= f.Output(x, r)[c] <= f0
  {
    var f0 := Sample(0.0, x, f.channelCount, f.Position(r) - 1, c);
    var f1 := Sample(0.0, x, f.channelCount, f.Position(r), c);
    FractionBetween(f0, f1, r * f.numerator % f.denominator, f.denominator);
  }

  lemma FractionBetween(f0: real, f1: real, p: int, q: int)
    requires 0 <= p < q
    ensures var y := f0 + (p as real / q as real) * (f1 - f0);
            if f0 <= f1 then f0 <= y <= f1 else f1 <= y <= f0
  {
  }
}
