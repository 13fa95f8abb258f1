/** The integer phase machine that decides between writing an input frame and reading an output
    frame (src/flowgraph/resampler/MultiChannelResampler.h). */
module Phase {
  import DivMod

  /** The phase after `w` writes and `r` reads: it starts at the denominator, a write takes the
      denominator off and a read puts the numerator on. */
  function PhaseAfter(w: int, r: int, num: int, den: int): int {
    den + r * num - w * den
  }

  lemma PhaseStep(w: int, r: int, num: int, den: int)
    ensures PhaseAfter(w + 1, r, num, den) == PhaseAfter(w, r, num, den) - den
    ensures PhaseAfter(w, r + 1, num, den) == PhaseAfter(w, r, num, den) + num
  {
  }

  /** When output `r` may be read, exactly `floor(r * num / den) + 1` frames have been written, and
      the phase is the remainder of that division. */
  lemma PhaseAtRead(w: int, r: int, num: int, den: int)
    requires 0 < den && 0 <= PhaseAfter(w, r, num, den) < den
    ensures w == r * num / den + 1
    ensures PhaseAfter(w, r, num, den) == r * num % den
  {
    DivMod.MulDistributes(w, 1, den);
    DivMod.Unique(r * num, den, w - 1, PhaseAfter(w, r, num, den));
  }

  /** When a write is needed, the outputs read so far are exactly those the `w` frames outputs. */
  lemma CountWhenStarved(w: int, r: int, num: int, den: int)
    requires 0 < num && 0 < den && den <= PhaseAfter(w, r, num, den) < den + num
    ensures r == DivMod.CeilDiv(w * den, num)
  {
    DivMod.MulDistributes(r, 1, num);
    DivMod.CeilDivUnique(w * den, num, r);
  }

  /** Outputs read never exceed what the frames written outputs. */
  lemma CountBound(w: int, r: int, num: int, den: int)
    requires 0 < num && 0 < den && 0 <= PhaseAfter(w, r, num, den) < den + num
    ensures r <= DivMod.CeilDiv(w * den, num)
    ensures PhaseAfter(w, r, num, den) < den ==> r < DivMod.CeilDiv(w * den, num)
  {
    var c := DivMod.CeilDiv(w * den, num);
    if c < r {
      DivMod.MulMonotone(c, r - 1, num);
      DivMod.MulDistributes(r, 1, num);
    }
  }

  /** Feeding `n` more frames to a drained machine yields the exact rate rounded down or up:
      the fraction is carried, never dropped. */
  lemma ChunkYield(w: nat, n: nat, num: int, den: int)
    requires 0 < num && 0 < den
    ensures var outputs := DivMod.CeilDiv((w + n) * den, num) - DivMod.CeilDiv(w * den, num);
            n * den / num <= outputs <= DivMod.CeilDiv(n * den, num)
  {
    var a, b := w * den, n * den;
    DivMod.MulDistributes(w, n, den);
    var p, q, s := DivMod.CeilDiv(a, num), DivMod.CeilDiv(b, num), DivMod.CeilDiv(a + b, num);
    if s > p + q {
      DivMod.MulMonotone(p + q, s - 1, num);
      DivMod.MulDistributes(p, q, num);
    }
    var f := b / num;
    if s < p + f {
      DivMod.MulMonotone(s, p - 1 + f, num);
      DivMod.MulDistributes(p - 1, f, num);
    }
  }

  /** The row cursor advances by one row per read and wraps after the last row. */
  lemma CursorStep(r: int, numTaps: int, den: int)
    requires 0 <= r && 0 < numTaps && 0 < den
    ensures 0 < den * numTaps
    ensures ((r % den) * numTaps + numTaps) % (den * numTaps) == ((r + 1) % den) * numTaps
  {
    var row := r % den;
    DivMod.MulMonotone(1, den, numTaps);
    DivMod.NextIndex(r, den);
    DivMod.MulDistributes(row, 1, numTaps);
    if row + 1 == den {
      DivMod.Unique(den * numTaps, den * numTaps, 1, 0);
    } else {
      DivMod.MulMonotone(0, row + 1, numTaps);
      DivMod.MulMonotone(row + 2, den, numTaps);
      DivMod.MulDistributes(row + 1, 1, numTaps);
      DivMod.Unique((row + 1) * numTaps, den * numTaps, 0, (row + 1) * numTaps);
    }
  }

  /** Row `r % den` belongs to the fractional phase of output `r`. */
  lemma RowPhase(r: int, num: int, den: int)
    requires 0 < den
    ensures ((r % den) * num) % den == (r * num) % den
  {
    DivMod.ModOfProduct(r, num, den);
  }
}
