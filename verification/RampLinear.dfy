/** A gain that ramps linearly to each new target (src/flowgraph/RampLinear.cpp), over the reals. */
module RampLinear {
  import opened Basics
  import DivMod

  const DEFAULT_LENGTH: int := 480

  function Abs(x: real): real {
    if x < 0.0 then -x else x
  }

  /** A ramp from one level to another with `remaining` frames to go. */
  datatype Ramp = Ramp(from: real, to: real, remaining: nat, scaler: real) {
    /** The level of the next frame. */
    function Interpolate(): real {
      to - remaining as real * scaler
    }

    /** The ramp after `n` more frames. */
    function After(n: nat): Ramp {
      this.(remaining := if n < remaining then remaining - n else 0)
    }

    /** The gain of frame `k` from here. */
    function Gain(k: nat): real {
      After(k).Interpolate()
    }

    function Gains(n: nat): (gains: seq<real>)
      ensures |gains| == n && forall k :: 0 <= k < n ==> gains[k] == Gain(k)
    {
      seq(n, k requires 0 <= k < n => Gain(k))
    }

    /** A different target starts a new ramp from the current level. */
    function Toward(target: real, length: int): Ramp
      requires 0 < length
    {
      if target == to then this
      else Ramp(Interpolate(), target, length, (target - Interpolate()) / length as real)
    }
  }

  function Amplify(sample: real, gain: real): real {
    sample * gain
  }

  /** Gain one passes a sample, gain zero silences it, and the output is linear in the sample and in
      the gain. */
  lemma AmplifyIsLinear(x: real, y: real, gain: real, other: real)
    ensures Amplify(x, 1.0) == x && Amplify(x, 0.0) == 0.0
    ensures Amplify(x + y, gain) == Amplify(x, gain) + Amplify(y, gain)
    ensures Amplify(x, gain + other) == Amplify(x, gain) + Amplify(x, other)
  {
  }

  // ---------------------------------------------------------------- one ramp

  /** The gains do not depend on how the frames are cut into blocks. */
  lemma GainsSplit(r: Ramp, m: nat, n: nat)
    ensures r.Gains(m + n) == r.Gains(m) + r.After(m).Gains(n)
    ensures r.After(m).After(n) == r.After(m + n)
  {
  }

  /** Frame by frame the gain changes by the slope until the ramp ends, and then not at all. */
  lemma OneFrame(r: Ramp, k: nat)
    ensures r.Gain(k + 1) == if k < r.remaining then r.Gain(k) + r.scaler else r.Gain(k)
    ensures r.remaining <= k ==> r.Gain(k) == r.to
  {
  }

  /** The gain never leaves the range between the current level and the end level. */
  lemma Between(r: Ramp, k: nat)
    ensures r.Interpolate() <= r.Gain(k) <= r.to || r.to <= r.Gain(k) <= r.Interpolate()
  {
  }

  /** A new ramp continues from the current level, climbs or falls by equal steps, and reaches its
      target after exactly its length in frames, unless it is already there. */
  lemma NewRamp(r: Ramp, target: real, length: int, k: nat)
    requires 0 < length && target != r.to
    ensures var ramp := r.Toward(target, length);
            && ramp.from == r.Interpolate() == ramp.Gain(0)
            && ramp.scaler * length as real == target - r.Interpolate()
            && (k <= length ==> ramp.Gain(k) == r.Interpolate() + k as real * ramp.scaler)
            && (ramp.Gain(k) == target <==> length <= k || r.Interpolate() == target)
  {
  }

  // ---------------------------------------------------------------- runs

  datatype State = State(ramp: Ramp, target: real, length: int, used: bool) {
    predicate Valid() {
      0 < length
    }
  }

  const INITIAL: State := State(Ramp(0.0, 0.0, 0, 0.0), 1.0, DEFAULT_LENGTH, false)

  datatype Event = SetTarget(target: real) | SetLength(length: int) | Process(frames: nat) | Reset

  predicate Allowed(e: Event) {
    e.SetLength? ==> 0 < e.length
  }

  function Next(s: State, e: Event): (s': State)
    requires s.Valid() && Allowed(e)
    ensures s'.Valid()
  {
    match e
    case SetTarget(target) =>
      // A ramp that has not been used starts at the target.
      if s.used then s.(target := target) else s.(target := target, ramp := s.ramp.(from := target, to := target))
    case SetLength(length) => s.(length := length)
    case Process(n) => s.(ramp := Started(s, n).After(n), used := true)
    case Reset => s.(used := false)
  }

  /** The ramp that a block of `n` frames follows; an empty block is not processed at all. */
  function Started(s: State, n: nat): Ramp
    requires s.Valid()
  {
    if n == 0 then s.ramp else s.ramp.Toward(s.target, s.length)
  }

  /** The gains of all frames of a run, in order. */
  function RunGains(s: State, events: seq<Event>): seq<real>
    requires s.Valid() && forall e :: e in events ==> Allowed(e)
    decreases |events|
  {
    if |events| == 0 then []
    else (if events[0].Process? then Started(s, events[0].frames).Gains(events[0].frames) else [])
         + RunGains(Next(s, events[0]), events[1..])
  }

  function TotalFrames(blocks: seq<Event>): nat {
    if |blocks| == 0 then 0
    else (if blocks[0].Process? then blocks[0].frames else 0) + TotalFrames(blocks[1..])
  }

  /** Without retargeting, any series of blocks gives the gains of one block of the total length. */
  lemma {:induction false} BlocksDoNotMatter(s: State, blocks: seq<Event>)
    requires s.Valid() && forall e :: e in blocks ==> e.Process?
    ensures RunGains(s, blocks) == Started(s, TotalFrames(blocks)).Gains(TotalFrames(blocks))
    decreases |blocks|
  {
    if |blocks| > 0 {
      var n, rest := blocks[0].frames, TotalFrames(blocks[1..]);
      var s' := Next(s, blocks[0]);
      BlocksDoNotMatter(s', blocks[1..]);
      GainsSplit(Started(s, n + rest), n, rest);
      assert 0 < n ==> Started(s', rest) == s'.ramp;
      assert Started(s, n + rest).After(0) == Started(s, n + rest);
    }
  }

  /** All levels lie between `lo` and `hi`, and no slope is steeper than `step`. */
  ghost predicate Gentle(s: State, lo: real, hi: real, shortest: int, step: real) {
    && s.Valid() && shortest <= s.length
    && lo <= s.target <= hi && lo <= s.ramp.to <= hi && lo <= s.ramp.Interpolate() <= hi
    && Abs(s.ramp.scaler) <= step && (!s.used ==> s.ramp.remaining == 0)
  }

  ghost predicate GentleEvent(e: Event, lo: real, hi: real, shortest: int) {
    match e
    case SetTarget(target) => lo <= target <= hi
    case SetLength(length) => shortest <= length
    case Process(_) => true
    case Reset => false
  }

  /** Gains within a range, with no step between neighbours larger than `step`. */
  ghost predicate Smooth(gains: seq<real>, lo: real, hi: real, step: real) {
    && (forall g :: g in gains ==> lo <= g <= hi)
    && (forall i, j :: 0 <= i && j == i + 1 < |gains| ==> Abs(gains[j] - gains[i]) <= step)
  }

  lemma NoneSmooth(lo: real, hi: real, step: real)
    ensures Smooth([], lo, hi, step)
  {
  }

  lemma GentleIsValid(s: State, lo: real, hi: real, shortest: int, step: real)
    requires Gentle(s, lo, hi, shortest, step)
    ensures s.Valid()
  {
  }

  lemma GentleStart(s: State, n: nat, lo: real, hi: real, shortest: int, step: real)
    requires 0 < shortest && hi - lo <= step * shortest as real && Gentle(s, lo, hi, shortest, step)
    ensures Gentle(s.(ramp := Started(s, n), used := true), lo, hi, shortest, step)
    ensures Started(s, n).Interpolate() == s.ramp.Interpolate()
  {
    hide Ramp.Interpolate, Ramp.Toward;
    var r := Started(s, n);
    if n > 0 && s.target != s.ramp.to {
      TowardSlope(s.ramp, s.target, s.length);
      SlopeBound(r.scaler, s.length, shortest, hi - lo, s.target - s.ramp.Interpolate(), step);
    } else {
      StaysOn(s, n);
    }
  }

  lemma TowardSlope(r: Ramp, target: real, length: int)
    requires 0 < length && target != r.to
    ensures var ramp := r.Toward(target, length);
            && ramp.to == target && ramp.Interpolate() == r.Interpolate()
            && ramp.scaler * length as real == target - r.Interpolate()
  {
  }

  lemma StaysOn(s: State, n: nat)
    requires s.Valid() && (n == 0 || s.target == s.ramp.to)
    ensures Started(s, n) == s.ramp
  {
  }

  lemma SlopeBound(slope: real, length: int, shortest: int, range: real, change: real, step: real)
    requires 0 < shortest <= length && slope * length as real == change
    requires Abs(change) <= range <= step * shortest as real
    ensures Abs(slope) <= step
  {
  }

  /** Over a whole run, with any blocks, targets and lengths: while all targets lie between `lo` and
      `hi`, so does every gain, and from one frame to the next the gain moves by at most
      `(hi - lo) / shortest`, the steepest slope there can be. */
  lemma {:induction false} NoPops(s: State, events: seq<Event>, lo: real, hi: real, shortest: int, step: real)
    requires 0 < shortest && hi - lo <= step * shortest as real && Gentle(s, lo, hi, shortest, step)
    requires forall e :: e in events ==> Allowed(e) && GentleEvent(e, lo, hi, shortest)
    ensures Smooth(RunGains(s, events), lo, hi, step)
    ensures s.used && 0 < |RunGains(s, events)| ==> RunGains(s, events)[0] == s.ramp.Interpolate()
    decreases |events|
  {
    hide Gentle, Next, Started, Ramp.Interpolate, Ramp.Gains, Smooth;
    if |events| == 0 {
      NoneSmooth(lo, hi, step);
    } else {
      GentleIsValid(s, lo, hi, shortest, step);
      var s' := Next(s, events[0]);
      var rest := RunGains(s', events[1..]);
      if events[0].Process? {
        var n := events[0].frames;
        var r := Started(s, n);
        GentleProcess(s, n, lo, hi, shortest, step);
        NoPops(s', events[1..], lo, hi, shortest, step);
        SmoothJoin(r.Gains(n), rest, lo, hi, step);
      } else {
        GentleNext(s, events[0], lo, hi, shortest, step);
        NoPops(s', events[1..], lo, hi, shortest, step);
        assert RunGains(s, events) == rest;
      }
    }
  }

  lemma GentleNext(s: State, e: Event, lo: real, hi: real, shortest: int, step: real)
    requires Gentle(s, lo, hi, shortest, step) && GentleEvent(e, lo, hi, shortest) && !e.Process? && Allowed(e)
    ensures Gentle(Next(s, e), lo, hi, shortest, step)
    ensures s.used ==> Next(s, e).used && Next(s, e).ramp == s.ramp
  {
  }

  lemma GentleAfter(s: State, n: nat, lo: real, hi: real, shortest: int, step: real)
    requires Gentle(s, lo, hi, shortest, step) && s.used
    ensures Gentle(s.(ramp := s.ramp.After(n)), lo, hi, shortest, step)
  {
    Between(s.ramp, n);
  }

  lemma GentleProcess(s: State, n: nat, lo: real, hi: real, shortest: int, step: real)
    requires 0 < shortest && hi - lo <= step * shortest as real && Gentle(s, lo, hi, shortest, step)
    ensures Smooth(Started(s, n).Gains(n), lo, hi, step)
    ensures 0 < n ==> Started(s, n).Gains(n)[0] == s.ramp.Interpolate()
    ensures 0 < n ==> Abs(Next(s, Process(n)).ramp.Interpolate() - Started(s, n).Gains(n)[n - 1]) <= step
    ensures n == 0 ==> Next(s, Process(n)).ramp.Interpolate() == s.ramp.Interpolate()
    ensures Next(s, Process(n)).used && Gentle(Next(s, Process(n)), lo, hi, shortest, step)
  {
    hide Ramp.Interpolate, Smooth, Started;
    var r := Started(s, n);
    GentleStart(s, n, lo, hi, shortest, step);
    GentleBlock(r, n, lo, hi, step);
    GentleAfter(s.(ramp := r, used := true), n, lo, hi, shortest, step);
    assert Next(s, Process(n)) == s.(ramp := r.After(n), used := true);
    assert r.After(0) == r;
  }

  /** Within a block, and into the next frame. */
  lemma GentleBlock(r: Ramp, n: nat, lo: real, hi: real, step: real)
    requires lo <= r.to <= hi && lo <= r.Interpolate() <= hi && Abs(r.scaler) <= step
    ensures Smooth(r.Gains(n), lo, hi, step)
    ensures 0 < n ==> Abs(r.After(n).Interpolate() - r.Gains(n)[n - 1]) <= step
  {
    hide Ramp.Interpolate;
    assert r.Gain(n) == r.After(n).Interpolate();
    forall k: nat
      ensures lo <= r.Gain(k) <= hi
    {
      Between(r, k);
    }
    forall k: nat, j | j == k + 1
      ensures Abs(r.Gain(j) - r.Gain(k)) <= step
    {
      OneFrame(r, k);
    }
  }

  lemma SmoothJoin(a: seq<real>, b: seq<real>, lo: real, hi: real, step: real)
    requires Smooth(a, lo, hi, step) && Smooth(b, lo, hi, step)
    requires 0 < |a| && 0 < |b| ==> Abs(b[0] - a[|a| - 1]) <= step
    ensures Smooth(a + b, lo, hi, step) && (0 < |a| ==> (a + b)[0] == a[0]) && (|a| == 0 ==> a + b == b)
  {
    hide Abs;
    forall i, j | 0 <= i && j == i + 1 < |a + b|
      ensures Abs((a + b)[j] - (a + b)[i]) <= step
    {
      JoinAt(a, b, i, j, step);
    }
  }

  lemma JoinAt(a: seq<real>, b: seq<real>, i: int, j: int, step: real)
    requires 0 <= i && j == i + 1 < |a + b|
    requires forall m, n :: 0 <= m && n == m + 1 < |a| ==> Abs(a[n] - a[m]) <= step
    requires forall m, n :: 0 <= m && n == m + 1 < |b| ==> Abs(b[n] - b[m]) <= step
    requires 0 < |a| && 0 < |b| ==> Abs(b[0] - a[|a| - 1]) <= step
    ensures Abs((a + b)[j] - (a + b)[i]) <= step
  {
  }

  /** A target set in this state is the gain of every frame that follows. */
  ghost predicate Immediate(s: State, target: real)
    requires s.Valid()
  {
    forall n: nat :: forall g :: g in RunGains(s, [SetTarget(target), Process(n)]) ==> g == target
  }

  /** A target set before the ramp is used takes effect at once, as intended, exactly when no part of
      an earlier ramp is left. */
  lemma ImmediateExactlyWhenIdle(s: State, target: real)
    requires s.Valid() && !s.used
    ensures Immediate(s, target) <==> s.ramp.remaining as real * s.ramp.scaler == 0.0
  {
    var s' := Next(s, SetTarget(target));
    forall n: nat
      ensures RunGains(s, [SetTarget(target), Process(n)]) == s'.ramp.Gains(n)
    {
      assert [SetTarget(target), Process(n)][1..] == [Process(n)];
      assert [Process(n)][1..] == [];
      assert RunGains(s', [Process(n)]) == Started(s', n).Gains(n);
    }
    assert s'.ramp.After(0) == s'.ramp && s'.ramp.Gains(1)[0] == s'.ramp.Gain(0);
    if s.ramp.remaining as real * s.ramp.scaler == 0.0 {
      forall k: nat
        ensures s'.ramp.Gain(k) == target
      {
        Between(s'.ramp, k);
      }
    } else {
      assert s'.ramp.Gain(0) in RunGains(s, [SetTarget(target), Process(1)]);
    }
  }

  function StateAfter(s: State, events: seq<Event>): (s': State)
    requires s.Valid() && forall e :: e in events ==> Allowed(e)
    ensures s'.Valid()
    decreases |events|
  {
    if |events| == 0 then s else StateAfter(Next(s, events[0]), events[1..])
  }

  lemma {:induction false} StateAfterBoth(s: State, a: seq<Event>, b: seq<Event>)
    requires s.Valid() && forall e :: e in a + b ==> Allowed(e)
    requires (forall e :: e in a ==> Allowed(e)) && forall e :: e in b ==> Allowed(e)
    ensures StateAfter(s, a + b) == StateAfter(StateAfter(s, a), b)
    decreases |a|
  {
    if |a| == 0 {
      assert a + b == b;
    } else {
      assert (a + b)[1..] == a[1..] + b;
      StateAfterBoth(Next(s, a[0]), a[1..], b);
    }
  }

  lemma {:induction false} StateAfterBlocks(s: State, blocks: seq<Event>)
    requires s.Valid() && s.used && forall e :: e in blocks ==> e.Process?
    ensures var n := TotalFrames(blocks);
            StateAfter(s, blocks) == s.(ramp := Started(s, n).After(n))
    decreases |blocks|
  {
    assert s.ramp.After(0) == s.ramp;
    if |blocks| > 0 {
      var n, rest := blocks[0].frames, TotalFrames(blocks[1..]);
      StateAfterBlocks(Next(s, blocks[0]), blocks[1..]);
      GainsSplit(Started(s, n + rest), n, rest);
      assert Started(s, n + rest).After(0) == Started(s, n + rest);
    }
  }

  /** A ramp of `length` frames from level `a` toward `b`, in any blocks, and a reset. */
  function RampThenReset(a: real, b: real, length: int, used: nat, blocks: seq<Event>): seq<Event> {
    [SetLength(length), SetTarget(a), Process(used), SetTarget(b)] + blocks + [Reset]
  }

  /** Whether the next target takes effect at once can be told from the calls made: it does exactly
      when the ramp had no way to go, had not begun, or ran its length before the reset. */
  lemma ImmediateExactlyWhenRunOut(a: real, b: real, length: int, used: nat, blocks: seq<Event>, target: real)
    requires 0 < length && forall e :: e in blocks ==> e.Process?
    ensures (forall e :: e in RampThenReset(a, b, length, used, blocks) ==> Allowed(e))
            && (Immediate(StateAfter(INITIAL, RampThenReset(a, b, length, used, blocks)), target)
                <==> a == b || TotalFrames(blocks) == 0 || length <= TotalFrames(blocks))
  {
    var n := TotalFrames(blocks);
    var start := [SetLength(length), SetTarget(a), Process(used), SetTarget(b)];
    StateAfterBoth(INITIAL, start + blocks, [Reset]);
    StateAfterBoth(INITIAL, start, blocks);
    var s := StateAfter(INITIAL, start);
    AtLevel(a, b, length, used);
    StateAfterBlocks(s, blocks);
    var s' := StateAfter(INITIAL, RampThenReset(a, b, length, used, blocks));
    assert s' == Next(StateAfter(s, blocks), Reset);
    ImmediateExactlyWhenIdle(s', target);
    if a != b && 0 < n < length {
      SlopeLeft(a, b, length, n);
    }
  }

  lemma StateAfterTwo(s: State, e: Event, e': Event)
    requires s.Valid() && Allowed(e) && Allowed(e')
    ensures StateAfter(s, [e, e']) == Next(Next(s, e), e')
  {
    assert [e, e'][0] == e && [e, e'][1..] == [e'] && [e'][1..] == [];
    assert StateAfter(Next(s, e), [e']) == Next(Next(s, e), e');
  }

  lemma AtLevel(a: real, b: real, length: int, used: nat)
    requires 0 < length
    ensures StateAfter(INITIAL, [SetLength(length), SetTarget(a), Process(used), SetTarget(b)])
         == State(Ramp(a, a, 0, 0.0), b, length, true)
  {
    var s := Next(Next(INITIAL, SetLength(length)), SetTarget(a));
    assert Started(s, used) == s.ramp && s.ramp.After(used) == s.ramp;
    StateAfterTwo(INITIAL, SetLength(length), SetTarget(a));
    StateAfterTwo(s, Process(used), SetTarget(b));
    StateAfterBoth(INITIAL, [SetLength(length), SetTarget(a)], [Process(used), SetTarget(b)]);
    assert [SetLength(length), SetTarget(a), Process(used), SetTarget(b)]
        == [SetLength(length), SetTarget(a)] + [Process(used), SetTarget(b)];
  }

  lemma SlopeLeft(a: real, b: real, length: int, n: nat)
    requires n < length && a != b
    ensures (length - n) as real * ((b - a) / length as real) != 0.0
  {
    var slope := (b - a) / length as real;
    assert slope * length as real == b - a;
  }

  /** A reset in the middle of a ramp: the gain that should start at one half starts below zero. */
  lemma NotImmediateAfterReset()
    ensures RunGains(INITIAL, [Process(1), Reset, SetTarget(0.5), Process(1)])[1..] == [0.5 - 479.0 / 480.0]
  {
  }

  // ---------------------------------------------------------------- the node

  class RampLinear {
    const channelCount: int
    const input: array<real>   // what the input port holds
    const output: array<real>
    var target: real
    var lengthInFrames: int
    var remaining: int
    var scaler: real
    var levelFrom: real
    var levelTo: real
    var lastCallCount: int
    var lastFrameCount: int

    ghost predicate Valid()
      reads this
    {
      && 0 < channelCount && input != output && input.Length == output.Length
      && 0 <= remaining && 0 < lengthInFrames
    }

    ghost function Current(): State
      requires Valid()
      reads this
    {
      State(Ramp(levelFrom, levelTo, remaining, scaler), target, lengthInFrames,
            lastCallCount != INITIAL_CALL_COUNT)
    }

    constructor (channelCount: int, input: array<real>)
      requires 0 < channelCount
      ensures Valid() && Current() == INITIAL && this.channelCount == channelCount && this.input == input
      ensures fresh(output)
    {
      this.channelCount := channelCount;
      this.input := input;
      output := new real[input.Length];
      target, lengthInFrames, remaining, scaler := 1.0, DEFAULT_LENGTH, 0, 0.0;
      levelFrom, levelTo := 0.0, 0.0;
      lastCallCount, lastFrameCount := INITIAL_CALL_COUNT, 0;
    }

    method SetLengthInFrames(frames: int)
      requires Valid() && 0 < frames
      modifies this`lengthInFrames
      ensures Valid() && Current() == Next(old(Current()), Event.SetLength(frames))
    {
      lengthInFrames := frames;
    }

    method SetTarget(target: real)
      requires Valid()
      modifies this`target, this`levelFrom, this`levelTo
      ensures Valid() && Current() == Next(old(Current()), Event.SetTarget(target))
    {
      this.target := target;
      // Nothing has been heard yet, so no ramp is needed.
      if lastCallCount == INITIAL_CALL_COUNT {
        ForceCurrent(target);
      }
    }

    method ForceCurrent(level: real)
      modifies this`levelFrom, this`levelTo
      ensures levelFrom == level && levelTo == level
    {
      levelFrom := level;
      levelTo := level;
    }

    method Reset()
      requires Valid()
      modifies this`lastCallCount, this`lastFrameCount
      ensures Valid() && Current() == Next(old(Current()), Event.Reset) && lastFrameCount == 0
    {
      lastFrameCount := 0;
      lastCallCount := INITIAL_CALL_COUNT;
    }

    function InterpolateCurrent(): real
      reads this`levelTo, this`remaining, this`scaler
    {
      levelTo - remaining as real * scaler
    }

    /** Pulls `numFrames` frames under a new call count: the frames in the input port come out, each
        with the gain that the run gives it. */
    method PullData(callCount: int, numFrames: int)
      requires Valid() && lastCallCount < callCount && 0 <= callCount
      requires 0 <= numFrames && numFrames * channelCount <= output.Length
      modifies this, output
      ensures Valid() && Current() == Next(old(Current()), Event.Process(numFrames))
      ensures lastCallCount == callCount && lastFrameCount == numFrames
      ensures Scaled(Started(old(Current()), numFrames).Gains(numFrames))
    {
      lastCallCount := callCount;
      if numFrames > 0 {
        OnProcess(numFrames);
      }
      lastFrameCount := numFrames;
    }

    /** The output frames are the input frames, each sample times the gain of its frame. */
    ghost predicate Scaled(gains: seq<real>)
      reads input, output
    {
      && |gains| * channelCount <= output.Length == input.Length
      && forall i :: 0 <= i < |gains| ==> FrameScaled(i, gains[i])
    }

    ghost predicate FrameScaled(i: int, gain: real)
      reads input, output
    {
      && 0 <= i * channelCount <= i * channelCount + channelCount <= output.Length == input.Length
      && forall c :: i * channelCount <= c < i * channelCount + channelCount ==> output[c] == Amplify(input[c], gain)
    }

    /** Scales frame `|gains|`, after the frames before it. */
    method ScaleNext(ghost gains: seq<real>, level: real, i: int, numFrames: int)
      requires Valid() && 0 <= i < numFrames && numFrames * channelCount <= output.Length
      requires |gains| == i && Scaled(gains)
      modifies output
      ensures Scaled(gains + [level])
    {
      hide Amplify;
      FrameFits(i, numFrames);
      ScaleFrame(i, level, numFrames);
      forall j | 0 <= j < i
        ensures FrameScaled(j, gains[j])
      {
        assert old(FrameScaled(j, gains[j]));
        DivMod.MulMonotone(j + 1, i, channelCount);
        DivMod.MulDistributes(j, 1, channelCount);
      }
    }

    method OnProcess(numFrames: int)
      requires Valid() && 0 < numFrames && numFrames * channelCount <= output.Length
      modifies output, this`levelFrom, this`levelTo, this`remaining, this`scaler
      ensures Valid() && Current().ramp == Started(old(Current()), numFrames).After(numFrames)
      ensures Scaled(Started(old(Current()), numFrames).Gains(numFrames))
    {
      hide Ramp.Toward, Ramp.Gains, Scaled;
      StartRamp();
      ghost var ramp := Current().ramp;
      NothingScaled(ramp);
      var framesLeft := numFrames;
      if remaining > 0 {
        var framesToRamp := Min(framesLeft, remaining);
        framesLeft := framesLeft - framesToRamp;
        RampFrames(framesToRamp, numFrames);
      }
      HoldLevel(numFrames - framesLeft, numFrames, ramp);
    }

    lemma LevelNow()
      requires Valid()
      ensures InterpolateCurrent() == Current().ramp.Interpolate()
    {
    }

    /** A new target starts a new ramp, which takes over where the old one is. */
    method StartRamp()
      requires Valid()
      modifies this`levelFrom, this`levelTo, this`remaining, this`scaler
      ensures Valid() && Current() == old(Current()).(ramp := old(Current().ramp.Toward(target, lengthInFrames)))
      ensures levelTo == target
    {
      hide InterpolateCurrent, Ramp.Interpolate;
      LevelNow();
      if target != levelTo {
        levelFrom := InterpolateCurrent();
        levelTo := target;
        remaining := lengthInFrames;
        scaler := (levelTo - levelFrom) / lengthInFrames as real;
      }
    }

    lemma NothingScaled(ramp: Ramp)
      requires Valid()
      ensures Scaled(ramp.Gains(0)) && ramp.After(0) == ramp
    {
    }

    /** The level of this frame is its gain. */
    lemma RampStep(ramp: Ramp, i: nat)
      requires Valid() && Current().ramp == ramp.After(i)
      ensures |ramp.Gains(i)| == i && ramp.Gains(i + 1) == ramp.Gains(i) + [InterpolateCurrent()]
      ensures remaining == 0 ==> InterpolateCurrent() == levelTo
      ensures ramp.After(i).After(1) == ramp.After(i + 1)
    {
    }

    /** The frames of the ramp. */
    method RampFrames(count: int, numFrames: int)
      requires Valid() && 0 <= count <= remaining && count <= numFrames
      requires numFrames * channelCount <= output.Length
      modifies output, this`remaining
      ensures Valid() && Current().ramp == old(Current().ramp).After(count)
      ensures Scaled(old(Current().ramp).Gains(count))
    {
      hide Scaled, Ramp.Gain, Ramp.Gains, Ramp.Interpolate, InterpolateCurrent;
      ghost var ramp := Current().ramp;
      NothingScaled(ramp);
      var framesToRamp := count;
      while framesToRamp > 0
        invariant Valid() && 0 <= framesToRamp <= count
        invariant Current().ramp == ramp.After(count - framesToRamp)
        invariant Scaled(ramp.Gains(count - framesToRamp))
      {
        var currentLevel := InterpolateCurrent();
        RampStep(ramp, count - framesToRamp);
        ScaleNext(ramp.Gains(count - framesToRamp), currentLevel, count - framesToRamp, numFrames);
        remaining := remaining - 1;
        framesToRamp := framesToRamp - 1;
      }
    }

    /** The frames after the ramp. */
    method HoldLevel(first: int, numFrames: int, ghost ramp: Ramp)
      requires Valid() && 0 <= first <= numFrames && numFrames * channelCount <= output.Length
      requires Current().ramp == ramp.After(first) && (first < numFrames ==> remaining == 0)
      requires Scaled(ramp.Gains(first))
      modifies output
      ensures Current().ramp == ramp.After(numFrames)
      ensures Scaled(ramp.Gains(numFrames))
    {
      hide Scaled, Ramp.Gain, Ramp.Gains, Ramp.Interpolate;
      var i := first;
      while i < numFrames
        invariant first <= i <= numFrames
        invariant Scaled(ramp.Gains(i))
      {
        RampStep(ramp, i);
        ScaleNext(ramp.Gains(i), levelTo, i, numFrames);
        i := i + 1;
      }
    }

    lemma FrameFits(i: int, numFrames: int)
      requires Valid() && 0 <= i < numFrames && numFrames * channelCount <= output.Length
      ensures 0 <= i * channelCount && i * channelCount + channelCount == (i + 1) * channelCount <= output.Length
    {
    }

    /** Scales the samples of frame `i`. */
    method ScaleFrame(i: int, level: real, numFrames: int)
      requires Valid() && 0 <= i < numFrames && numFrames * channelCount <= output.Length
      modifies output
      ensures FrameScaled(i, level)
      ensures forall k :: 0 <= k < output.Length && !(i * channelCount <= k < i * channelCount + channelCount) ==>
                output[k] == old(output[k])
    {
      hide Amplify;
      FrameFits(i, numFrames);
      var base := i * channelCount;
      for ch := 0 to channelCount
        invariant forall c :: base <= c < base + ch ==> output[c] == Amplify(input[c], level)
        invariant forall k :: 0 <= k < output.Length && !(base <= k < base + ch) ==>
                    output[k] == old(output[k])
      {
        output[base + ch] := Amplify(input[base + ch], level);
      }
    }
  }
}
