/** Packet loss concealment: one sample array, read, overwritten and shifted in place, against a
    model that keeps only the last LHIST output samples and, during a loss, the lag and the tail.
    Floating point is modelled by real numbers; the correlation is a parameter. */
module Plc {

  const FS := 120
  const N := 256
  const M := 64
  const LHIST := 375
  const SBCRT := 36
  const OLAL := 16
  const TAIL := 52

  const RCOS: seq<real> := [
    0.99148655, 0.96623611, 0.92510857, 0.86950446, 0.80131732, 0.72286918, 0.63683150, 0.54613418,
    0.45386582, 0.36316850, 0.27713082, 0.19868268, 0.13049554, 0.07489143, 0.03376389, 0.00851345]

  datatype Option<T> = None | Some(value: T)

  /** CrossCorrelation of the template and a stretch of the history; None is NaN. */
  type Correlation = (seq<int>, seq<int>) -> Option<real>

  function Silence(n: nat): (r: seq<int>)
    ensures |r| == n
  {
    seq(n, _ => 0)
  }

  /** The correlation with a silent template is 0 / 0. */
  ghost predicate SilentIsNaN(corr: Correlation) {
    forall y: seq<int> :: |y| == M ==> corr(Silence(M), y) == None
  }

  // ----- pattern and amplitude matching

  function Score(corr: Correlation, window: seq<int>, n: nat): Option<real>
    requires |window| == LHIST && n < N
  {
    corr(window[LHIST - M..], window[n..n + M])
  }

  datatype Match = Match(lag: nat, best: real)

  /** The search after the first n lags. */
  function Search(corr: Correlation, window: seq<int>, n: nat): (r: Match)
    requires |window| == LHIST && n <= N
    ensures r.lag < N && (n > 0 ==> r.lag < n)
  {
    if n == 0 then Match(0, -999999.0)
    else
      var m := Search(corr, window, n - 1);
      match Score(corr, window, n - 1)
      case Some(c) => if c > m.best then Match(n - 1, c) else m
      case None => m
  }

  function BestMatch(corr: Correlation, window: seq<int>): (r: nat)
    requires |window| == LHIST
    ensures r < N
  {
    Search(corr, window, N).lag
  }

  function Abs(x: int): int {
    if x < 0 then -x else x
  }

  function SumAbs(s: seq<int>): int {
    if s == [] then 0 else SumAbs(s[..|s| - 1]) + Abs(s[|s| - 1])
  }

  lemma {:induction false} SumAbsNonNegative(s: seq<int>)
    ensures SumAbs(s) >= 0
  {
    if s != [] {
      SumAbsNonNegative(s[..|s| - 1]);
    }
  }

  function Clamp(x: real, lo: real, hi: real): real {
    if x < lo then lo else if x > hi then hi else x
  }

  /** AmplitudeMatch over the history and what follows it. */
  function Gain(y: seq<int>, lag: nat): real
    requires |y| >= LHIST && lag + FS <= |y|
  {
    SumAbsNonNegative(y[lag..lag + FS]);
    Clamp(SumAbs(y[LHIST - FS..LHIST]) as real / (0.000001 + SumAbs(y[lag..lag + FS]) as real), 0.75, 1.2)
  }

  // ----- one sample

  /** (short)x: towards zero. */
  function Trunc(x: real): int {
    if x < 0.0 then -(-x).Floor else x.Floor
  }

  function ToShort(x: real): int {
    Trunc(Clamp(x, -32768.0, 32767.0))
  }

  function Scaled(gain: real, source: int): real {
    gain * source as real
  }

  /** From the decoder's response to the scaled pattern. */
  function FadeIn(zir: int, gain: real, source: int, k: nat): real
    requires k < OLAL
  {
    zir as real * RCOS[k] + gain * source as real * RCOS[OLAL - 1 - k]
  }

  /** From the scaled pattern to the pattern. */
  function FadeOut(gain: real, source: int, k: nat): real
    requires k < OLAL
  {
    gain * source as real * RCOS[k] + source as real * RCOS[OLAL - 1 - k]
  }

  /** The first frame of a loss fades from the decoder's response into the scaled pattern and back
      to the unscaled one; later frames repeat the pattern. */
  datatype Fade = First(zir: seq<int>, gain: real) | Later

  /** Sample k of a concealed frame and its tail, made from the sample one period earlier. */
  function Concealed(fade: Fade, k: nat, source: int): int
    requires k < FS + TAIL && (fade.First? ==> |fade.zir| == FS)
  {
    match fade
    case Later => source
    case First(zir, gain) =>
      if k < OLAL then ToShort(FadeIn(zir[k], gain, source, k))
      else if k < FS then ToShort(Scaled(gain, source))
      else if k < FS + OLAL then ToShort(FadeOut(gain, source, k - FS))
      else source
  }

  /** The history followed by the first k concealed samples. */
  function Extend(window: seq<int>, lag: nat, fade: Fade, k: nat): (r: seq<int>)
    requires |window| == LHIST && lag < LHIST && k <= FS + TAIL && (fade.First? ==> |fade.zir| == FS)
    ensures |r| == LHIST + k
  {
    if k == 0 then window
    else
      var s := Extend(window, lag, fade, k - 1);
      s + [Concealed(fade, k - 1, s[lag + k - 1])]
  }

  /** One sample of the cross-fade back to the decoder. */
  function Blend(tail: int, received: int, i: nat): int
    requires i < OLAL
  {
    Trunc(tail as real * RCOS[i] + received as real * RCOS[OLAL - 1 - i])
  }

  // ----- the model

  datatype Burst = Burst(lag: nat, tail: seq<int>)
  datatype State = State(window: seq<int>, burst: Option<Burst>)

  predicate StateValid(s: State) {
    && |s.window| == LHIST
    && (s.burst.Some? ==> M <= s.burst.value.lag < M + N && |s.burst.value.tail| == TAIL)
  }

  datatype Step = Step(next: State, out: seq<int>)

  function Fading(corr: Correlation, s: State, zir: seq<int>): (r: (nat, Fade))
    requires StateValid(s) && |zir| == FS
    ensures M <= r.0 < M + N && (r.1.First? ==> |r.1.zir| == FS)
  {
    if s.burst.Some? then (s.burst.value.lag, Later)
    else
      var lag := BestMatch(corr, s.window) + M;
      (lag, First(zir, Gain(s.window + s.window[LHIST - FS..], lag)))
  }

  function BadStep(corr: Correlation, s: State, zir: seq<int>): (r: Step)
    requires StateValid(s) && |zir| == FS
    ensures StateValid(r.next) && |r.out| == FS
  {
    var (lag, fade) := Fading(corr, s, zir);
    var all := Extend(s.window, lag, fade, FS + TAIL);
    Step(State(all[FS..LHIST + FS], Some(Burst(lag, all[LHIST + FS..]))), all[LHIST..LHIST + FS])
  }

  function GoodOut(s: State, input: seq<int>): (r: seq<int>)
    requires StateValid(s) && |input| == FS
    ensures |r| == FS
  {
    seq(FS, i requires 0 <= i < FS =>
      if s.burst.Some? && i < SBCRT then s.burst.value.tail[i]
      else if s.burst.Some? && i < TAIL then Blend(s.burst.value.tail[i], input[i], i - SBCRT)
      else input[i])
  }

  function GoodStep(s: State, input: seq<int>): (r: Step)
    requires StateValid(s) && |input| == FS
    ensures StateValid(r.next) && |r.out| == FS
  {
    var out := GoodOut(s, input);
    Step(State(s.window[FS..] + out, None), out)
  }

  const INITIAL := State(Silence(LHIST), None)

  // ----- whole runs

  datatype Frame = Good(samples: seq<int>) | Bad(zir: seq<int>)

  predicate FrameValid(f: Frame) {
    match f
    case Good(samples) => |samples| == FS
    case Bad(zir) => |zir| == FS
  }

  function Next(corr: Correlation, s: State, f: Frame): (r: Step)
    requires StateValid(s) && FrameValid(f)
    ensures StateValid(r.next) && |r.out| == FS
  {
    match f
    case Good(samples) => GoodStep(s, samples)
    case Bad(zir) => BadStep(corr, s, zir)
  }

  /** State and output after a run of frames. */
  function Run(corr: Correlation, s: State, frames: seq<Frame>): (r: Step)
    requires StateValid(s) && forall f :: f in frames ==> FrameValid(f)
    ensures StateValid(r.next) && |r.out| == FS * |frames|
  {
    if frames == [] then Step(s, [])
    else
      var p := Run(corr, s, frames[..|frames| - 1]);
      var q := Next(corr, p.next, frames[|frames| - 1]);
      Step(q.next, p.out + q.out)
  }

  lemma {:induction false} ExtendKeeps(window: seq<int>, lag: nat, fade: Fade, k: nat)
    requires |window| == LHIST && lag < LHIST && k <= FS + TAIL && (fade.First? ==> |fade.zir| == FS)
    ensures Extend(window, lag, fade, k)[..LHIST] == window
  {
    if k > 0 {
      ExtendKeeps(window, lag, fade, k - 1);
    }
  }

  /** One step slides the window over the output. */
  lemma WindowSlides(corr: Correlation, s: State, f: Frame)
    requires StateValid(s) && FrameValid(f)
    ensures var r := Next(corr, s, f); r.next.window == (s.window + r.out)[FS..]
  {
    match f
    case Good(samples) =>
      var out := GoodOut(s, samples);
      assert (s.window + out)[FS..] == s.window[FS..] + out;
    case Bad(zir) =>
      var (lag, fade) := Fading(corr, s, zir);
      ExtendKeeps(s.window, lag, fade, FS + TAIL);
      var all := Extend(s.window, lag, fade, FS + TAIL);
      assert all[..LHIST + FS] == s.window + all[LHIST..LHIST + FS];
      assert all[FS..LHIST + FS] == all[..LHIST + FS][FS..];
  }

  /** In every run the window is the last LHIST output samples, with silence before the start. */
  lemma {:induction false} WindowIsOutput(corr: Correlation, frames: seq<Frame>)
    requires forall f :: f in frames ==> FrameValid(f)
    ensures var r := Run(corr, INITIAL, frames);
      r.next.window == (Silence(LHIST) + r.out)[|r.out|..]
  {
    hide Next, FrameValid;
    if frames != [] {
      var before := frames[..|frames| - 1];
      WindowIsOutput(corr, before);
      var p := Run(corr, INITIAL, before);
      WindowSlides(corr, p.next, frames[|frames| - 1]);
      Slide(Silence(LHIST), p.out, Next(corr, p.next, frames[|frames| - 1]).out);
    }
  }

  lemma Slide(start: seq<int>, a: seq<int>, b: seq<int>)
    requires |start| == LHIST && |b| == FS
    ensures ((start + a)[|a|..] + b)[FS..] == (start + (a + b))[|a + b|..]
  {
    assert start + (a + b) == start + a + b;
    assert (start + a)[|a|..] + b == (start + a + b)[|a|..];
  }

  // ----- periodicity of a concealment

  lemma {:induction false} ExtendPeriodic(window: seq<int>, lag: nat, k: nat, j: nat)
    requires |window| == LHIST && lag < LHIST && j < k <= FS + TAIL
    ensures var s := Extend(window, lag, Later, k); s[LHIST + j] == s[lag + j]
  {
    if j < k - 1 {
      ExtendPeriodic(window, lag, k - 1, j);
    }
  }

  /** From the second frame of a loss on, every output sample repeats the sample one period
      earlier, with the period of the whole loss, which is between 56 and 311. */
  lemma LossIsPeriodic(corr: Correlation, s: State, zir: seq<int>, j: nat)
    requires StateValid(s) && s.burst.Some? && |zir| == FS && j < FS
    ensures var (r, period) := (BadStep(corr, s, zir), LHIST - s.burst.value.lag);
      && 56 <= period <= 311
      && r.next.burst.Some? && r.next.burst.value.lag == s.burst.value.lag
      && r.out[j] == (s.window + r.out)[LHIST + j - period]
  {
    var lag := s.burst.value.lag;
    ExtendPeriodic(s.window, lag, FS + TAIL, j);
    ExtendKeeps(s.window, lag, Later, FS + TAIL);
    var all := Extend(s.window, lag, Later, FS + TAIL);
    assert all[..LHIST + FS] == s.window + all[LHIST..LHIST + FS];
    assert all[..LHIST + FS][lag + j] == all[lag + j];
  }

  /** The tail saved by one frame of a loss is the start of the next: all of it from the second
      frame on, and all but the cross-faded first samples for the first frame. */
  lemma TailContinues(corr: Correlation, s: State, zir: seq<int>, zir': seq<int>, j: nat)
    requires StateValid(s) && |zir| == |zir'| == FS && j < TAIL && (s.burst.None? ==> j >= OLAL)
    ensures var r := BadStep(corr, s, zir);
      BadStep(corr, r.next, zir').out[j] == r.next.burst.value.tail[j]
  {
    var (lag, fade) := Fading(corr, s, zir);
    var all := Extend(s.window, lag, fade, FS + TAIL);
    TailRaw(s.window, lag, fade, FS + TAIL, FS + j);
    var next := BadStep(corr, s, zir).next;
    ExtendPeriodic(next.window, lag, FS + TAIL, j);
    ExtendKeeps(next.window, lag, Later, FS + TAIL);
    var more := Extend(next.window, lag, Later, FS + TAIL);
    assert more[lag + j] == more[..LHIST][lag + j] == next.window[lag + j] == all[FS + lag + j];
  }

  lemma {:induction false} TailRaw(window: seq<int>, lag: nat, fade: Fade, k: nat, j: nat)
    requires |window| == LHIST && lag < LHIST && j < k <= FS + TAIL && (fade.First? ==> |fade.zir| == FS)
    requires fade == Later || j >= FS + OLAL
    ensures var s := Extend(window, lag, fade, k); s[LHIST + j] == s[lag + j]
  {
    if j < k - 1 {
      TailRaw(window, lag, fade, k - 1, j);
    }
  }

  // ----- what the matching may read

  /** The pattern match is the first lag with the highest score; NaN scores never win. */
  lemma {:induction false} SearchIsFirstBest(corr: Correlation, window: seq<int>, n: nat)
    requires |window| == LHIST && n <= N
    ensures IsFirstBest(corr, window, n, Search(corr, window, n))
  {
    hide Score, IsFirstBest;
    if n > 0 {
      SearchIsFirstBest(corr, window, n - 1);
      var m := Search(corr, window, n - 1);
      BetterMatch(corr, window, n, m);
      match Score(corr, window, n - 1) {
        case Some(c) =>
        case None =>
      }
    } else {
      assert IsFirstBest(corr, window, 0, Match(0, -999999.0)) by { NoMatch(corr, window); }
    }
  }

  lemma NoMatch(corr: Correlation, window: seq<int>)
    requires |window| == LHIST
    ensures IsFirstBest(corr, window, 0, Match(0, -999999.0))
  {
  }

  lemma BetterMatch(corr: Correlation, window: seq<int>, n: nat, m: Match)
    requires |window| == LHIST && 0 < n <= N && IsFirstBest(corr, window, n - 1, m)
    ensures match Score(corr, window, n - 1)
            case Some(c) => IsFirstBest(corr, window, n, if c > m.best then Match(n - 1, c) else m)
            case None => IsFirstBest(corr, window, n, m)
  {
    hide Score;
  }

  /** m is the first of the best scores among the first n lags, or lag 0 when no score beats the
      start value. */
  ghost predicate IsFirstBest(corr: Correlation, window: seq<int>, n: nat, m: Match)
    requires |window| == LHIST && n <= N
  {
    && m.best >= -999999.0
    && (forall k: nat :: k < n && Score(corr, window, k).Some? ==> Score(corr, window, k).value <= m.best)
    && (m.best == -999999.0 ==> m.lag == 0)
    && (m.best > -999999.0 ==> m.lag < n && Score(corr, window, m.lag) == Some(m.best))
    && (forall k: nat :: k < m.lag && k < n && Score(corr, window, k).Some? ==> Score(corr, window, k).value < m.best)
  }

  lemma {:induction false} SilentSearch(corr: Correlation, n: nat)
    requires SilentIsNaN(corr) && n <= N
    ensures Search(corr, Silence(LHIST), n).lag == 0
  {
    if n > 0 {
      SilentSearch(corr, n - 1);
      assert Silence(LHIST)[LHIST - M..] == Silence(M);
    }
  }

  /** A history of silence matches at lag 0. */
  lemma SilentMatch(corr: Correlation)
    requires SilentIsNaN(corr)
    ensures BestMatch(corr, Silence(LHIST)) == 0
  {
    SilentSearch(corr, N);
  }

  /** Over 16-bit samples, AmplitudeMatch is decided by the history alone if and only if the lag is at
      most LHIST - FS; beyond that it also reads what happens to follow the history in the array. */
  lemma GainReadsPastHistory(lag: nat)
    requires lag <= LHIST
    ensures (forall w: seq<int>, a: seq<int>, b: seq<int> ::
               |w| == LHIST && |a| == |b| == FS && AllShort(w) && AllShort(a) && AllShort(b) ==> Gain(w + a, lag) == Gain(w + b, lag))
            <==> lag <= LHIST - FS
  {
    if lag <= LHIST - FS {
      forall w: seq<int>, a: seq<int>, b: seq<int> | |w| == LHIST && |a| == |b| == FS
        ensures Gain(w + a, lag) == Gain(w + b, lag)
      {
        assert (w + a)[lag..lag + FS] == w[lag..lag + FS] == (w + b)[lag..lag + FS];
        assert (w + a)[LHIST - FS..LHIST] == w[LHIST - FS..LHIST] == (w + b)[LHIST - FS..LHIST];
      }
    } else {
      var w, a, b := seq(LHIST, _ => 1), Silence(FS), seq(FS, _ => 32767);
      LoudAndSilent(w, a, b, lag);
      assert AllShort(w) && AllShort(a) && AllShort(b);
    }
  }

  lemma LoudAndSilent(w: seq<int>, a: seq<int>, b: seq<int>, lag: nat)
    requires LHIST - FS < lag <= LHIST && w == seq(LHIST, _ => 1) && a == Silence(FS) && b == seq(FS, _ => 32767)
    ensures Gain(w + a, lag) != Gain(w + b, lag)
  {
    hide SumAbs;
    var over := lag + FS - LHIST;
    var ones := seq(LHIST - lag, _ => 1);
    SumAbsConstant(FS, 1);
    SumAbsConstant(LHIST - lag, 1);
    SumAbsConstant(over, 0);
    SumAbsConstant(over, 32767);
    SumAbsConcat(ones, seq(over, _ => 0));
    SumAbsConcat(ones, seq(over, _ => 32767));
    Slices(w, a, lag, 0);
    Slices(w, b, lag, 32767);
    GainRatios(LHIST - lag, over);
  }

  lemma Slices(w: seq<int>, a: seq<int>, lag: nat, x: int)
    requires LHIST - FS < lag <= LHIST && w == seq(LHIST, _ => 1) && a == seq(FS, _ => x)
    ensures (w + a)[LHIST - FS..LHIST] == seq(FS, _ => 1)
    ensures (w + a)[lag..lag + FS] == seq(LHIST - lag, _ => 1) + seq(lag + FS - LHIST, _ => x)
  {
    assert (w + a)[LHIST - FS..LHIST] == seq(FS, _ => 1);
    assert (w + a)[lag..lag + FS] == seq(LHIST - lag, _ => 1) + seq(lag + FS - LHIST, _ => x);
  }

  lemma GainRatios(inside: nat, over: nat)
    requires inside + over == FS && over > 0
    ensures FS as real / (0.000001 + inside as real) > 1.0
    ensures FS as real / (0.000001 + (inside + 32767 * over) as real) < 1.0
  {
    AboveOne(FS as real, 0.000001 + inside as real);
    BelowOne(FS as real, 0.000001 + (inside + 32767 * over) as real);
  }

  lemma ScaleBelow(q: real, y: real)
    requires y > 0.0
    ensures q <= 1.0 ==> q * y <= y
    ensures q >= 1.0 ==> q * y >= y
  {
  }

  lemma AboveOne(x: real, y: real)
    requires x > y > 0.0
    ensures x / y > 1.0
  {
    assert x / y * y == x;
    ScaleBelow(x / y, y);
  }

  lemma BelowOne(x: real, y: real)
    requires y > x > 0.0
    ensures x / y < 1.0
  {
    assert x / y * y == x;
    ScaleBelow(x / y, y);
  }

  lemma {:induction false} SumAbsConstant(n: nat, x: nat)
    ensures SumAbs(seq(n, _ => x)) == n * x
  {
    if n > 0 {
      SumAbsConstant(n - 1, x);
      assert seq(n, _ => x)[..n - 1] == seq(n - 1, _ => x);
      assert (n - 1) * x + x == n * x;
    }
  }

  lemma {:induction false} SumAbsConcat(a: seq<int>, b: seq<int>)
    ensures SumAbs(a + b) == SumAbs(a) + SumAbs(b)
  {
    if b == [] {
      assert a + b == a;
    } else {
      SumAbsConcat(a, b[..|b| - 1]);
      assert (a + b)[..|a + b| - 1] == a + b[..|b| - 1];
    }
  }

  // ----- the output stays in 16 bits

  predicate IsShort(x: int) {
    -0x8000 <= x < 0x8000
  }

  predicate AllShort(s: seq<int>) {
    forall k :: 0 <= k < |s| ==> IsShort(s[k])
  }

  predicate StateShort(s: State) {
    AllShort(s.window) && (s.burst.Some? ==> AllShort(s.burst.value.tail))
  }

  function InputOf(f: Frame): seq<int> {
    match f
    case Good(samples) => samples
    case Bad(zir) => zir
  }

  /** The two sides of a cross-fade add up to one. */
  lemma FadesAddUp(i: nat)
    requires i < OLAL
    ensures RCOS[i] + RCOS[OLAL - 1 - i] == 1.0 && 0.0 < RCOS[i] < 1.0
  {
  }

  lemma Convex(a: real, b: real, w: real)
    requires 0.0 <= w <= 1.0
    ensures a <= b ==> a <= a * w + b * (1.0 - w) <= b
    ensures b <= a ==> b <= a * w + b * (1.0 - w) <= a
  {
    assert a * w + b * (1.0 - w) == b + (a - b) * w;
    if a <= b {
      assert (b - a) * w <= b - a;
    } else {
      assert (a - b) * w <= a - b;
    }
  }

  lemma TruncBetween(x: real, lo: int, hi: int)
    requires lo as real <= x <= hi as real
    ensures lo <= Trunc(x) <= hi
  {
  }

  /** The cross-fade back to the decoder never leaves the range between the two signals, so that the
      source's cast to short, which has no limiter, is defined. */
  lemma BlendBetween(tail: int, received: int, i: nat)
    requires i < OLAL
    ensures tail <= received ==> tail <= Blend(tail, received, i) <= received
    ensures received <= tail ==> received <= Blend(tail, received, i) <= tail
  {
    hide Trunc;
    FadesAddUp(i);
    var w := RCOS[i];
    assert RCOS[OLAL - 1 - i] == 1.0 - w;
    Convex(tail as real, received as real, w);
    var x := tail as real * RCOS[i] + received as real * RCOS[OLAL - 1 - i];
    if tail <= received {
      TruncBetween(x, tail, received);
    } else {
      TruncBetween(x, received, tail);
    }
  }

  lemma ToShortIsShort(x: real)
    ensures IsShort(ToShort(x))
  {
    TruncBetween(Clamp(x, -32768.0, 32767.0), -32768, 32767);
  }

  lemma ConcealedIsShort(fade: Fade, k: nat, source: int)
    requires k < FS + TAIL && (fade.First? ==> |fade.zir| == FS) && IsShort(source)
    ensures IsShort(Concealed(fade, k, source))
  {
    hide ToShort, FadeIn, FadeOut, Scaled;
    if fade.First? && k < FS + OLAL {
      ToShortIsShort(if k < OLAL then FadeIn(fade.zir[k], fade.gain, source, k)
                     else if k < FS then Scaled(fade.gain, source) else FadeOut(fade.gain, source, k - FS));
    }
  }

  lemma {:induction false} ExtendIsShort(window: seq<int>, lag: nat, fade: Fade, k: nat)
    requires |window| == LHIST && lag < LHIST && k <= FS + TAIL && (fade.First? ==> |fade.zir| == FS) && AllShort(window)
    ensures AllShort(Extend(window, lag, fade, k))
  {
    hide Concealed;
    if k > 0 {
      ExtendIsShort(window, lag, fade, k - 1);
      ConcealedIsShort(fade, k - 1, Extend(window, lag, fade, k - 1)[lag + k - 1]);
    }
  }

  lemma BadStaysShort(corr: Correlation, s: State, zir: seq<int>)
    requires StateValid(s) && StateShort(s) && |zir| == FS
    ensures var r := BadStep(corr, s, zir); StateShort(r.next) && AllShort(r.out)
  {
    hide Extend;
    var (lag, fade) := Fading(corr, s, zir);
    ExtendIsShort(s.window, lag, fade, FS + TAIL);
  }

  lemma GoodStaysShort(s: State, input: seq<int>)
    requires StateValid(s) && StateShort(s) && |input| == FS && AllShort(input)
    ensures var r := GoodStep(s, input); StateShort(r.next) && AllShort(r.out)
  {
    hide Blend;
    var out := GoodOut(s, input);
    forall k | 0 <= k < FS ensures IsShort(out[k]) {
      if s.burst.Some? && SBCRT <= k < TAIL {
        BlendBetween(s.burst.value.tail[k], input[k], k - SBCRT);
      }
    }
  }

  /** Over every run of 16-bit frames, all outputs are 16-bit samples. */
  lemma {:induction false} RunStaysShort(corr: Correlation, s: State, frames: seq<Frame>)
    requires StateValid(s) && StateShort(s)
    requires forall f :: f in frames ==> FrameValid(f) && AllShort(InputOf(f))
    ensures StateShort(Run(corr, s, frames).next) && AllShort(Run(corr, s, frames).out)
  {
    hide BadStep, GoodStep, AllShort;
    if frames == [] {
      assert AllShort([]) by { NoSamples(); }
    } else {
      var n := |frames| - 1;
      RunStaysShort(corr, s, frames[..n]);
      var p := Run(corr, s, frames[..n]);
      assert frames[n] in frames;
      match frames[n] {
        case Good(samples) => GoodStaysShort(p.next, samples);
        case Bad(zir) => BadStaysShort(corr, p.next, zir);
      }
      ShortConcat(p.out, Next(corr, p.next, frames[n]).out);
    }
  }

  lemma NoSamples()
    ensures AllShort([])
  {
  }

  lemma ShortConcat(a: seq<int>, b: seq<int>)
    requires AllShort(a) && AllShort(b)
    ensures AllShort(a + b)
  {
  }

  // ----- what is heard at the ends of a loss

  /** The share of the new signal in sample k of a cross-fade. */
  function Weight(k: nat): real
    requires k < OLAL
  {
    1.0 - RCOS[k]
  }

  function Faded(from: real, to: real, k: nat): real
    requires k < OLAL
  {
    from + Part(Weight(k), to - from)
  }

  function Part(w: real, gap: real): real {
    w * gap
  }

  /** y is x cut to an integer. */
  predicate Cut(x: real, y: int) {
    x - 1.0 < y as real < x + 1.0
  }

  lemma WeightRises(k: nat, k': nat)
    requires k < k' < OLAL
    ensures 0.0 < Weight(k) < Weight(k') < 1.0
    ensures Weight(0) <= 0.01 && Weight(OLAL - 1) >= 0.99
    decreases k' - k
  {
    assert forall i: nat :: i < OLAL - 1 ==> RCOS[i] > RCOS[i + 1];
    if k + 1 < k' {
      WeightRises(k + 1, k');
    }
  }

  /** A cross-fade runs from the old signal to the new one, nearer to it with every sample. */
  lemma FadeRuns(from: real, to: real, k: nat, k': nat)
    requires k < k' < OLAL
    ensures from < to ==> from < Faded(from, to, k) < Faded(from, to, k') < to
    ensures from > to ==> from > Faded(from, to, k) > Faded(from, to, k') > to
  {
    hide Weight, Part;
    WeightRises(k, k');
    var gap := to - from;
    ScaledGap(Weight(k), Weight(k'), gap);
    ScaledGap(Weight(k'), 1.0, gap);
    ScaledGap(0.0, Weight(k), gap);
    Remainder(Weight(k), gap);
  }

  /** It starts within a hundredth of the gap from the old signal and ends within one of the new. */
  lemma FadeEnds(from: real, to: real)
    ensures Gap(from, Faded(from, to, 0)) <= Gap(from, to) / 100.0
    ensures Gap(to, Faded(from, to, OLAL - 1)) <= Gap(from, to) / 100.0
  {
    hide Weight, Part;
    WeightRises(0, OLAL - 1);
    var gap := to - from;
    SmallShare(Weight(0), gap);
    SmallShare(1.0 - Weight(OLAL - 1), gap);
    Remainder(Weight(OLAL - 1), gap);
  }

  lemma Remainder(w: real, gap: real)
    ensures Part(1.0 - w, gap) == gap - Part(w, gap)
    ensures Part(0.0, gap) == 0.0 && Part(1.0, gap) == gap
  {
  }

  function Gap(a: real, b: real): real {
    if a < b then b - a else a - b
  }

  lemma ScaledGap(w: real, w': real, gap: real)
    requires w < w'
    ensures gap > 0.0 ==> Part(w, gap) < Part(w', gap)
    ensures gap < 0.0 ==> Part(w, gap) > Part(w', gap)
  {
    assert w' * gap - w * gap == (w' - w) * gap;
  }

  lemma SmallShare(w: real, gap: real)
    requires 0.0 <= w <= 0.01
    ensures gap >= 0.0 ==> 0.0 <= Part(w, gap) <= gap / 100.0
    ensures gap <= 0.0 ==> gap / 100.0 <= Part(w, gap) <= 0.0
  {
    if gap >= 0.0 {
      Nonnegative(0.01 - w, gap);
      Nonnegative(w, gap);
    } else {
      Nonnegative(0.01 - w, -gap);
      Nonnegative(w, -gap);
    }
    assert (0.01 - w) * gap == gap / 100.0 - w * gap;
  }

  lemma Nonnegative(x: real, y: real)
    requires x >= 0.0 && y >= 0.0
    ensures x * y >= 0.0 && x * -y <= 0.0
  {
  }

  lemma FadeIsFaded(from: real, to: real, k: nat)
    requires k < OLAL
    ensures from * RCOS[k] + to * RCOS[OLAL - 1 - k] == Faded(from, to, k)
  {
    FadesAddUp(k);
    var w := RCOS[k];
    assert RCOS[OLAL - 1 - k] == 1.0 - w;
    assert from * w + to * (1.0 - w) == from + (1.0 - w) * (to - from);
  }

  lemma TruncCuts(x: real)
    ensures Cut(x, Trunc(x))
  {
  }

  /** The limiter of the concealed samples. */
  function Limited(x: real): real {
    Clamp(x, -32768.0, 32767.0)
  }

  /** What sample k of the first concealed frame and its tail should be, given the pattern. */
  predicate FirstLost(zir: seq<int>, gain: real, k: nat, pattern: int, sample: int)
    requires |zir| == FS && k < FS + TAIL
  {
    if k < OLAL then Cut(Limited(Faded(zir[k] as real, gain * pattern as real, k)), sample)
    else if k < FS then Cut(Limited(gain * pattern as real), sample)
    else if k < FS + OLAL then Cut(Limited(Faded(gain * pattern as real, pattern as real, k - FS)), sample)
    else sample == pattern
  }

  lemma FadeInIsFaded(zir: int, gain: real, pattern: int, k: nat)
    requires k < OLAL
    ensures FadeIn(zir, gain, pattern, k) == Faded(zir as real, Scaled(gain, pattern), k)
  {
    hide Faded;
    FadeIsFaded(zir as real, Scaled(gain, pattern), k);
  }

  lemma FadeOutIsFaded(gain: real, pattern: int, k: nat)
    requires k < OLAL
    ensures FadeOut(gain, pattern, k) == Faded(Scaled(gain, pattern), pattern as real, k)
  {
    hide Faded;
    FadeIsFaded(Scaled(gain, pattern), pattern as real, k);
  }

  lemma ScaledIs(gain: real, pattern: int)
    ensures Scaled(gain, pattern) == gain * pattern as real
  {
  }

  lemma ConcealedFirst(zir: seq<int>, gain: real, k: nat, pattern: int)
    requires |zir| == FS && k < FS + TAIL
    ensures FirstLost(zir, gain, k, pattern, Concealed(First(zir, gain), k, pattern))
  {
    hide Trunc, Faded, Clamp, FadeIn, FadeOut, Scaled, Cut;
    ScaledIs(gain, pattern);
    if k < OLAL {
      FadeInIsFaded(zir[k], gain, pattern, k);
      TruncCuts(Limited(FadeIn(zir[k], gain, pattern, k)));
    } else if k < FS {
      TruncCuts(Limited(Scaled(gain, pattern)));
    } else if k < FS + OLAL {
      FadeOutIsFaded(gain, pattern, k - FS);
      TruncCuts(Limited(FadeOut(gain, pattern, k - FS)));
    }
  }

  lemma {:induction false} ExtendSample(window: seq<int>, lag: nat, fade: Fade, n: nat, k: nat)
    requires |window| == LHIST && lag < LHIST && k < n <= FS + TAIL && (fade.First? ==> |fade.zir| == FS)
    ensures var s := Extend(window, lag, fade, n); s[LHIST + k] == Concealed(fade, k, s[lag + k])
  {
    hide Concealed;
    if k < n - 1 {
      ExtendSample(window, lag, fade, n - 1, k);
    }
  }

  /** The history, then the concealed frame, then the tail that is kept. */
  function Heard(s: State, r: Step): (h: seq<int>)
    requires StateValid(s) && StateValid(r.next) && r.next.burst.Some? && |r.out| == FS
    ensures |h| == LHIST + FS + TAIL
  {
    s.window + r.out + r.next.burst.value.tail
  }

  /** The first frame of a loss fades from the decoder's response into the pattern, scaled to the
      amplitude of the last frame, and its tail fades from the scaled pattern into the pattern itself.
      The pattern is what followed the best match in the history, repeated. */
  lemma FirstLostFrame(corr: Correlation, s: State, zir: seq<int>, k: nat)
    requires StateValid(s) && s.burst.None? && |zir| == FS && k < FS + TAIL
    ensures var r := BadStep(corr, s, zir);
      var lag := BestMatch(corr, s.window) + M;
      && r.next.burst.Some? && r.next.burst.value.lag == lag
      && FirstLost(zir, Gain(s.window + s.window[LHIST - FS..], lag), k, Heard(s, r)[lag + k], Heard(s, r)[LHIST + k])
  {
    hide Concealed, FirstLost, Gain, BestMatch;
    var (lag, fade) := Fading(corr, s, zir);
    var all := Extend(s.window, lag, fade, FS + TAIL);
    ExtendKeeps(s.window, lag, fade, FS + TAIL);
    assert all == all[..LHIST] + all[LHIST..LHIST + FS] + all[LHIST + FS..];
    assert Heard(s, BadStep(corr, s, zir)) == all;
    ExtendSample(s.window, lag, fade, FS + TAIL, k);
    ConcealedFirst(zir, fade.gain, k, all[lag + k]);
  }

  /** So the loss is not heard at once: its first sample is that of the decoder's response, but for a
      hundredth of the gap to the pattern and the cut to an integer. */
  lemma LossStartsOnDecoder(corr: Correlation, s: State, zir: seq<int>)
    requires StateValid(s) && s.burst.None? && |zir| == FS && IsShort(zir[0])
    ensures var r := BadStep(corr, s, zir);
      var lag := BestMatch(corr, s.window) + M;
      var pattern := Scaled(Gain(s.window + s.window[LHIST - FS..], lag), s.window[lag]);
      Gap(zir[0] as real, r.out[0] as real) <= Gap(zir[0] as real, pattern) / 100.0 + 1.0
  {
    hide Gain, BestMatch, BadStep, FirstLost, Gap, Scaled;
    FirstLostFrame(corr, s, zir, 0);
    var r := BadStep(corr, s, zir);
    var lag := BestMatch(corr, s.window) + M;
    HeardAt(s, r, lag, 0);
    FirstSample(zir, Gain(s.window + s.window[LHIST - FS..], lag), s.window[lag], r.out[0]);
  }

  /** And after sixteen samples it has reached the scaled pattern. */
  lemma LossReachesPattern(corr: Correlation, s: State, zir: seq<int>)
    requires StateValid(s) && s.burst.None? && |zir| == FS
    ensures var r := BadStep(corr, s, zir);
      var lag := BestMatch(corr, s.window) + M;
      var pattern := Scaled(Gain(s.window + s.window[LHIST - FS..], lag), s.window[lag + OLAL - 1]);
      Gap(Limited(pattern), r.out[OLAL - 1] as real) <= Gap(zir[OLAL - 1] as real, pattern) / 100.0 + 1.0
  {
    hide Gain, BestMatch, BadStep, FirstLost, Gap, Scaled, Limited;
    FirstLostFrame(corr, s, zir, OLAL - 1);
    var r := BadStep(corr, s, zir);
    var lag := BestMatch(corr, s.window) + M;
    HeardAt(s, r, lag, OLAL - 1);
    LastFaded(zir, Gain(s.window + s.window[LHIST - FS..], lag), s.window[lag + OLAL - 1], r.out[OLAL - 1]);
  }

  lemma FirstSample(zir: seq<int>, gain: real, pattern: int, sample: int)
    requires |zir| == FS && IsShort(zir[0]) && FirstLost(zir, gain, 0, pattern, sample)
    ensures Gap(zir[0] as real, sample as real) <= Gap(zir[0] as real, Scaled(gain, pattern)) / 100.0 + 1.0
  {
    hide Faded, Cut, Limited, Gap;
    FadeEnds(zir[0] as real, gain * pattern as real);
    LimitedNear(zir[0] as real, Faded(zir[0] as real, gain * pattern as real, 0), sample);
  }

  lemma LastFaded(zir: seq<int>, gain: real, pattern: int, sample: int)
    requires |zir| == FS && FirstLost(zir, gain, OLAL - 1, pattern, sample)
    ensures Gap(Limited(Scaled(gain, pattern)), sample as real)
         <= Gap(zir[OLAL - 1] as real, Scaled(gain, pattern)) / 100.0 + 1.0
  {
    hide Faded, Cut, Limited, Gap;
    FadeEnds(zir[OLAL - 1] as real, gain * pattern as real);
    LimitedNear(gain * pattern as real, Faded(zir[OLAL - 1] as real, gain * pattern as real, OLAL - 1), sample);
  }

  lemma HeardAt(s: State, r: Step, lag: nat, k: nat)
    requires StateValid(s) && StateValid(r.next) && r.next.burst.Some? && |r.out| == FS && lag + k < LHIST && k < FS
    ensures Heard(s, r)[lag + k] == s.window[lag + k] && Heard(s, r)[LHIST + k] == r.out[k]
  {
  }

  /** The limiter brings nothing further apart. */
  lemma LimitedNear(z: real, x: real, y: int)
    requires Cut(Limited(x), y)
    ensures Gap(Limited(z), y as real) <= Gap(z, x) + 1.0
    ensures -32768.0 <= z <= 32767.0 ==> Limited(z) == z
  {
  }

  /** The first frame after a loss starts with the saved tail, fades from it into the decoder's output,
      and then is that output. */
  lemma FirstGoodFrame(s: State, input: seq<int>, i: nat)
    requires StateValid(s) && s.burst.Some? && |input| == FS && i < FS
    ensures var (sample, tail) := (GoodStep(s, input).out[i], s.burst.value.tail);
      if i < SBCRT then sample == tail[i]
      else if i < TAIL then Cut(Faded(tail[i] as real, input[i] as real, i - SBCRT), sample)
      else sample == input[i]
  {
    hide Trunc, Faded, Cut, Blend;
    if SBCRT <= i < TAIL {
      BlendIsFaded(s.burst.value.tail[i], input[i], i - SBCRT);
    }
  }

  lemma BlendIsFaded(tail: int, received: int, k: nat)
    requires k < OLAL
    ensures Cut(Faded(tail as real, received as real, k), Blend(tail, received, k))
  {
    hide Trunc, Faded, Cut;
    FadeIsFaded(tail as real, received as real, k);
    TruncCuts(Faded(tail as real, received as real, k));
  }

  /** The gain brings the pattern to the amplitude of the last frame, as far as its limits allow. */
  lemma GainMatchesAmplitude(y: seq<int>, lag: nat)
    requires |y| >= LHIST && lag + FS <= |y|
    ensures var (gain, last, pattern) := (Gain(y, lag), SumAbs(y[LHIST - FS..LHIST]) as real, 0.000001 + SumAbs(y[lag..lag + FS]) as real);
      && 0.75 <= gain <= 1.2
      && (gain < 1.2 ==> gain * pattern >= last)
      && (gain > 0.75 ==> gain * pattern <= last)
  {
    hide SumAbs;
    SumAbsNonNegative(y[lag..lag + FS]);
    var last, pattern := SumAbs(y[LHIST - FS..LHIST]) as real, 0.000001 + SumAbs(y[lag..lag + FS]) as real;
    Quotient(last, pattern, Gain(y, lag));
  }

  lemma Quotient(x: real, y: real, g: real)
    requires y > 0.0
    ensures g <= x / y ==> g * y <= x
    ensures g >= x / y ==> g * y >= x
  {
    var q := x / y;
    assert q * y == x;
    assert (q - g) * y == x - g * y;
  }

  /** No lag of the search beats the best match: the M samples there correlate best with the last M. */
  lemma BestMatchBeats(corr: Correlation, window: seq<int>, k: nat)
    requires |window| == LHIST && k < N
    ensures var n := BestMatch(corr, window);
      match corr(window[LHIST - M..], window[k..k + M])
      case None => true
      case Some(c) => c > -999999.0 ==>
        var best := corr(window[LHIST - M..], window[n..n + M]);
        best.Some? && best.value >= c && (k < n ==> best.value > c)
  {
    hide Search;
    SearchIsFirstBest(corr, window, N);
    var m := Search(corr, window, N);
    assert Score(corr, window, k) == corr(window[LHIST - M..], window[k..k + M]);
    assert Score(corr, window, m.lag) == corr(window[LHIST - M..], window[m.lag..m.lag + M]);
  }

  // ----- the state in memory

  class PlcState {
    const correlation: Correlation
    const hist: array<int>
    var bestlag: int
    var nbf: int

    /** Outside a loss the array behind the history repeats the last frame, as PLC_good_frame leaves
        it, or nothing but silence has been heard since InitPLC. */
    ghost predicate Valid()
      reads this, hist
    {
      && hist.Length == LHIST + FS + TAIL && nbf >= 0 && SilentIsNaN(correlation)
      && (nbf > 0 ==> M <= bestlag < M + N)
      && (nbf == 0 ==> hist[LHIST..LHIST + FS] == hist[LHIST - FS..LHIST] || hist[..LHIST] == Silence(LHIST))
    }

    /** What the later output depends on: never more than the history, the lag and the tail. */
    ghost function Model(): (s: State)
      requires Valid()
      reads this, hist
      ensures StateValid(s)
    {
      State(hist[..LHIST], if nbf == 0 then None else Some(Burst(bestlag, hist[LHIST..LHIST + TAIL])))
    }

    /** InitPLC on an array with arbitrary contents: it clears the history and SBCRT more entries. */
    constructor (correlation: Correlation, memory: array<int>)
      requires SilentIsNaN(correlation) && memory.Length == LHIST + FS + TAIL
      modifies memory
      ensures Valid() && Model() == INITIAL && this.hist == memory && this.correlation == correlation
    {
      this.correlation := correlation;
      hist := memory;
      nbf, bestlag := 0, 0;
      new;
      for i := 0 to LHIST + SBCRT
        invariant nbf == 0 && bestlag == 0
        invariant forall k :: 0 <= k < i ==> hist[k] == 0
      {
        hist[i] := 0;
      }
      assert hist[..LHIST] == Silence(LHIST);
    }

    method PatternMatch() returns (bestmatch: nat)
      requires hist.Length == LHIST + FS + TAIL
      ensures bestmatch == BestMatch(correlation, hist[..LHIST])
    {
      var maxCn := -999999.0;
      bestmatch := 0;
      for n := 0 to N
        invariant Match(bestmatch, maxCn) == Search(correlation, hist[..LHIST], n)
      {
        assert hist[LHIST - M..LHIST] == hist[..LHIST][LHIST - M..] && hist[n..n + M] == hist[..LHIST][n..n + M];
        var cn := correlation(hist[LHIST - M..LHIST], hist[n..n + M]);
        if cn.Some? && cn.value > maxCn {
          bestmatch, maxCn := n, cn.value;
        }
      }
    }

    method AmplitudeMatch(bestmatch: nat) returns (sf: real)
      requires hist.Length == LHIST + FS + TAIL && bestmatch < M + N
      ensures sf == Gain(hist[..LHIST + FS], bestmatch)
    {
      var sumx, sumy := 0, 0;
      ghost var y := hist[..LHIST + FS];
      assert y[LHIST - FS..LHIST][..0] == [] == y[bestmatch..bestmatch + FS][..0];
      for i := 0 to FS
        invariant sumx == SumAbs(y[LHIST - FS..LHIST][..i]) && sumy == SumAbs(y[bestmatch..bestmatch + FS][..i])
      {
        SumAbsNext(y[LHIST - FS..LHIST], i);
        SumAbsNext(y[bestmatch..bestmatch + FS], i);
        sumx := sumx + Abs(hist[LHIST - FS + i]);
        sumy := sumy + Abs(hist[bestmatch + i]);
      }
      assert y[LHIST - FS..LHIST][..FS] == y[LHIST - FS..LHIST] && y[bestmatch..bestmatch + FS][..FS] == y[bestmatch..bestmatch + FS];
      SumAbsNonNegative(y[bestmatch..bestmatch + FS]);
      sf := sumx as real / (0.000001 + sumy as real);
      if sf < 0.75 {
        sf := 0.75;
      }
      if sf > 1.2 {
        sf := 1.2;
      }
    }

    /** The limited value, cut to 16 bits, becomes sample i behind the history. */
    method Store(i: nat, value: real)
      requires hist.Length == LHIST + FS + TAIL && i < FS + TAIL
      modifies hist
      ensures hist[..LHIST + i + 1] == old(hist[..LHIST + i]) + [ToShort(value)]
    {
      ghost var before := hist[..LHIST + i];
      var val := value;
      if val > 32767.0 {
        val := 32767.0;
      }
      if val < -32768.0 {
        val := -32768.0;
      }
      hist[LHIST + i] := Trunc(val);
      assert hist[..LHIST + i] == before;
    }

    /** The loops of the first frame of a loss. Reads run into samples written by the same loops. */
    method ExtendFirst(lag: nat, zir: seq<int>, sf: real)
      requires hist.Length == LHIST + FS + TAIL && lag < LHIST && |zir| == FS
      modifies hist
      ensures hist[..] == Extend(old(hist[..LHIST]), lag, First(zir, sf), FS + TAIL)
    {
      hide ToShort, FadeIn, FadeOut, Scaled;
      ghost var window := hist[..LHIST];
      ghost var fade := First(zir, sf);
      var i := 0;
      while i < OLAL
        invariant i <= OLAL && hist[..LHIST + i] == Extend(window, lag, fade, i)
      {
        assert hist[lag + i] == hist[..LHIST + i][lag + i];
        Store(i, FadeIn(zir[i], sf, hist[lag + i], i));
        i := i + 1;
      }
      while i < FS
        invariant OLAL <= i <= FS && hist[..LHIST + i] == Extend(window, lag, fade, i)
      {
        assert hist[lag + i] == hist[..LHIST + i][lag + i];
        Store(i, Scaled(sf, hist[lag + i]));
        i := i + 1;
      }
      while i < FS + OLAL
        invariant FS <= i <= FS + OLAL && hist[..LHIST + i] == Extend(window, lag, fade, i)
      {
        assert hist[lag + i] == hist[..LHIST + i][lag + i];
        Store(i, FadeOut(sf, hist[lag + i], i - FS));
        i := i + 1;
      }
      Repeat(lag, i, window, fade);
    }

    /** The plain copying loops, from sample `start` of the concealed frame on. */
    method Repeat(lag: nat, start: nat, ghost window: seq<int>, ghost fade: Fade)
      requires hist.Length == LHIST + FS + TAIL && lag < LHIST == |window| && (fade.First? ==> |fade.zir| == FS)
      requires start <= FS + TAIL && (fade == Later || start >= FS + OLAL)
      requires hist[..LHIST + start] == Extend(window, lag, fade, start)
      modifies hist
      ensures hist[..] == Extend(window, lag, fade, FS + TAIL)
    {
      for i := start to FS + TAIL
        invariant hist[..LHIST + i] == Extend(window, lag, fade, i)
      {
        ghost var s := hist[..LHIST + i];
        assert hist[lag + i] == s[lag + i];
        hist[LHIST + i] := hist[lag + i];
        assert hist[..LHIST + i] == s;
        assert hist[..LHIST + i + 1] == s + [hist[LHIST + i]];
      }
      assert hist[..] == hist[..LHIST + FS + TAIL];
    }

    /** The shift loops: entry i takes entry i + FS, in ascending order. */
    method ShiftDown(count: nat)
      requires hist.Length == LHIST + FS + TAIL && count + FS <= hist.Length
      modifies hist
      ensures hist[..count] == old(hist[FS..count + FS]) && hist[count..] == old(hist[count..])
    {
      for i := 0 to count
        invariant forall k :: 0 <= k < i ==> hist[k] == old(hist[k + FS])
        invariant forall k :: i <= k < hist.Length ==> hist[k] == old(hist[k])
      {
        hist[i] := hist[i + FS];
      }
    }

    /** PLC_bad_frame */
    method BadFrame(zir: seq<int>) returns (out: seq<int>)
      requires Valid() && |zir| == FS
      modifies this`bestlag, this`nbf, hist
      ensures Valid()
      ensures Step(Model(), out) == BadStep(correlation, old(Model()), zir)
    {
      hide Gain, BestMatch, Concealed;
      ghost var s := Model();
      nbf := nbf + 1;
      if nbf == 1 {
        var bestmatch := PatternMatch();
        bestlag := bestmatch + M;
        var sf := AmplitudeMatch(bestlag);
        GainIsModelled(correlation, hist[..]);
        assert hist[..][..LHIST + FS] == hist[..LHIST + FS] && hist[..][..LHIST] == hist[..LHIST];
        ExtendFirst(bestlag, zir, sf);
      } else {
        Repeat(bestlag, 0, s.window, Later);
      }
      assert hist[..] == var (lag, fade) := Fading(correlation, s, zir); Extend(s.window, lag, fade, FS + TAIL);
      ghost var all := hist[..];
      out := hist[LHIST..LHIST + FS];
      ShiftDown(LHIST + TAIL);
      assert hist[..][..LHIST + TAIL] == hist[..LHIST + TAIL];
      ShiftedParts(hist[..], all);
    }

    /** PLC_good_frame */
    method GoodFrame(input: seq<int>) returns (out: seq<int>)
      requires Valid() && |input| == FS
      modifies this`nbf, hist
      ensures Valid()
      ensures Step(Model(), out) == GoodStep(old(Model()), input)
    {
      ghost var s := Model();
      out := [];
      for i := 0 to FS
        invariant out == GoodOut(s, input)[..i]
      {
        var sample := input[i];
        if nbf > 0 && i < SBCRT {
          sample := hist[LHIST + i];
        } else if nbf > 0 && i < TAIL {
          sample := Blend(hist[LHIST + i], input[i], i - SBCRT);
        }
        out := out + [sample];
      }
      assert out == GoodOut(s, input);
      for i := 0 to FS
        invariant hist[..LHIST] == s.window
        invariant forall k :: 0 <= k < i ==> hist[LHIST + k] == out[k]
      {
        hist[LHIST + i] := out[i];
      }
      assert hist[LHIST..LHIST + FS] == out;
      ghost var all := hist[..];
      ShiftDown(LHIST);
      nbf := 0;
      assert hist[..LHIST] == all[FS..LHIST + FS] == s.window[FS..] + out;
      assert hist[LHIST..LHIST + FS] == hist[LHIST..][..FS] == all[LHIST..][..FS] == out;
    }

    /** Any run of frames gives what the model gives; started by InitPLC, whatever was in memory. */
    method Conceal(frames: seq<Frame>) returns (out: seq<int>)
      requires Valid() && forall f :: f in frames ==> FrameValid(f)
      modifies this`bestlag, this`nbf, hist
      ensures Valid()
      ensures Step(Model(), out) == Run(correlation, old(Model()), frames)
    {
      hide BadStep, GoodStep, Valid, Model;
      out := [];
      for i := 0 to |frames|
        invariant Valid()
        invariant Step(Model(), out) == Run(correlation, old(Model()), frames[..i])
      {
        assert frames[..i + 1][..i] == frames[..i] && frames[i] in frames;
        var more;
        match frames[i] {
          case Good(samples) => more := GoodFrame(samples);
          case Bad(zir) => more := BadFrame(zir);
        }
        out := out + more;
      }
      assert frames[..|frames|] == frames;
    }
  }

  lemma ShiftedParts(now: seq<int>, before: seq<int>)
    requires |now| == |before| == LHIST + FS + TAIL && now[..LHIST + TAIL] == before[FS..]
    ensures now[..LHIST] == before[FS..LHIST + FS] && now[LHIST..LHIST + TAIL] == before[LHIST + FS..]
  {
    forall k | 0 <= k < LHIST + TAIL ensures now[k] == before[FS + k] {
      assert now[..LHIST + TAIL][k] == before[FS..][k];
    }
  }

  lemma SumAbsNext(s: seq<int>, i: nat)
    requires i < |s|
    ensures SumAbs(s[..i + 1]) == SumAbs(s[..i]) + Abs(s[i])
  {
    assert s[..i + 1][..i] == s[..i];
  }

  /** The gain read from the array is the gain the model computes from the history alone. */
  lemma GainIsModelled(corr: Correlation, hist: seq<int>)
    requires |hist| == LHIST + FS + TAIL && SilentIsNaN(corr)
    requires hist[LHIST..LHIST + FS] == hist[LHIST - FS..LHIST] || hist[..LHIST] == Silence(LHIST)
    ensures var (w, lag) := (hist[..LHIST], BestMatch(corr, hist[..LHIST]) + M);
      Gain(hist[..LHIST + FS], lag) == Gain(w + w[LHIST - FS..], lag)
  {
    hide BestMatch, Gain;
    var w := hist[..LHIST];
    if hist[LHIST..LHIST + FS] == hist[LHIST - FS..LHIST] {
      assert hist[..LHIST + FS] == w + w[LHIST - FS..];
    } else {
      SilentMatch(corr);
      GainOfPrefix(hist[..LHIST + FS], w + w[LHIST - FS..], M);
    }
  }

  lemma GainOfPrefix(a: seq<int>, b: seq<int>, lag: nat)
    requires |a| >= LHIST && |b| >= LHIST && a[..LHIST] == b[..LHIST] && lag + FS <= LHIST
    ensures Gain(a, lag) == Gain(b, lag)
  {
    SamePart(a, b, lag, lag + FS);
    SamePart(a, b, LHIST - FS, LHIST);
  }

  lemma SamePart(a: seq<int>, b: seq<int>, lo: nat, hi: nat)
    requires |a| >= LHIST && |b| >= LHIST && a[..LHIST] == b[..LHIST] && lo <= hi <= LHIST
    ensures a[lo..hi] == b[lo..hi]
  {
    forall k | lo <= k < hi ensures a[k] == b[k] {
      assert a[..LHIST][k] == b[..LHIST][k];
    }
  }
}
