/** The pipeline's seven steps and `animateToStep`: the step index is
    clamped to the train of cars, the cars before it are marked completed,
    and a loop waits until the step's duration has elapsed, not counting the
    time spent paused, and reports the progress on the way. The browser's
    clock and the run flags the loop polls are injected: each pass of the
    loop reads one `Observation`. */
module Progress {
  import opened Numerals

  /** Text made of ASCII characters only, as the step titles are. */
  type Ascii = s: string | forall i :: 0 <= i < |s| ==> s[i] < '\U{0080}'

  /** One entry of `PIPE_STEPS`; icons are left out. */
  datatype Step = Step(id: string, title: Ascii, duration: nat)

  const IngestTitle: Ascii := "Data Ingestion"
  const KmerTitle: Ascii := "K-mer Conversion"
  const EmbedTitle: Ascii := "Embedding (BERT)"
  const InferenceTitle: Ascii := "Model Inference"
  const ClusterTitle: Ascii := "Clustering (HDBSCAN)"
  const DiversityTitle: Ascii := "Diversity Metrics"
  const AnnotationTitle: Ascii := "Taxonomic Annotation"

  const PipeSteps: seq<Step> := [
    Step("ingest", IngestTitle, 1200),
    Step("kmer", KmerTitle, 900),
    Step("embed", EmbedTitle, 1400),
    Step("inference", InferenceTitle, 1300),
    Step("cluster", ClusterTitle, 1100),
    Step("diversity", DiversityTitle, 800),
    Step("annotation", AnnotationTitle, 700)]

  const StepCount: nat := 7

  /** `PIPE_STEPS[i].duration || 1000`: a zero duration waits one second. */
  function StepDuration(s: Step): (d: nat)
    ensures d > 0
    ensures s.duration != 0 ==> d == s.duration
    ensures s.duration == 0 ==> d == 1000
  {
    if s.duration == 0 then 1000 else s.duration
  }

  /** Every step of the pipeline waits its own, positive, duration. */
  lemma StepsHaveDurations()
    ensures |PipeSteps| == StepCount
    ensures forall i :: 0 <= i < |PipeSteps| ==> StepDuration(PipeSteps[i]) == PipeSteps[i].duration > 0
  {
  }

  // ----------------------------------------------------------------------
  // The train of cars
  // ----------------------------------------------------------------------

  /** One `.pipeline-step` box: its `active` and `completed` classes. */
  datatype Car = Car(active: bool, completed: bool)

  /** `Math.max(0, Math.min(count - 1, stepIndex))`. */
  function ClampStep(stepIndex: int, count: nat): (s: nat)
    requires count > 0
    ensures s < count
    ensures 0 <= stepIndex < count ==> s == stepIndex
    ensures stepIndex < 0 ==> s == 0
    ensures stepIndex >= count ==> s == count - 1
  {
    if stepIndex < 0 then 0 else if stepIndex >= count then count - 1 else stepIndex
  }

  /** Marks the cars before `stepIndex` completed and the car at it active;
      every other class is removed. */
  method MarkCars(cars: array<Car>, stepIndex: nat)
    requires stepIndex < cars.Length
    modifies cars
    ensures forall i :: 0 <= i < cars.Length ==> cars[i] == Car(i == stepIndex, i < stepIndex)
  {
    for i := 0 to cars.Length
      invariant forall j :: 0 <= j < i ==> cars[j] == Car(false, j < stepIndex)
    {
      cars[i] := Car(false, i < stepIndex);
    }
    cars[stepIndex] := cars[stepIndex].(active := true);
  }

  // ----------------------------------------------------------------------
  // Time not spent paused
  // ----------------------------------------------------------------------

  /** What one pass of the wait loop reads: the clock, in milliseconds, and
      the `paused` and `cancelled` flags. */
  datatype Observation = Observation(now: int, paused: bool, cancelled: bool)

  /** The clock is positive and never goes back, from the reading taken
      when the step starts through every later one. */
  predicate ClockOk(start: int, obs: seq<Observation>)
  {
    && 0 < start
    && (|obs| > 0 ==> start <= obs[0].now)
    && forall i :: 0 < i < |obs| ==> obs[i - 1].now <= obs[i].now
  }

  /** The time from `start` to observation `k` that is not spent paused:
      the interval up to an observation counts unless the observation before
      it saw the run paused. */
  function Elapsed(start: int, obs: seq<Observation>, k: nat): (e: int)
    requires k < |obs|
    ensures ClockOk(start, obs) ==> 0 <= e <= obs[k].now - start
  {
    if k == 0 then obs[0].now - start
    else Elapsed(start, obs, k - 1) + (if obs[k - 1].paused then 0 else obs[k].now - obs[k - 1].now)
  }

  /** The time up to observation `k` spent paused. */
  function PausedTime(obs: seq<Observation>, k: nat): int
    requires k < |obs|
  {
    if k == 0 then 0
    else PausedTime(obs, k - 1) + (if obs[k - 1].paused then obs[k].now - obs[k - 1].now else 0)
  }

  /** The elapsed time is the wall-clock time less the time spent paused,
      and lies between zero and the wall-clock time. */
  lemma {:induction false} ElapsedExcludesPauses(start: int, obs: seq<Observation>, k: nat)
    requires ClockOk(start, obs) && k < |obs|
    ensures Elapsed(start, obs, k) == obs[k].now - start - PausedTime(obs, k)
    ensures 0 <= PausedTime(obs, k)
    ensures 0 <= Elapsed(start, obs, k) <= obs[k].now - start
  {
    if k > 0 {
      ElapsedExcludesPauses(start, obs, k - 1);
    }
  }

  /** Without a pause the elapsed time is the wall-clock time. */
  lemma {:induction false} ElapsedWithoutPauses(start: int, obs: seq<Observation>, k: nat)
    requires k < |obs|
    requires forall j :: 0 <= j < k ==> !obs[j].paused
    ensures Elapsed(start, obs, k) == obs[k].now - start
  {
    if k > 0 {
      ElapsedWithoutPauses(start, obs, k - 1);
    }
  }

  /** A pause freezes the elapsed time: when the run is paused from
      observation `p` until observation `k`, the elapsed time at `k`, when
      the run resumes, is the elapsed time at `p`, when it paused. */
  lemma {:induction false} PauseFreezesElapsed(start: int, obs: seq<Observation>, p: nat, k: nat)
    requires p <= k < |obs|
    requires forall j :: p <= j < k ==> obs[j].paused
    ensures Elapsed(start, obs, k) == Elapsed(start, obs, p)
    decreases k - p
  {
    if p < k {
      PauseFreezesElapsed(start, obs, p, k - 1);
    }
  }

  /** The elapsed time never goes back. */
  lemma {:induction false} ElapsedMonotone(start: int, obs: seq<Observation>, j: nat, k: nat)
    requires ClockOk(start, obs) && j <= k < |obs|
    ensures Elapsed(start, obs, j) <= Elapsed(start, obs, k)
    decreases k - j
  {
    if j < k {
      ElapsedMonotone(start, obs, j, k - 1);
    }
  }

  // ----------------------------------------------------------------------
  // When the wait ends
  // ----------------------------------------------------------------------

  datatype Outcome =
    | Done(at: nat)       // the step's duration elapsed at this observation
    | Cancelled(at: nat)  // the loop threw 'cancelled' at this observation
    | Waiting             // the observations ran out first
    | Skipped             // there were no cars, so nothing was waited for

  /** Observation `k` lets the loop go on: the run is not cancelled, and it
      is paused or the duration has not yet elapsed. */
  predicate Continues(start: int, durationMs: nat, obs: seq<Observation>, k: nat)
    requires k < |obs|
  {
    !obs[k].cancelled && (obs[k].paused || Elapsed(start, obs, k) < durationMs)
  }

  /** How the wait ends, read from observation `k` on: cancelled at an
      observation that saw the flag, done at one that saw the run not paused
      with its duration elapsed, or still waiting when the observations run
      out. */
  function WaitOutcome(start: int, durationMs: nat, obs: seq<Observation>, k: nat): (o: Outcome)
    requires k <= |obs|
    ensures o != Skipped
    ensures o.Cancelled? ==> k <= o.at < |obs| && obs[o.at].cancelled
    ensures o.Done? ==>
      && k <= o.at < |obs| && !obs[o.at].cancelled && !obs[o.at].paused
      && Elapsed(start, obs, o.at) >= durationMs
    decreases |obs| - k
  {
    if k == |obs| then Waiting
    else if obs[k].cancelled then Cancelled(k)
    else if !Continues(start, durationMs, obs, k) then Done(k)
    else WaitOutcome(start, durationMs, obs, k + 1)
  }

  /** The wait ends at the first observation that does not let it go on:
      with `Cancelled` when the flag is set, whether or not the run is also
      paused, and with `Done` when the run is not paused and the elapsed time
      has reached the duration. */
  lemma {:induction false} WaitOutcomeMeans(start: int, durationMs: nat, obs: seq<Observation>, k: nat, m: nat)
    requires k <= m < |obs|
    requires forall j :: k <= j < m ==> Continues(start, durationMs, obs, j)
    ensures obs[m].cancelled ==> WaitOutcome(start, durationMs, obs, k) == Cancelled(m)
    ensures !obs[m].cancelled && !obs[m].paused && Elapsed(start, obs, m) >= durationMs
      ==> WaitOutcome(start, durationMs, obs, k) == Done(m)
    ensures Continues(start, durationMs, obs, m)
      ==> WaitOutcome(start, durationMs, obs, k) == WaitOutcome(start, durationMs, obs, m + 1)
    decreases m - k
  {
    if k < m {
      WaitOutcomeMeans(start, durationMs, obs, k + 1, m);
    }
  }

  /** Conversely, a wait that ends at observation `m` went on at every
      observation before it. */
  lemma {:induction false} WaitOutcomeHistory(start: int, durationMs: nat, obs: seq<Observation>, k: nat, m: nat)
    requires k <= |obs|
    requires WaitOutcome(start, durationMs, obs, k) in {Done(m), Cancelled(m)}
    ensures k <= m < |obs|
    ensures forall j :: k <= j < m ==> Continues(start, durationMs, obs, j)
    ensures WaitOutcome(start, durationMs, obs, k) == Cancelled(m) <==> obs[m].cancelled
    decreases |obs| - k
  {
    if k < |obs| && Continues(start, durationMs, obs, k) {
      WaitOutcomeHistory(start, durationMs, obs, k + 1, m);
    }
  }

  // ----------------------------------------------------------------------
  // Progress
  // ----------------------------------------------------------------------

  /** `Math.round`: the nearest integer, halves rounded up. */
  function JsRound(x: real): (n: int)
    ensures n as real - 0.5 <= x < n as real + 0.5
  {
    (x + 0.5).Floor
  }

  lemma RoundMonotone(x: real, y: real)
    requires x <= y
    ensures JsRound(x) <= JsRound(y)
  {
  }

  lemma RoundOfInt(n: int)
    ensures JsRound(n as real) == n
  {
  }

  /** `Math.min(1, elapsed / durationMs)`. */
  function Fraction(elapsed: int, durationMs: nat): (pct: real)
    requires durationMs > 0
    ensures 0 <= elapsed ==> 0.0 <= pct <= 1.0
    ensures elapsed >= durationMs ==> pct == 1.0
  {
    if elapsed >= durationMs then 1.0 else elapsed as real / durationMs as real
  }

  lemma FractionMonotone(e1: int, e2: int, durationMs: nat)
    requires durationMs > 0 && e1 <= e2
    ensures Fraction(e1, durationMs) <= Fraction(e2, durationMs)
  {
    if e2 < durationMs {
      var d := durationMs as real;
      assert e1 as real / d <= e2 as real / d by {
        assert (e2 as real - e1 as real) / d >= 0.0;
      }
    }
  }

  /** What one pass of the loop shows: the progress bar's global percent
      and, in the progress text, the step's index and its percent. */
  datatype Frame = Frame(global: int, step: int, index: nat)

  /** The dash that separates a step's title from its percent. */
  const Dash: char := '\U{2014}'

  /** A number as a template literal prints it. */
  function IntText(n: int): (s: string)
    ensures Dash !in s
  {
    if n < 0 then "-" + Decimal(-n) else Decimal(n)
  }

  /** `${PIPE_STEPS[stepIndex].title} — ${percent}%`. */
  function ProgressText(stepIndex: nat, percent: int): string
    requires stepIndex < StepCount
  {
    PipeSteps[stepIndex].title + [' ', Dash, ' '] + IntText(percent) + "%"
  }

  /** The progress text a frame writes. */
  function FrameText(f: Frame): string
    requires f.index < StepCount
  {
    ProgressText(f.index, f.step)
  }

  /** The global percent at which step `stepIndex` starts. */
  function StepStart(stepIndex: nat): int
  {
    JsRound(stepIndex as real / StepCount as real * 100.0)
  }

  /** The frame one pass of the wait loop draws: the global percent and
      the step's own percent, for step `stepIndex`; once the duration has
      elapsed the step shows 100%. */
  function FrameAt(stepIndex: nat, durationMs: nat, elapsed: int): (f: Frame)
    requires durationMs > 0
    ensures f.index == stepIndex
    ensures elapsed >= durationMs ==> f.step == 100
  {
    var pct := Fraction(elapsed, durationMs);
    var step := JsRound(pct * 100.0);
    Frame(JsRound((stepIndex as real + pct) / StepCount as real * 100.0), step, stepIndex)
  }

  /** The frames shown during step `stepIndex` lie between the step's start
      and the next step's start, and within the step's own 0 to 100. */
  predicate InStep(stepIndex: nat, f: Frame)
  {
    StepStart(stepIndex) <= f.global <= StepStart(stepIndex + 1) && 0 <= f.step <= 100
  }

  /** Neither percent ever goes back. */
  predicate Rising(frames: seq<Frame>)
  {
    forall i, j :: 0 <= i <= j < |frames| ==> frames[i].global <= frames[j].global && frames[i].step <= frames[j].step
  }

  lemma {:induction false} FrameBounds(stepIndex: nat, durationMs: nat, elapsed: int)
    requires durationMs > 0 && 0 <= elapsed
    ensures InStep(stepIndex, FrameAt(stepIndex, durationMs, elapsed))
  {
    var pct := Fraction(elapsed, durationMs);
    var n := StepCount as real;
    RoundMonotone(stepIndex as real / n * 100.0, (stepIndex as real + pct) / n * 100.0);
    RoundMonotone((stepIndex as real + pct) / n * 100.0, (stepIndex as real + 1.0) / n * 100.0);
    RoundMonotone(0.0, pct * 100.0);
    RoundMonotone(pct * 100.0, 100.0);
    RoundOfInt(0);
    RoundOfInt(100);
  }

  lemma {:induction false} FrameMonotone(stepIndex: nat, durationMs: nat, e1: int, e2: int)
    requires durationMs > 0 && e1 <= e2
    ensures FrameAt(stepIndex, durationMs, e1).global <= FrameAt(stepIndex, durationMs, e2).global
    ensures FrameAt(stepIndex, durationMs, e1).step <= FrameAt(stepIndex, durationMs, e2).step
  {
    var p1 := Fraction(e1, durationMs);
    var p2 := Fraction(e2, durationMs);
    FractionMonotone(e1, e2, durationMs);
    var n := StepCount as real;
    RoundMonotone((stepIndex as real + p1) / n * 100.0, (stepIndex as real + p2) / n * 100.0);
    RoundMonotone(p1 * 100.0, p2 * 100.0);
  }

  /** The first step starts at 0% and the last one ends at 100%. */
  lemma RunBounds()
    ensures StepStart(0) == 0 && StepStart(StepCount) == 100
  {
    RoundOfInt(0);
    RoundOfInt(100);
  }

  // ----------------------------------------------------------------------
  // The wait loop
  // ----------------------------------------------------------------------

  /** The frames the wait loop shows from pass `k` on: one for each pass
      that is neither cancelled nor paused, at the elapsed time of that
      pass, up to the pass at which the duration is reached. */
  function ShownFrames(stepIndex: nat, durationMs: nat, start: int, obs: seq<Observation>, k: nat): seq<Frame>
    requires durationMs > 0 && k <= |obs|
    decreases |obs| - k
  {
    if k == |obs| || obs[k].cancelled then []
    else if obs[k].paused then ShownFrames(stepIndex, durationMs, start, obs, k + 1)
    else
      var f := FrameAt(stepIndex, durationMs, Elapsed(start, obs, k));
      if Elapsed(start, obs, k) >= durationMs then [f]
      else [f] + ShownFrames(stepIndex, durationMs, start, obs, k + 1)
  }

  /** One pass of the loop in terms of the frames it shows. */
  lemma ShownAt(stepIndex: nat, durationMs: nat, start: int, obs: seq<Observation>, k: nat)
    requires durationMs > 0 && k < |obs|
    ensures obs[k].cancelled ==> ShownFrames(stepIndex, durationMs, start, obs, k) == []
    ensures !obs[k].cancelled && obs[k].paused ==>
      ShownFrames(stepIndex, durationMs, start, obs, k) == ShownFrames(stepIndex, durationMs, start, obs, k + 1)
    ensures !obs[k].cancelled && !obs[k].paused ==>
      ShownFrames(stepIndex, durationMs, start, obs, k)
      == [FrameAt(stepIndex, durationMs, Elapsed(start, obs, k))]
        + (if Elapsed(start, obs, k) >= durationMs then [] else ShownFrames(stepIndex, durationMs, start, obs, k + 1))
  {
  }

  /** The frames shown so far and those still to come make up all the
      frames of the wait, pass after pass. */
  lemma ShownNext(stepIndex: nat, durationMs: nat, start: int, obs: seq<Observation>, k: nat, frames: seq<Frame>)
    requires durationMs > 0 && k <= |obs|
    requires frames + ShownFrames(stepIndex, durationMs, start, obs, k) == ShownFrames(stepIndex, durationMs, start, obs, 0)
    ensures k == |obs| || obs[k].cancelled ==> frames == ShownFrames(stepIndex, durationMs, start, obs, 0)
    ensures k < |obs| && !obs[k].cancelled && obs[k].paused ==>
      frames + ShownFrames(stepIndex, durationMs, start, obs, k + 1) == ShownFrames(stepIndex, durationMs, start, obs, 0)
    ensures k < |obs| && !obs[k].cancelled && !obs[k].paused ==>
      var f := FrameAt(stepIndex, durationMs, Elapsed(start, obs, k));
      if Elapsed(start, obs, k) >= durationMs then frames + [f] == ShownFrames(stepIndex, durationMs, start, obs, 0)
      else (frames + [f]) + ShownFrames(stepIndex, durationMs, start, obs, k + 1) == ShownFrames(stepIndex, durationMs, start, obs, 0)
  {
    if k == |obs| || obs[k].cancelled {
      assert frames + [] == frames;
    } else {
      ShownAt(stepIndex, durationMs, start, obs, k);
      var f := FrameAt(stepIndex, durationMs, Elapsed(start, obs, k));
      var rest := ShownFrames(stepIndex, durationMs, start, obs, k + 1);
      assert frames + ([f] + []) == frames + [f];
      assert frames + ([f] + rest) == (frames + [f]) + rest;
    }
  }

  /** The frames shown from pass `k` on never go back, stay within the
      step, and start no lower than the frame of pass `k` itself. */
  lemma {:induction false} ShownFramesRise(stepIndex: nat, durationMs: nat, start: int, obs: seq<Observation>, k: nat)
    requires durationMs > 0 && ClockOk(start, obs) && k <= |obs|
    ensures Rising(ShownFrames(stepIndex, durationMs, start, obs, k))
    ensures forall i :: 0 <= i < |ShownFrames(stepIndex, durationMs, start, obs, k)| ==>
      InStep(stepIndex, ShownFrames(stepIndex, durationMs, start, obs, k)[i])
      && ShownFrames(stepIndex, durationMs, start, obs, k)[i].index == stepIndex
    ensures k < |obs| ==> forall i :: 0 <= i < |ShownFrames(stepIndex, durationMs, start, obs, k)| ==>
      var f := FrameAt(stepIndex, durationMs, Elapsed(start, obs, k));
      var g := ShownFrames(stepIndex, durationMs, start, obs, k)[i];
      f.global <= g.global && f.step <= g.step
    decreases |obs| - k
  {
    if k < |obs| && !obs[k].cancelled {
      ShownAt(stepIndex, durationMs, start, obs, k);
      ShownFramesRise(stepIndex, durationMs, start, obs, k + 1);
      if k + 1 < |obs| {
        ElapsedMonotone(start, obs, k, k + 1);
        FrameMonotone(stepIndex, durationMs, Elapsed(start, obs, k), Elapsed(start, obs, k + 1));
      }
      if !obs[k].paused {
        ElapsedExcludesPauses(start, obs, k);
        FrameBounds(stepIndex, durationMs, Elapsed(start, obs, k));
      }
    }
  }

  /** A wait that is done at pass `m` ends with the frame of pass `m`, which
      shows the step complete. */
  lemma {:induction false} ShownFramesDone(stepIndex: nat, durationMs: nat, start: int, obs: seq<Observation>, k: nat, m: nat)
    requires durationMs > 0 && k <= |obs|
    requires WaitOutcome(start, durationMs, obs, k) == Done(m)
    ensures ShownFrames(stepIndex, durationMs, start, obs, k) != []
    ensures ShownFrames(stepIndex, durationMs, start, obs, k)[|ShownFrames(stepIndex, durationMs, start, obs, k)| - 1]
      == FrameAt(stepIndex, durationMs, durationMs)
    decreases |obs| - k
  {
    ShownAt(stepIndex, durationMs, start, obs, k);
    if Continues(start, durationMs, obs, k) {
      ShownFramesDone(stepIndex, durationMs, start, obs, k + 1, m);
    }
  }

  /** The `while (true)` loop of `animateToStep` for a step already clamped:
      cancellation is checked first; a paused pass remembers when the pause
      began and shows nothing; the first pass after a pause adds the pause
      to `pausedAccum`; every other pass shows a frame and stops once the
      elapsed time reaches the duration. `pauseStart` is 0 while no pause is
      open, as the source tests it for truthiness. */
  method WaitForStep(stepIndex: nat, durationMs: nat, start: int, obs: seq<Observation>)
    returns (outcome: Outcome, frames: seq<Frame>)
    requires durationMs > 0 && stepIndex < StepCount && ClockOk(start, obs)
    ensures outcome == WaitOutcome(start, durationMs, obs, 0)
    ensures frames == ShownFrames(stepIndex, durationMs, start, obs, 0)
  {
    var pausedAccum := 0;
    var pauseStart := 0;
    var k := 0;
    frames := [];
    assert frames + ShownFrames(stepIndex, durationMs, start, obs, 0) == ShownFrames(stepIndex, durationMs, start, obs, 0);
    outcome := Waiting;
    while k < |obs|
      invariant 0 <= k <= |obs|
      invariant WaitOutcome(start, durationMs, obs, k) == WaitOutcome(start, durationMs, obs, 0)
      invariant frames + ShownFrames(stepIndex, durationMs, start, obs, k) == ShownFrames(stepIndex, durationMs, start, obs, 0)
      invariant k == 0 ==> pausedAccum == 0 && pauseStart == 0
      invariant 0 < k ==> start <= obs[k - 1].now
      invariant 0 < k ==> (pauseStart != 0 <==> obs[k - 1].paused)
      invariant 0 < k ==>
        (if pauseStart != 0 then pauseStart else obs[k - 1].now) - start - pausedAccum == Elapsed(start, obs, k - 1)
      decreases |obs| - k
    {
      var o := obs[k];
      ShownNext(stepIndex, durationMs, start, obs, k, frames);
      if o.cancelled {
        outcome := Cancelled(k);
        break;
      }
      if o.paused {
        if pauseStart == 0 {
          pauseStart := o.now;
        }
        k := k + 1;
        continue;
      } else if pauseStart != 0 {
        pausedAccum := pausedAccum + (o.now - pauseStart);
        pauseStart := 0;
      }
      var elapsed := o.now - start - pausedAccum;
      assert elapsed == Elapsed(start, obs, k);
      var f := FrameAt(stepIndex, durationMs, elapsed);
      if elapsed >= durationMs {
        frames := frames + [f];
        outcome := Done(k);
        break;
      }
      frames := frames + [f];
      k := k + 1;
    }
    if outcome == Waiting {
      ShownNext(stepIndex, durationMs, start, obs, k, frames);
    }
  }

  /** `animateToStep(stepIndex, durationMs)`: with no cars it returns at
      once; otherwise it clamps the index, marks the cars and waits. */
  method AnimateToStep(cars: array<Car>, stepIndex: int, durationMs: nat, start: int, obs: seq<Observation>)
    returns (outcome: Outcome, frames: seq<Frame>)
    requires durationMs > 0 && ClockOk(start, obs)
    requires cars.Length == 0 || ClampStep(stepIndex, cars.Length) < StepCount
    modifies cars
    ensures cars.Length == 0 ==> outcome == Skipped && frames == []
    ensures cars.Length > 0 ==>
      var s := ClampStep(stepIndex, cars.Length);
      && outcome == WaitOutcome(start, durationMs, obs, 0)
      && frames == ShownFrames(s, durationMs, start, obs, 0)
      && (forall i :: 0 <= i < cars.Length ==> cars[i] == Car(i == s, i < s))
      && Rising(frames)
      && (forall i :: 0 <= i < |frames| ==> InStep(s, frames[i]) && frames[i].index == s)
      && (outcome.Done? ==> frames != [] && frames[|frames| - 1] == FrameAt(s, durationMs, durationMs))
  {
    if cars.Length == 0 {
      return Skipped, [];
    }
    var s := ClampStep(stepIndex, cars.Length);
    MarkCars(cars, s);
    outcome, frames := WaitForStep(s, durationMs, start, obs);
    ShownFramesRise(s, durationMs, start, obs, 0);
    if outcome.Done? {
      ShownFramesDone(s, durationMs, start, obs, 0, outcome.at);
    }
  }
}
