/** The run of the analysis pipeline: the page's run flags (`simState` and
    `analysisCompleted`) and the list of uploaded files, the handlers that
    change them, and `runPipeline`, which walks the seven steps one after the
    other. The flags the wait loop polls reach it as observations (see
    module `Progress`), one trace per step. */
module Pipeline {
  import opened Progress
  import opened JsString

  /** An uploaded file; only its name and size are used. */
  datatype File = File(name: string, size: nat)

  // ----------------------------------------------------------------------
  // Removing an uploaded file
  // ----------------------------------------------------------------------

  /** Where `splice(idx, 1)` starts: a negative index counts back from the
      end (and stops at 0), an index past the end is the end. */
  function SpliceStart(len: nat, idx: int): (s: nat)
    ensures s <= len
    ensures 0 <= idx <= len ==> s == idx
    ensures -(len as int) <= idx < 0 ==> s == len + idx
    ensures idx < -(len as int) ==> s == 0
    ensures idx > len ==> s == len
  {
    if idx < 0 then (if len + idx < 0 then 0 else len + idx)
    else if idx > len then len
    else idx
  }

  /** The list left by `splice(idx, 1)`. */
  function Spliced<T>(xs: seq<T>, idx: int): seq<T>
  {
    var s := SpliceStart(|xs|, idx);
    if s < |xs| then xs[..s] + xs[s + 1..] else xs
  }

  /** `splice(idx, 1)` removes exactly the element at the start position
      (which exists unless the list is empty or `idx` is at or past its
      end), and keeps the others in their order. */
  lemma SplicedRemovesOne<T>(xs: seq<T>, idx: int)
    ensures var s := SpliceStart(|xs|, idx);
      && (s < |xs| <==> xs != [] && idx < |xs|)
      && (s < |xs| ==>
            && |Spliced(xs, idx)| == |xs| - 1
            && multiset(Spliced(xs, idx)) + multiset{xs[s]} == multiset(xs)
            && (forall j :: 0 <= j < s ==> Spliced(xs, idx)[j] == xs[j])
            && (forall j :: s <= j < |xs| - 1 ==> Spliced(xs, idx)[j] == xs[j + 1]))
      && (s == |xs| ==> Spliced(xs, idx) == xs)
  {
    var s := SpliceStart(|xs|, idx);
    if s < |xs| {
      assert xs == xs[..s] + [xs[s]] + xs[s + 1..];
    }
  }

  // ----------------------------------------------------------------------
  // The progress text
  // ----------------------------------------------------------------------

  const ResetText: string := "Waiting to start..."
  const StartText: string := "Starting analysis..."
  const DoneText: string := "Analysis complete " + [Dash] + " results ready."

  /** The separator between a step's title and its percent, and the same
      separator with the pause marker in front of it. */
  const Separator: string := [' ', Dash, ' ']
  const PausedSeparator: string := " (PAUSED)" + Separator

  /** Pause marks the progress text: its first separator gets the marker. */
  function MarkPaused(text: string): string
  {
    ReplaceFirst(text, Separator, PausedSeparator)
  }

  /** Resume removes the first marker again. */
  function UnmarkPaused(text: string): string
  {
    ReplaceFirst(text, PausedSeparator, Separator)
  }

  /** For a text whose title holds no dash, Pause puts the marker right
      after the title. */
  lemma MarkAfterTitle(title: string, rest: string)
    requires Dash !in title
    ensures MarkPaused(title + Separator + rest) == title + PausedSeparator + rest
  {
    var n := |title|;
    var s := title + Separator + rest;
    assert s[n..n + 3] == Separator;
    forall j | 0 <= j < n ensures !OccursAt(s, Separator, j) {
      assert s[j + 1] != Dash by {
        if j + 1 < n {
          assert s[j + 1] == title[j + 1];
        } else {
          assert s[j + 1] == Separator[0];
        }
      }
      if j + 3 <= |s| {
        assert s[j..j + 3][1] == s[j + 1];
      }
    }
    assert FirstAt(s, Separator, n);
    ReplaceFirstMeans(s, Separator, PausedSeparator);
    assert s[..n] == title && s[n + 3..] == rest;
  }

  /** For a text whose title holds no dash, Resume takes out the marker
      that follows the title. */
  lemma UnmarkAfterTitle(title: string, rest: string)
    requires Dash !in title
    ensures UnmarkPaused(title + PausedSeparator + rest) == title + Separator + rest
  {
    var n := |title|;
    var t := title + PausedSeparator + rest;
    assert t[n..n + 12] == PausedSeparator;
    forall j | 0 <= j < n ensures !OccursAt(t, PausedSeparator, j) {
      assert t[j + 10] != Dash by {
        if j + 10 < n {
          assert t[j + 10] == title[j + 10];
        } else {
          assert t[j + 10] == PausedSeparator[j + 10 - n];
        }
      }
      if j + 12 <= |t| {
        assert t[j..j + 12][10] == t[j + 10];
      }
    }
    assert FirstAt(t, PausedSeparator, n);
    ReplaceFirstMeans(t, PausedSeparator, Separator);
    assert t[..n] == title && t[n + 12..] == rest;
  }

  /** Pausing and resuming a step's progress text gives it back, with the
      marker between the title and the percent while paused. */
  lemma PauseResumeText(stepIndex: nat, percent: int)
    requires stepIndex < StepCount
    ensures MarkPaused(ProgressText(stepIndex, percent))
      == PipeSteps[stepIndex].title + PausedSeparator + IntText(percent) + "%"
    ensures UnmarkPaused(MarkPaused(ProgressText(stepIndex, percent))) == ProgressText(stepIndex, percent)
  {
    var title := PipeSteps[stepIndex].title;
    var rest := IntText(percent) + "%";
    assert forall i :: 0 <= i < |title| ==> title[i] != Dash;
    assert ProgressText(stepIndex, percent) == title + Separator + rest;
    MarkAfterTitle(title, rest);
    UnmarkAfterTitle(title, rest);
    assert title + PausedSeparator + IntText(percent) + "%" == title + PausedSeparator + rest;
  }

  // ----------------------------------------------------------------------
  // The run flags
  // ----------------------------------------------------------------------

  /** Why a run stopped early: the loop's `'cancelled'` error, or any other. */
  datatype Failure = CancelledError | OtherError

  /** The progress text the `catch` branch writes first. */
  function FailureText(reason: Failure): (text: string)
    ensures text == "Cancelled" <==> reason == CancelledError
    ensures text != ResetText
  {
    if reason == CancelledError then "Cancelled" else "Error during analysis"
  }

  /** The file the page adds when it starts a run without any. */
  const DemoFile: File := File("demo_sample.fastq", 1500000)

  /** Removes the `active` and `completed` classes from every car. */
  method ClearCars(cars: array<Car>)
    modifies cars
    ensures forall j :: 0 <= j < cars.Length ==> cars[j] == Car(false, false)
  {
    for i := 0 to cars.Length
      invariant forall j :: 0 <= j < i ==> cars[j] == Car(false, false)
    {
      cars[i] := Car(false, false);
    }
  }

  class Controller {
    var running: bool
    var paused: bool
    var cancelled: bool
    var analysisCompleted: bool
    var files: seq<File>
    /** The width of the progress bar, in percent, and the progress text. */
    var bar: int
    var text: string

    /** A completed analysis is not running, and an idle run that has not
        completed carries no pause or cancel request. */
    predicate Valid()
      reads this
    {
      && (analysisCompleted ==> !running)
      && (!running && !analysisCompleted ==> !paused && !cancelled)
    }

    /** The state after the page loads and `resetPipelineUI` first runs. */
    constructor()
      ensures Valid()
      ensures !running && !paused && !cancelled && !analysisCompleted && files == []
      ensures bar == 0 && text == ResetText
    {
      running, paused, cancelled := false, false, false;
      analysisCompleted := false;
      files := [];
      bar, text := 0, ResetText;
    }

    /** The guards at the head of `runPipeline`: a running or completed
        analysis and an empty file list leave everything as it was;
        otherwise the run starts, neither paused nor cancelled, with the bar
        at 0% and the text `Starting analysis...`. */
    method Start() returns (started: bool)
      requires Valid()
      modifies this
      ensures Valid()
      ensures started <==> !old(running) && !old(analysisCompleted) && |old(files)| > 0
      ensures started ==>
        && running && !paused && !cancelled && bar == 0 && text == StartText
        && analysisCompleted == old(analysisCompleted) && files == old(files)
      ensures !started ==> unchanged(this)
    {
      if running || analysisCompleted {
        return false;
      }
      if |files| == 0 {
        return false;
      }
      running, paused, cancelled := true, false, false;
      bar, text := 0, StartText;
      started := true;
    }

    /** The Pause button: while a run is going it toggles `paused` and marks
        or unmarks the progress text; otherwise it does nothing. */
    method TogglePause()
      requires Valid()
      modifies this
      ensures Valid()
      ensures old(running) ==>
        && paused == !old(paused)
        && text == (if paused then MarkPaused(old(text)) else UnmarkPaused(old(text)))
        && running == old(running) && cancelled == old(cancelled) && bar == old(bar)
        && analysisCompleted == old(analysisCompleted) && files == old(files)
      ensures !old(running) ==> unchanged(this)
    {
      if !running {
        return;
      }
      paused := !paused;
      if paused {
        text := MarkPaused(text);
      } else {
        text := UnmarkPaused(text);
      }
    }

    /** The Cancel button: while a run is going it raises `cancelled`;
        otherwise it does nothing. */
    method Cancel()
      requires Valid()
      modifies this
      ensures Valid()
      ensures old(running) ==>
        && cancelled
        && running == old(running) && paused == old(paused) && bar == old(bar) && text == old(text)
        && analysisCompleted == old(analysisCompleted) && files == old(files)
      ensures !old(running) ==> unchanged(this)
    {
      if !running {
        return;
      }
      cancelled := true;
    }

    /** The end of a run that went through every step: the bar is full and
        the text says the results are ready. */
    method Complete()
      requires Valid()
      modifies this
      ensures Valid()
      ensures !running && analysisCompleted && bar == 100 && text == DoneText
      ensures paused == old(paused) && cancelled == old(cancelled) && files == old(files)
    {
      running := false;
      analysisCompleted := true;
      bar, text := 100, DoneText;
    }

    /** `resetPipelineUI`: the bar goes back to 0%, the text to `Waiting to
        start...`, the three run flags are cleared and every car loses its
        `active` and `completed` classes; whether the analysis completed, and
        the files, stay as they were. */
    method Reset(cars: array<Car>)
      requires Valid()
      modifies this, cars
      ensures Valid()
      ensures !running && !paused && !cancelled && bar == 0 && text == ResetText
      ensures analysisCompleted == old(analysisCompleted) && files == old(files)
      ensures forall j :: 0 <= j < cars.Length ==> cars[j] == Car(false, false)
    {
      bar, text := 0, ResetText;
      running, paused, cancelled := false, false, false;
      ClearCars(cars);
    }

    /** The `catch` branch of `runPipeline`: it writes the failure's text and
        then resets the pipeline, which overwrites that text at once. */
    method Abort(reason: Failure, cars: array<Car>)
      requires Valid()
      modifies this, cars
      ensures Valid()
      ensures !running && !paused && !cancelled && bar == 0 && text == ResetText
      ensures analysisCompleted == old(analysisCompleted) && files == old(files)
      ensures forall j :: 0 <= j < cars.Length ==> cars[j] == Car(false, false)
    {
      text := FailureText(reason);
      Reset(cars);
    }

    /** The `catch` branch as evidently meant: the pipeline is reset and the
        failure's text stays on screen. */
    method AbortShowingReason(reason: Failure, cars: array<Car>)
      requires Valid()
      modifies this, cars
      ensures Valid()
      ensures !running && !paused && !cancelled && bar == 0 && text == FailureText(reason)
      ensures analysisCompleted == old(analysisCompleted) && files == old(files)
      ensures forall j :: 0 <= j < cars.Length ==> cars[j] == Car(false, false)
    {
      Reset(cars);
      text := FailureText(reason);
    }

    /** A file input change or a drop replaces the list of files. */
    method SelectFiles(chosen: seq<File>)
      requires Valid()
      modifies this
      ensures Valid()
      ensures files == chosen
      ensures running == old(running) && paused == old(paused) && cancelled == old(cancelled)
      ensures analysisCompleted == old(analysisCompleted) && bar == old(bar) && text == old(text)
    {
      files := chosen;
    }

    /** The Clear button empties the list of files. */
    method ClearFiles()
      requires Valid()
      modifies this
      ensures Valid()
      ensures files == []
      ensures running == old(running) && paused == old(paused) && cancelled == old(cancelled)
      ensures analysisCompleted == old(analysisCompleted) && bar == old(bar) && text == old(text)
    {
      files := [];
    }

    /** A Remove button: `uploadedFiles.splice(idx, 1)`. */
    method RemoveFile(idx: int)
      requires Valid()
      modifies this
      ensures Valid()
      ensures files == Spliced(old(files), idx)
      ensures running == old(running) && paused == old(paused) && cancelled == old(cancelled)
      ensures analysisCompleted == old(analysisCompleted) && bar == old(bar) && text == old(text)
    {
      var s := SpliceStart(|files|, idx);
      if s < |files| {
        files := files[..s] + files[s + 1..];
      }
    }

    /** The Start Analysis button: refused once an analysis has completed
        or while no file is selected; otherwise it resets the pipeline and
        schedules two starts, `runPipeline` after 300 ms and the analysis
        page's own start (`AutoStart`) after 500 ms. */
    method StartClick(cars: array<Car>) returns (scheduled: bool)
      requires Valid()
      modifies this, cars
      ensures Valid()
      ensures scheduled <==> !old(analysisCompleted) && |old(files)| > 0
      ensures scheduled ==>
        && !running && !paused && !cancelled && bar == 0 && text == ResetText
        && analysisCompleted == old(analysisCompleted) && files == old(files)
        && forall j :: 0 <= j < cars.Length ==> cars[j] == Car(false, false)
      ensures !scheduled ==> unchanged(this) && unchanged(cars)
    {
      if analysisCompleted {
        return false;
      }
      if |files| == 0 {
        return false;
      }
      Reset(cars);
      scheduled := true;
    }

    /** The start `navigate` schedules on the analysis page: with no file it
        selects the demo file, then it resets the pipeline and calls
        `runPipeline`, whose guards pass unless the analysis has completed
        (the reset has just cleared `running`). */
    method AutoStart(cars: array<Car>) returns (started: bool)
      requires Valid()
      modifies this, cars
      ensures Valid()
      ensures files == if |old(files)| == 0 then [DemoFile] else old(files)
      ensures started <==> !old(analysisCompleted)
      ensures analysisCompleted == old(analysisCompleted)
      ensures started ==> running && !paused && !cancelled && bar == 0 && text == StartText
      ensures !started ==> !running && !paused && !cancelled && bar == 0 && text == ResetText
      ensures forall j :: 0 <= j < cars.Length ==> cars[j] == Car(false, false)
    {
      if |files| == 0 {
        files := [DemoFile];
      }
      Reset(cars);
      started := Start();
    }

    /** The page's own start as evidently meant: it leaves a run that is
        already going alone. */
    method AutoStartGuarded(cars: array<Car>) returns (started: bool)
      requires Valid()
      modifies this, cars
      ensures Valid()
      ensures old(running) ==> !started && unchanged(this) && unchanged(cars)
      ensures !old(running) ==>
        && (started <==> !old(analysisCompleted))
        && files == (if |old(files)| == 0 then [DemoFile] else old(files))
        && forall j :: 0 <= j < cars.Length ==> cars[j] == Car(false, false)
    {
      if running {
        return false;
      }
      started := AutoStart(cars);
    }

    /** `runPipeline`: the start guards, the steps, then completion or the
        `catch` branch. A run whose observations ran out is still going, and
        shows the last frame its wait loop drew. */
    method Run(cars: array<Car>, traces: seq<Trace>) returns (result: RunResult, frames: seq<Frame>)
      requires Valid()
      requires cars.Length == StepCount && |traces| == StepCount
      requires forall i :: 0 <= i < |traces| ==> ClockOk(traces[i].start, traces[i].obs)
      modifies this, cars
      ensures Valid()
      ensures files == old(files)
      ensures result == Rejected <==> old(running) || old(analysisCompleted) || |old(files)| == 0
      ensures result == Rejected ==> unchanged(this) && unchanged(cars) && frames == []
      ensures result != Rejected ==> StepsOutcome(result) == RunOutcomeOf(traces, 0)
      ensures Climbing(frames)
      ensures result == Completed ==>
        && !running && analysisCompleted && bar == 100 && text == DoneText
        && frames != [] && frames[|frames| - 1].global == 100
        && forall j :: 0 <= j < cars.Length ==> cars[j] == Car(false, true)
      ensures result.CancelledAt? ==>
        && !running && !paused && !cancelled && !analysisCompleted
        && bar == 0 && text == ResetText
        && forall j :: 0 <= j < cars.Length ==> cars[j] == Car(false, false)
      ensures result.StillRunning? ==>
        && running && !analysisCompleted
        && (frames == [] ==> bar == 0 && text == StartText)
        && (frames != [] ==>
              && frames[|frames| - 1].index < StepCount
              && bar == frames[|frames| - 1].global
              && text == FrameText(frames[|frames| - 1]))
    {
      var started := Start();
      if !started {
        return Rejected, [];
      }
      var outcome;
      outcome, frames := RunSteps(cars, traces);
      match outcome {
        case Finished =>
          Complete();
          result := Completed;
        case Aborted(step) =>
          Abort(CancelledError, cars);
          result := CancelledAt(step);
        case Stalled(step) =>
          if frames != [] {
            var last := frames[|frames| - 1];
            bar, text := last.global, FrameText(last);
          }
          result := StillRunning(step);
      }
    }
  }

  /** Clicking Start as written: `runPipeline` starts a run after 300 ms,
      and the page's own start, 200 ms later, finds that run going, resets
      it and starts a second one. */
  method StartClickStartsTwice() returns (first: bool, runningBefore: bool, second: bool)
    ensures first && runningBefore && second
  {
    var c := new Controller();
    var cars := new Car[StepCount](_ => Car(false, false));
    c.SelectFiles([DemoFile]);
    var scheduled := c.StartClick(cars);
    first := c.Start();
    runningBefore := c.running;
    second := c.AutoStart(cars);
  }

  /** With the guarded start, the second start leaves the first run alone. */
  method StartClickStartsOnce() returns (first: bool, second: bool)
    ensures first && !second
  {
    var c := new Controller();
    var cars := new Car[StepCount](_ => Car(false, false));
    c.SelectFiles([DemoFile]);
    var scheduled := c.StartClick(cars);
    first := c.Start();
    second := c.AutoStartGuarded(cars);
  }

  /** A cancelled run as written: the text `Cancelled` is overwritten by the
      reset before it can be seen. */
  method CancelShowsWaiting() returns (shown: string)
    ensures shown == ResetText && shown != FailureText(CancelledError)
  {
    var c := new Controller();
    var cars := new Car[StepCount](_ => Car(false, false));
    c.SelectFiles([DemoFile]);
    var started := c.Start();
    c.Cancel();
    c.Abort(CancelledError, cars);
    shown := c.text;
  }

  /** With the text written after the reset, a cancelled run shows
      `Cancelled`. */
  method CancelShowsReason() returns (shown: string)
    ensures shown == "Cancelled"
  {
    var c := new Controller();
    var cars := new Car[StepCount](_ => Car(false, false));
    c.SelectFiles([DemoFile]);
    var started := c.Start();
    c.Cancel();
    c.AbortShowingReason(CancelledError, cars);
    shown := c.text;
  }

  // ----------------------------------------------------------------------
  // Walking the steps
  // ----------------------------------------------------------------------

  /** What a step sees: whether the run was already cancelled when the
      step begins, the clock when its wait starts, and the passes of its
      wait loop. */
  datatype Trace = Trace(cancelledBefore: bool, start: int, obs: seq<Observation>)

  datatype RunOutcome = Finished | Aborted(step: nat) | Stalled(step: nat)

  /** What `runPipeline` ends with: refused by its guards, completed,
      cancelled at a step, or still waiting. */
  datatype RunResult = Rejected | Completed | CancelledAt(step: nat) | StillRunning(step: nat)

  function StepsOutcome(r: RunResult): RunOutcome
    requires r != Rejected
  {
    match r
    case Completed => Finished
    case CancelledAt(step) => Aborted(step)
    case StillRunning(step) => Stalled(step)
  }

  /** How the run goes on from step `i`. */
  function RunOutcomeOf(traces: seq<Trace>, i: nat): RunOutcome
    requires i <= |traces| <= |PipeSteps|
    decreases |traces| - i
  {
    if i == |traces| then Finished
    else if traces[i].cancelledBefore then Aborted(i)
    else match WaitOutcome(traces[i].start, StepDuration(PipeSteps[i]), traces[i].obs, 0)
      case Done(_) => RunOutcomeOf(traces, i + 1)
      case Cancelled(_) => Aborted(i)
      case _ => Stalled(i)
  }

  /** Step `j` sees no cancel flag on entry and its wait runs to its
      duration. */
  predicate StepDone(traces: seq<Trace>, j: nat)
    requires j < |traces| <= |PipeSteps|
  {
    && !traces[j].cancelledBefore
    && WaitOutcome(traces[j].start, StepDuration(PipeSteps[j]), traces[j].obs, 0).Done?
  }

  /** The run finishes exactly when no step sees the cancel flag on entry
      and every step's wait runs to its duration. */
  lemma {:induction false} FinishesIff(traces: seq<Trace>, i: nat)
    requires i <= |traces| <= |PipeSteps|
    ensures RunOutcomeOf(traces, i) == Finished <==>
      forall j :: i <= j < |traces| ==> StepDone(traces, j)
    decreases |traces| - i
  {
    if i < |traces| {
      FinishesIff(traces, i + 1);
      assert StepDone(traces, i) ==> RunOutcomeOf(traces, i) == RunOutcomeOf(traces, i + 1);
      assert !StepDone(traces, i) ==> RunOutcomeOf(traces, i) != Finished;
    }
  }

  /** The progress bar never moves back. */
  predicate Climbing(frames: seq<Frame>)
  {
    forall i, j :: 0 <= i <= j < |frames| ==> frames[i].global <= frames[j].global
  }

  /** The last frame of a step shows the step complete: the bar stands
      where the next step starts. */
  lemma StepEndFrame(stepIndex: nat, durationMs: nat)
    requires durationMs > 0
    ensures FrameAt(stepIndex, durationMs, durationMs).global == StepStart(stepIndex + 1)
    ensures FrameAt(stepIndex, durationMs, durationMs).step == 100
  {
    assert stepIndex as real + 1.0 == (stepIndex + 1) as real;
    RoundOfInt(100);
  }

  /** Every frame so far belongs to a step before `i` and shows the bar at
      most where step `i` starts. */
  predicate UpTo(frames: seq<Frame>, i: nat)
  {
    forall j :: 0 <= j < |frames| ==> 0 <= frames[j].global <= StepStart(i) && frames[j].index < i
  }

  /** A step's frames, which lie between the step's start and its end,
      follow the frames of the steps before it without going back. */
  lemma AppendStep(frames: seq<Frame>, stepIndex: nat, fs: seq<Frame>)
    requires Climbing(frames) && Rising(fs) && UpTo(frames, stepIndex)
    requires forall j :: 0 <= j < |fs| ==> InStep(stepIndex, fs[j]) && fs[j].index == stepIndex
    ensures Climbing(frames + fs)
    ensures UpTo(frames + fs, stepIndex + 1)
  {
    RoundMonotone(0.0, stepIndex as real / StepCount as real * 100.0);
    RoundOfInt(0);
    RoundMonotone(stepIndex as real / StepCount as real * 100.0, (stepIndex + 1) as real / StepCount as real * 100.0);
  }

  /** Frames of steps before the last lie on the bar. */
  lemma UpToBounded(frames: seq<Frame>, i: nat)
    requires i <= StepCount && UpTo(frames, i)
    ensures forall j :: 0 <= j < |frames| ==> 0 <= frames[j].global <= 100 && frames[j].index < StepCount
  {
    RoundMonotone(i as real / StepCount as real * 100.0, 100.0);
    RoundOfInt(100);
  }

  /** The end of one step of `runPipeline`: its car turns from active to
      completed and, unless it was the last, the next car becomes active. */
  method CompleteStep(cars: array<Car>, i: nat)
    requires i < cars.Length
    requires forall j :: 0 <= j < cars.Length ==> cars[j] == Car(j == i, j < i)
    modifies cars
    ensures forall j :: 0 <= j < cars.Length ==> cars[j] == Car(j == i + 1, j <= i)
  {
    cars[i] := Car(false, true);
    if i + 1 < cars.Length {
      MarkCars(cars, i + 1);
    }
  }

  /** The `for` loop of `runPipeline`: each step checks the cancel flag,
      waits its duration, marks its car completed and makes the next car
      active. */
  method RunSteps(cars: array<Car>, traces: seq<Trace>) returns (outcome: RunOutcome, frames: seq<Frame>)
    requires cars.Length == StepCount && |traces| == StepCount
    requires forall i :: 0 <= i < |traces| ==> ClockOk(traces[i].start, traces[i].obs)
    modifies cars
    ensures outcome == RunOutcomeOf(traces, 0)
    ensures Climbing(frames)
    ensures forall j :: 0 <= j < |frames| ==> 0 <= frames[j].global <= 100 && frames[j].index < StepCount
    ensures outcome == Finished ==>
      && frames != [] && frames[|frames| - 1].global == 100
      && forall j :: 0 <= j < cars.Length ==> cars[j] == Car(false, true)
  {
    RunBounds();
    StepsHaveDurations();
    frames := [];
    var i := 0;
    while i < |traces|
      invariant 0 <= i <= |traces|
      invariant RunOutcomeOf(traces, i) == RunOutcomeOf(traces, 0)
      invariant Climbing(frames)
      invariant UpTo(frames, i)
      invariant 0 < i ==> frames != [] && frames[|frames| - 1].global == StepStart(i)
      invariant 0 < i ==> forall j :: 0 <= j < cars.Length ==> cars[j] == Car(j == i, j < i)
    {
      var t := traces[i];
      if t.cancelledBefore {
        UpToBounded(frames, i);
        return Aborted(i), frames;
      }
      var d := StepDuration(PipeSteps[i]);
      var o, fs := AnimateToStep(cars, i, d, t.start, t.obs);
      AppendStep(frames, i, fs);
      frames := frames + fs;
      UpToBounded(frames, i + 1);
      if o.Cancelled? {
        return Aborted(i), frames;
      } else if !o.Done? {
        return Stalled(i), frames;
      }
      StepEndFrame(i, d);
      CompleteStep(cars, i);
      i := i + 1;
    }
    UpToBounded(frames, i);
    outcome := Finished;
  }
}
