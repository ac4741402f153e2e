/** The streaming loop of `app/run_infer.py`: every prediction the detector
    yields is drawn, every tenth one (by 0-based index) is saved under a
    zero-padded file name, it is shown when `--show` is on (where the quit
    key ends the loop), and every hundredth one (by 1-based count) produces
    a throughput line. The detector, the drawing and OpenCV's windows are
    not modelled: the stream is a sequence of already drawn images, each
    paired with the key code `waitKey` would return right after it. */
module RunInfer {
  import opened Capture
  import opened FrameNames
  import opened Backend

  /** Frames between saves (`i % 10 == 0`). */
  const SaveStride: nat := 10
  /** Frames between throughput lines (`frames % 100 == 0`). */
  const LogStride: nat := 100

  /** The parsed command line. `half`, `use_trt` and `show` are `int`
      flags read for their truth value. */
  datatype Args = Args(source: string, imgsz: int, conf: real, half: int, useTrt: int, show: int)

  /** One item of `model.predict(..., stream=True)`: its drawing `r.plot()`
      and the key code that `waitKey(1)` returns if it is shown. */
  datatype Prediction<Img> = Prediction(plot: Img, key: int)

  /** One image written to disk: frame index, file name, image. */
  datatype SavedFrame<Img> = SavedFrame(index: nat, name: string, image: Img)

  datatype Stop = StreamEnded | UserQuit

  /** What the loop has done so far: the `frames` counter, the saved
      frames, the images shown, and the counts at which a throughput line
      was printed (its FPS value is wall-clock arithmetic and not kept). */
  datatype LoopState<Img> = LoopState(frames: nat, saved: seq<SavedFrame<Img>>, shown: seq<Img>, logs: seq<nat>)

  datatype LoopExit<Img> = LoopExit(state: LoopState<Img>, stop: Stop)

  /** The saves of the first `n` iterations: indices 0, 10, 20, … below `n`,
      each with its file name and the image drawn at that index. */
  ghost predicate SavedEveryTenth<Img>(stream: seq<Prediction<Img>>, n: nat, saved: seq<SavedFrame<Img>>)
    requires n <= |stream|
  {
    && |saved| == (n + SaveStride - 1) / SaveStride
    && forall k :: 0 <= k < |saved| ==>
         SaveStride * k < n && saved[k] == SavedFrame(SaveStride * k, FrameFileName(SaveStride * k), stream[SaveStride * k].plot)
  }

  /** Throughput lines after `n` counted frames: at 100, 200, … up to `n`. */
  ghost predicate LoggedEveryHundred(n: nat, logs: seq<nat>) {
    && |logs| == n / LogStride
    && forall k :: 0 <= k < |logs| ==> logs[k] == LogStride * (k + 1)
  }

  /** The images shown in the first `n` iterations: all of them, in stream
      order, when showing; none otherwise. */
  ghost predicate ShownInOrder<Img>(stream: seq<Prediction<Img>>, show: bool, n: nat, shown: seq<Img>)
    requires n <= |stream|
  {
    if show then |shown| == n && forall j :: 0 <= j < n ==> shown[j] == stream[j].plot
    else shown == []
  }

  ghost predicate NoQuitBefore<Img>(stream: seq<Prediction<Img>>, n: nat)
    requires n <= |stream|
  {
    forall j :: 0 <= j < n ==> !IsQuitKey(stream[j].key)
  }

  /** The loop state after iterations 0 … i-1 have run to their end. */
  ghost predicate Progress<Img>(stream: seq<Prediction<Img>>, show: bool, i: nat, st: LoopState<Img>)
    requires i <= |stream|
  {
    && st.frames == i
    && SavedEveryTenth(stream, i, st.saved)
    && ShownInOrder(stream, show, i, st.shown)
    && LoggedEveryHundred(i, st.logs)
    && (show ==> NoQuitBefore(stream, i))
  }

  /** What the loop has done when it leaves. It stops at the end of the
      stream, or — only when showing — right after the first frame whose
      key is the quit key; that frame counts, may have been saved, and was
      shown, but its throughput check is skipped. */
  ghost predicate Finished<Img>(stream: seq<Prediction<Img>>, show: bool, x: LoopExit<Img>) {
    var n := x.state.frames;
    && n <= |stream|
    && (x.stop == StreamEnded ==> n == |stream| && (show ==> NoQuitBefore(stream, n)))
    && (x.stop == UserQuit ==> show && 1 <= n && IsQuitKey(stream[n - 1].key) && NoQuitBefore(stream, n - 1))
    && (!show ==> x.stop == StreamEnded)
    && SavedEveryTenth(stream, n, x.state.saved)
    && ShownInOrder(stream, show, n, x.state.shown)
    && LoggedEveryHundred(if x.stop == UserQuit then n - 1 else n, x.state.logs)
  }

  /** Frame `i` is written under its file name when its index is a
      multiple of the save stride. */
  function SaveIfDue<Img>(saved: seq<SavedFrame<Img>>, i: nat, im: Img): seq<SavedFrame<Img>> {
    if i % SaveStride == 0 then saved + [SavedFrame(i, FrameFileName(i), im)] else saved
  }

  /** A throughput line is recorded when the counter is a multiple of the
      log stride. */
  function LogIfDue(logs: seq<nat>, frames: nat): seq<nat> {
    if frames % LogStride == 0 then logs + [frames] else logs
  }

  /** The drawing is shown only with the window on. */
  function ShowIfOn<Img>(shown: seq<Img>, show: bool, im: Img): seq<Img> {
    if show then shown + [im] else shown
  }

  /** One more iteration extends the saves by frame `i` exactly when
      `i % 10 == 0`. */
  lemma SavedStep<Img>(stream: seq<Prediction<Img>>, i: nat, saved: seq<SavedFrame<Img>>)
    requires i < |stream|
    requires SavedEveryTenth(stream, i, saved)
    ensures SavedEveryTenth(stream, i + 1, SaveIfDue(saved, i, stream[i].plot))
  {
    if i % SaveStride == 0 {
      SavedAppend(stream, i, saved);
    } else {
      SavedKeep(stream, i, saved);
    }
  }

  lemma SavedKeep<Img>(stream: seq<Prediction<Img>>, i: nat, saved: seq<SavedFrame<Img>>)
    requires i < |stream| && i % SaveStride != 0
    requires SavedEveryTenth(stream, i, saved)
    ensures SavedEveryTenth(stream, i + 1, saved)
  {
    var q := i / SaveStride;
    assert i == SaveStride * q + i % SaveStride;
    assert (i + SaveStride - 1) / SaveStride == q + 1 == (i + 1 + SaveStride - 1) / SaveStride;
  }

  lemma SavedAppend<Img>(stream: seq<Prediction<Img>>, i: nat, saved: seq<SavedFrame<Img>>)
    requires i < |stream| && i % SaveStride == 0
    requires SavedEveryTenth(stream, i, saved)
    ensures SavedEveryTenth(stream, i + 1, saved + [SavedFrame(i, FrameFileName(i), stream[i].plot)])
  {
    var q := i / SaveStride;
    assert i == SaveStride * q;
    assert (i + SaveStride - 1) / SaveStride == q;
    assert (i + 1 + SaveStride - 1) / SaveStride == q + 1;
    var saved' := saved + [SavedFrame(i, FrameFileName(i), stream[i].plot)];
    forall k | 0 <= k < |saved'|
      ensures SaveStride * k < i + 1
      ensures saved'[k] == SavedFrame(SaveStride * k, FrameFileName(SaveStride * k), stream[SaveStride * k].plot)
    {
      if k < |saved| {
        assert saved'[k] == saved[k];
      } else {
        assert k == q;
      }
    }
  }

  lemma ShownStep<Img>(stream: seq<Prediction<Img>>, show: bool, i: nat, shown: seq<Img>)
    requires i < |stream|
    requires ShownInOrder(stream, show, i, shown)
    ensures ShownInOrder(stream, show, i + 1, ShowIfOn(shown, show, stream[i].plot))
  {
  }

  /** The counter reaches `n + 1`; a line is printed exactly when that is a
      multiple of 100. */
  lemma LoggedStep(n: nat, logs: seq<nat>)
    requires LoggedEveryHundred(n, logs)
    ensures LoggedEveryHundred(n + 1, LogIfDue(logs, n + 1))
  {
    assert (n + 1) / LogStride == n / LogStride + (if (n + 1) % LogStride == 0 then 1 else 0);
    if (n + 1) % LogStride == 0 {
      assert LogStride * (n / LogStride + 1) == n + 1;
    }
  }

  /** An iteration without a quit leaves the loop state of one more
      iteration. */
  lemma ContinueStep<Img>(stream: seq<Prediction<Img>>, show: bool, i: nat, acc: LoopState<Img>)
    requires i < |stream|
    requires Progress(stream, show, i, acc)
    requires !(show && IsQuitKey(stream[i].key))
    ensures Progress(stream, show, i + 1, LoopState(i + 1,
      SaveIfDue(acc.saved, i, stream[i].plot), ShowIfOn(acc.shown, show, stream[i].plot), LogIfDue(acc.logs, i + 1)))
  {
    SavedStep(stream, i, acc.saved);
    ShownStep(stream, show, i, acc.shown);
    LoggedStep(i, acc.logs);
  }

  /** An iteration that sees the quit key leaves the loop finished, without
      its throughput check. */
  lemma QuitStep<Img>(stream: seq<Prediction<Img>>, show: bool, i: nat, acc: LoopState<Img>)
    requires i < |stream|
    requires Progress(stream, show, i, acc)
    requires show && IsQuitKey(stream[i].key)
    ensures Finished(stream, show, LoopExit(LoopState(i + 1,
      SaveIfDue(acc.saved, i, stream[i].plot), ShowIfOn(acc.shown, show, stream[i].plot), acc.logs), UserQuit))
  {
    SavedStep(stream, i, acc.saved);
    ShownStep(stream, show, i, acc.shown);
  }

  /** What one iteration leaves: the updated state, and whether it saw the
      quit key with the window on, which ends the loop. */
  datatype Step<Img> = Step(state: LoopState<Img>, quit: bool)

  /** The body of one iteration: count, draw, maybe save, maybe show and
      poll for the quit key, maybe log. */
  function Iterate<Img>(stream: seq<Prediction<Img>>, show: bool, i: nat, acc: LoopState<Img>): (x: Step<Img>)
    requires i < |stream|
    requires Progress(stream, show, i, acc)
    ensures x.quit <==> show && IsQuitKey(stream[i].key)
    ensures x.quit ==> Finished(stream, show, LoopExit(x.state, UserQuit))
    ensures !x.quit ==> Progress(stream, show, i + 1, x.state)
  {
    var p := stream[i];
    var frames := acc.frames + 1;
    var saved := SaveIfDue(acc.saved, i, p.plot);
    var shown := ShowIfOn(acc.shown, show, p.plot);
    if show && IsQuitKey(p.key) then
      QuitStep(stream, show, i, acc);
      Step(LoopState(frames, saved, shown, acc.logs), true)
    else
      ContinueStep(stream, show, i, acc);
      Step(LoopState(frames, saved, shown, LogIfDue(acc.logs, frames)), false)
  }

  /** The loop over the stream from index `i` on, with the state `acc` the
      earlier iterations left; a quit key leaves it early. */
  function Loop<Img>(stream: seq<Prediction<Img>>, show: bool, i: nat, acc: LoopState<Img>): (x: LoopExit<Img>)
    requires i <= |stream|
    requires Progress(stream, show, i, acc)
    ensures Finished(stream, show, x)
    decreases |stream| - i
  {
    if i == |stream| then
      LoopExit(acc, StreamEnded)
    else
      var step := Iterate(stream, show, i, acc);
      if step.quit then LoopExit(step.state, UserQuit) else Loop(stream, show, i + 1, step.state)
  }

  /** Everything one run records. */
  datatype Session<Img> = Session(
    weights: string,
    options: map<string, OptionValue>,
    source: Source,
    frames: nat,
    saved: seq<SavedFrame<Img>>,
    shown: seq<Img>,
    logs: seq<nat>,
    stop: Stop,
    windowsDestroyed: nat)

  /** `main()` of `app/run_infer.py`, given whether `models/best.engine`
      exists and the predictions the detector yields for the resolved
      source. */
  function Main<Img>(args: Args, engineExists: bool, stream: seq<Prediction<Img>>): (s: Session<Img>)
    ensures s.weights == EnginePath || s.weights == PortablePath
    ensures s.weights == EnginePath <==> args.useTrt != 0 && engineExists
    ensures "imgsz" in s.options && s.options["imgsz"] == IntValue(args.imgsz)
    ensures "conf" in s.options && s.options["conf"] == RealValue(args.conf)
    ensures ("half" in s.options) <==> s.weights == PortablePath
    ensures "half" in s.options ==> s.options["half"] == BoolValue(args.half != 0)
    ensures s.options.Keys <= {"imgsz", "conf", "half"}
    ensures s.source.Camera? <==> args.source == "0"
    ensures s.source.Camera? ==> s.source.index == 0
    ensures s.source.Descriptor? ==> s.source.text == args.source
    ensures s.windowsDestroyed == if args.show != 0 then 1 else 0
    ensures args.show == 0 ==> s.stop == StreamEnded && s.frames == |stream|
    ensures Finished(stream, args.show != 0, LoopExit(LoopState(s.frames, s.saved, s.shown, s.logs), s.stop))
  {
    var backend := Resolve(args.useTrt, engineExists, args.imgsz, args.conf, args.half);
    var show := args.show != 0;
    var x := Loop(stream, show, 0, LoopState(0, [], [], []));
    Session(backend.weights, backend.options, ResolveSource(args.source),
            x.state.frames, x.state.saved, x.state.shown, x.state.logs, x.stop,
            if show then 1 else 0)
  }

  /** A stream that ends after fewer than 100 frames, with no quit, prints no
      throughput line; 37 frames are saved at indices 0, 10, 20 and 30. */
  lemma ShortStreamLogsNothing<Img>(args: Args, engineExists: bool, stream: seq<Prediction<Img>>)
    requires |stream| == 37
    requires args.show != 0 ==> forall j :: 0 <= j < |stream| ==> !IsQuitKey(stream[j].key)
    ensures var s := Main(args, engineExists, stream);
      s.stop == StreamEnded && s.frames == 37 && s.logs == [] &&
      |s.saved| == 4 && s.saved[3].name == FrameFileName(30)
  {
    var s := Main(args, engineExists, stream);
    NoQuitRunsToEnd(stream, args.show != 0, LoopExit(LoopState(s.frames, s.saved, s.shown, s.logs), s.stop));
    assert (s.frames + SaveStride - 1) / SaveStride == 4;
  }

  /** Without a quit key, or with the window off, the loop processes the
      whole stream and prints one throughput line per hundred frames. */
  lemma NoQuitRunsToEnd<Img>(stream: seq<Prediction<Img>>, show: bool, x: LoopExit<Img>)
    requires Finished(stream, show, x)
    requires show ==> NoQuitBefore(stream, |stream|)
    ensures x.stop == StreamEnded && x.state.frames == |stream|
    ensures |x.state.logs| == |stream| / LogStride
    ensures SavedEveryTenth(stream, |stream|, x.state.saved)
  {
    if x.stop == UserQuit {
      assert false;
    }
  }

  /** When showing, the loop leaves at the first quit key and nowhere else. */
  lemma FirstQuitEndsLoop<Img>(stream: seq<Prediction<Img>>, x: LoopExit<Img>, i: nat)
    requires Finished(stream, true, x)
    requires i < |stream| && IsQuitKey(stream[i].key) && NoQuitBefore(stream, i)
    ensures x.stop == UserQuit && x.state.frames == i + 1
    ensures LoggedEveryHundred(i, x.state.logs)
    ensures SavedEveryTenth(stream, i + 1, x.state.saved)
  {
    if x.stop == StreamEnded {
      assert false;
    }
    var n := x.state.frames;
    if n - 1 < i {
      assert false;
    } else if n - 1 > i {
      assert false;
    }
  }

  /** The last save of a run that counted `i + 1` frames is frame `i` when
      `i % 10 == 0`. */
  lemma LastSaveIsCurrentFrame<Img>(stream: seq<Prediction<Img>>, i: nat, saved: seq<SavedFrame<Img>>)
    requires i < |stream| && i % SaveStride == 0
    requires SavedEveryTenth(stream, i + 1, saved)
    ensures |saved| > 0 && saved[|saved| - 1] == SavedFrame(i, FrameFileName(i), stream[i].plot)
  {
    var q := i / SaveStride;
    assert i == SaveStride * q;
    assert |saved| == q + 1;
  }

  /** What a loop exit that stopped at the first quit key, at index `i`,
      holds: `i + 1` frames counted, the throughput lines of counts up to
      `i` only, and frame `i` saved last when `i % 10 == 0`. */
  lemma QuitExit<Img>(stream: seq<Prediction<Img>>, x: LoopExit<Img>, i: nat)
    requires Finished(stream, true, x)
    requires i < |stream| && IsQuitKey(stream[i].key) && NoQuitBefore(stream, i)
    ensures x.stop == UserQuit && x.state.frames == i + 1 && |x.state.logs| == i / LogStride
    ensures i % SaveStride == 0 ==>
      |x.state.saved| > 0 && x.state.saved[|x.state.saved| - 1] == SavedFrame(i, FrameFileName(i), stream[i].plot)
  {
    FirstQuitEndsLoop(stream, x, i);
    if i % SaveStride == 0 {
      LastSaveIsCurrentFrame(stream, i, x.state.saved);
    }
  }

  /** With the window on, the first quit key, at index `i`, stops the loop
      with `i + 1` frames counted: frame `i` is saved when `i % 10 == 0`,
      and only the throughput lines of counts up to `i` were printed. */
  lemma QuitStopsAtFirstQuitKey<Img>(args: Args, engineExists: bool, stream: seq<Prediction<Img>>, i: nat)
    requires args.show != 0
    requires i < |stream| && IsQuitKey(stream[i].key)
    requires forall j :: 0 <= j < i ==> !IsQuitKey(stream[j].key)
    ensures var s := Main(args, engineExists, stream);
      s.stop == UserQuit && s.frames == i + 1 && |s.logs| == i / LogStride &&
      (i % SaveStride == 0 ==> |s.saved| > 0 && s.saved[|s.saved| - 1] == SavedFrame(i, FrameFileName(i), stream[i].plot))
  {
    var s := Main(args, engineExists, stream);
    QuitExit(stream, LoopExit(LoopState(s.frames, s.saved, s.shown, s.logs), s.stop), i);
  }
}
