/** `main()` of `detect_cam.py` as the sequence of side effects it performs:
    check that `best.pt` sits next to the script, load it, open the capture,
    create the window, then read, infer, show and poll until a read fails or
    the quit key is seen, and finally release the capture and destroy the
    windows. The detector is a function parameter; the capture is a trace
    of read results, each successful one paired with the key code
    `waitKey(1)` returns after that frame is shown. */
module DetectCam {
  import opened Capture

  /** The weights file, looked up next to the script. */
  const WeightsPath := "best.pt"

  /** One `cap.read()`: failure, or a frame followed by the key polled after
      showing it. Reads past the end of the trace fail. */
  datatype Read<F> = ReadFailed | ReadOk(frame: F, key: int)

  datatype Effect<F> =
    | LoadModel(path: string)
    | OpenCapture(source: Source)
    | CreateWindow
    | ReadFrame
    | Infer(frame: F, conf: real)
    | Show(image: F)
    | PollKey(key: int)
    | Release
    | DestroyWindows

  datatype Error = WeightsNotFound(path: string) | SourceNotOpened(source: Source)

  datatype LoopStop = ReadFailure | QuitKeyPressed

  /** How `main` leaves: by raising, or by returning after the loop. */
  datatype Exit = Raised(error: Error) | Returned(stop: LoopStop)

  /** The effects in order, how `main` left, and how many frames went
      through the loop body. */
  datatype Run<F> = Run(effects: seq<Effect<F>>, exit: Exit, processed: nat)

  datatype LoopRun<F> = LoopRun(effects: seq<Effect<F>>, stop: LoopStop, processed: nat)

  /** The (frame, confidence) calls made to the detector, in order. */
  function Inferred<F>(effects: seq<Effect<F>>): seq<(F, real)> {
    if |effects| == 0 then []
    else (if effects[0].Infer? then [(effects[0].frame, effects[0].conf)] else []) + Inferred(effects[1..])
  }

  /** The images put in the window, in order. */
  function Displayed<F>(effects: seq<Effect<F>>): seq<F> {
    if |effects| == 0 then []
    else (if effects[0].Show? then [effects[0].image] else []) + Displayed(effects[1..])
  }

  lemma {:induction false} InferredAppend<F>(a: seq<Effect<F>>, b: seq<Effect<F>>)
    ensures Inferred(a + b) == Inferred(a) + Inferred(b)
    decreases |a|
  {
    if |a| > 0 {
      assert (a + b)[1..] == a[1..] + b;
      InferredAppend(a[1..], b);
    } else {
      assert a + b == b;
    }
  }

  lemma {:induction false} DisplayedAppend<F>(a: seq<Effect<F>>, b: seq<Effect<F>>)
    ensures Displayed(a + b) == Displayed(a) + Displayed(b)
    decreases |a|
  {
    if |a| > 0 {
      assert (a + b)[1..] == a[1..] + b;
      DisplayedAppend(a[1..], b);
    } else {
      assert a + b == b;
    }
  }

  /** The frames of the successful results in a stretch of the trace. */
  function Frames<F>(results: seq<Read<F>>): seq<F> {
    if |results| == 0 then []
    else (if results[0].ReadOk? then [results[0].frame] else []) + Frames(results[1..])
  }

  /** The detector calls for `frames`, in order, each with `conf`. */
  function Requests<F>(frames: seq<F>, conf: real): seq<(F, real)> {
    if |frames| == 0 then [] else [(frames[0], conf)] + Requests(frames[1..], conf)
  }

  /** The detector's drawings of `frames`, in order. */
  function Annotate<F>(frames: seq<F>, conf: real, detect: (F, real) -> F): seq<F> {
    if |frames| == 0 then [] else [detect(frames[0], conf)] + Annotate(frames[1..], conf, detect)
  }

  /** The first `n` reads of the trace all succeed. */
  predicate AllReadBefore<F>(trace: seq<Read<F>>, n: nat)
    requires n <= |trace|
  {
    forall j :: 0 <= j < n ==> trace[j].ReadOk?
  }

  /** The first `n` reads of the trace all succeed and none is followed by
      the quit key. */
  predicate ReadsOkNoQuitBefore<F>(trace: seq<Read<F>>, n: nat)
    requires n <= |trace|
  {
    forall j :: 0 <= j < n ==> trace[j].ReadOk? && !IsQuitKey(trace[j].key)
  }

  /** Effects of one pass through the loop body on frame `f`. */
  function Pass<F>(f: F, key: int, conf: real, detect: (F, real) -> F): seq<Effect<F>> {
    [ReadFrame, Infer(f, conf), Show(detect(f, conf)), PollKey(key)]
  }

  lemma PassCalls<F>(f: F, key: int, conf: real, detect: (F, real) -> F)
    ensures Inferred(Pass(f, key, conf, detect)) == [(f, conf)]
    ensures Displayed(Pass(f, key, conf, detect)) == [detect(f, conf)]
  {
    var p := Pass(f, key, conf, detect);
    assert p[3..][1..] == [];
    assert p[2..][1..] == p[3..];
    assert p[1..][1..] == p[2..];
    assert Inferred(p[3..]) == [] && Displayed(p[3..]) == [];
    assert Inferred(p[2..]) == [] && Displayed(p[2..]) == [detect(f, conf)];
    assert Inferred(p[1..]) == [(f, conf)] && Displayed(p[1..]) == [detect(f, conf)];
  }

  lemma PassCounts<F>(f: F, key: int, conf: real, detect: (F, real) -> F)
    ensures multiset(Pass(f, key, conf, detect))[ReadFrame] == 1
    ensures multiset(Pass(f, key, conf, detect))[Release] == 0
    ensures multiset(Pass(f, key, conf, detect))[DestroyWindows] == 0
    ensures multiset(Pass(f, key, conf, detect))[CreateWindow] == 0
  {
    assert multiset(Pass(f, key, conf, detect)) == multiset{ReadFrame, Infer(f, conf), Show(detect(f, conf)), PollKey(key)};
  }

  /** The loop's schedule over a stretch of successful reads: for each frame
      in turn, its read, the detector call, the display and the key poll,
      all before the next read. Failed reads contribute nothing. */
  function Passes<F>(results: seq<Read<F>>, conf: real, detect: (F, real) -> F): seq<Effect<F>> {
    if |results| == 0 then []
    else (if results[0].ReadOk? then Pass(results[0].frame, results[0].key, conf, detect) else [])
         + Passes(results[1..], conf, detect)
  }

  /** A successful first read contributes its frame, and its pass, ahead of
      the rest. */
  lemma ConsumeFirst<F>(trace: seq<Read<F>>, conf: real, detect: (F, real) -> F, m: nat)
    requires m < |trace| && trace[0].ReadOk?
    ensures Frames(trace[..m + 1]) == [trace[0].frame] + Frames(trace[1..][..m])
    ensures Passes(trace[..m + 1], conf, detect)
         == Pass(trace[0].frame, trace[0].key, conf, detect) + Passes(trace[1..][..m], conf, detect)
  {
    assert trace[..m + 1][1..] == trace[1..][..m];
  }

  /** `n` successful reads schedule exactly four effects each. */
  lemma {:induction false} PassesLength<F>(results: seq<Read<F>>, conf: real, detect: (F, real) -> F)
    requires AllReadBefore(results, |results|)
    ensures |Passes(results, conf, detect)| == 4 * |results|
    decreases |results|
  {
    if |results| > 0 {
      PassesLength(results[1..], conf, detect);
    }
  }

  /** Effects `4k` to `4k + 3` of the schedule are the pass over read `k`. */
  lemma {:induction false} PassesAt<F>(results: seq<Read<F>>, conf: real, detect: (F, real) -> F, k: nat)
    requires AllReadBefore(results, |results|) && k < |results|
    ensures |Passes(results, conf, detect)| == 4 * |results|
    ensures Passes(results, conf, detect)[4 * k..4 * k + 4] == Pass(results[k].frame, results[k].key, conf, detect)
    decreases k
  {
    PassesLength(results, conf, detect);
    var head := Pass(results[0].frame, results[0].key, conf, detect);
    var rest := Passes(results[1..], conf, detect);
    assert Passes(results, conf, detect) == head + rest;
    if k > 0 {
      PassesAt(results[1..], conf, detect, k - 1);
      assert (head + rest)[4 * k..4 * k + 4] == rest[4 * (k - 1)..4 * (k - 1) + 4];
    }
  }

  /** The read the loop performs after its last pass: one more, failing,
      when it stops on a failed read; none when it stops on the quit key. */
  function LastRead<F>(stop: LoopStop): seq<Effect<F>> {
    if stop == ReadFailure then [ReadFrame] else []
  }

  /** What a run of the loop over `trace` has done: it consumed the first
      `r.processed` reads, all successful, performing for each in turn its
      read, detector call, display and key poll before the next read, and
      read exactly once more when it stopped on a failed read. It stops at
      the first failed read or right after the first quit key. */
  ghost predicate Consumed<F>(trace: seq<Read<F>>, conf: real, detect: (F, real) -> F, r: LoopRun<F>) {
    && r.processed <= |trace| && AllReadBefore(trace, r.processed)
    && r.effects == Passes(trace[..r.processed], conf, detect) + LastRead(r.stop)
    && (r.stop == ReadFailure ==>
         (r.processed == |trace| || trace[r.processed].ReadFailed?) && ReadsOkNoQuitBefore(trace, r.processed))
    && (r.stop == QuitKeyPressed ==>
         0 < r.processed && IsQuitKey(trace[r.processed - 1].key) && ReadsOkNoQuitBefore(trace, r.processed - 1))
  }

  /** The pass over a first frame whose key quits ends the loop. */
  lemma QuitPass<F>(trace: seq<Read<F>>, conf: real, detect: (F, real) -> F)
    requires 0 < |trace| && trace[0].ReadOk? && IsQuitKey(trace[0].key)
    ensures Consumed(trace, conf, detect,
      LoopRun(Pass(trace[0].frame, trace[0].key, conf, detect), QuitKeyPressed, 1))
  {
    ConsumeFirst(trace, conf, detect, 0);
    assert trace[1..][..0] == [];
  }

  /** A pass over a first frame whose key does not quit, followed by the
      rest of the loop over the remaining reads. */
  lemma ContinuePass<F>(trace: seq<Read<F>>, conf: real, detect: (F, real) -> F, rest: LoopRun<F>)
    requires 0 < |trace| && trace[0].ReadOk? && !IsQuitKey(trace[0].key)
    requires Consumed(trace[1..], conf, detect, rest)
    ensures Consumed(trace, conf, detect,
      LoopRun(Pass(trace[0].frame, trace[0].key, conf, detect) + rest.effects, rest.stop, rest.processed + 1))
  {
    var pass := Pass(trace[0].frame, trace[0].key, conf, detect);
    var m := rest.processed;
    ConsumeFirst(trace, conf, detect, m);
    assert pass + rest.effects == pass + Passes(trace[1..][..m], conf, detect) + LastRead(rest.stop);
  }

  /** The `while True` loop over the reads still to come. */
  function Loop<F>(trace: seq<Read<F>>, conf: real, detect: (F, real) -> F): (r: LoopRun<F>)
    ensures Consumed(trace, conf, detect, r)
    decreases |trace|
  {
    if |trace| == 0 || trace[0].ReadFailed? then
      LoopRun([ReadFrame], ReadFailure, 0)
    else if IsQuitKey(trace[0].key) then
      QuitPass(trace, conf, detect);
      LoopRun(Pass(trace[0].frame, trace[0].key, conf, detect), QuitKeyPressed, 1)
    else
      var rest := Loop(trace[1..], conf, detect);
      ContinuePass(trace, conf, detect, rest);
      LoopRun(Pass(trace[0].frame, trace[0].key, conf, detect) + rest.effects, rest.stop, rest.processed + 1)
  }

  /** Frame `k` processed by the loop had its read, detector call, display
      and key poll as effects `4k` to `4k + 3`; a failed last read comes
      right after the last pass. */
  lemma PassOrder<F>(trace: seq<Read<F>>, conf: real, detect: (F, real) -> F, r: LoopRun<F>, k: nat)
    requires Consumed(trace, conf, detect, r)
    requires k < r.processed
    ensures |r.effects| == 4 * r.processed + |LastRead<F>(r.stop)|
    ensures r.effects[4 * k..4 * k + 4] == Pass(trace[k].frame, trace[k].key, conf, detect)
    ensures r.stop == ReadFailure ==> r.effects[4 * r.processed] == ReadFrame
  {
    var prefix := trace[..r.processed];
    PassesAt(prefix, conf, detect, k);
    assert prefix[k] == trace[k];
  }

  /** Effects that neither call the detector nor show anything contribute
      to neither projection. */
  lemma {:induction false} NoCalls<F>(e: seq<Effect<F>>)
    requires forall k :: 0 <= k < |e| ==> !e[k].Infer? && !e[k].Show?
    ensures Inferred(e) == [] && Displayed(e) == []
    decreases |e|
  {
    if |e| > 0 {
      NoCalls(e[1..]);
    }
  }

  /** The schedule over successful reads calls the detector on each frame
      once with `conf` and shows each drawing once, in read order. */
  lemma {:induction false} PassesCalls<F>(results: seq<Read<F>>, conf: real, detect: (F, real) -> F)
    requires AllReadBefore(results, |results|)
    ensures Inferred(Passes(results, conf, detect)) == Requests(Frames(results), conf)
    ensures Displayed(Passes(results, conf, detect)) == Annotate(Frames(results), conf, detect)
    decreases |results|
  {
    if |results| > 0 {
      var f := results[0].frame;
      var pass := Pass(f, results[0].key, conf, detect);
      var tail := Frames(results[1..]);
      PassesCalls(results[1..], conf, detect);
      PassCalls(f, results[0].key, conf, detect);
      InferredAppend(pass, Passes(results[1..], conf, detect));
      DisplayedAppend(pass, Passes(results[1..], conf, detect));
      assert Frames(results) == [f] + tail;
      assert ([f] + tail)[1..] == tail;
    }
  }

  /** The schedule over `n` successful reads reads `n` times and neither
      creates nor releases anything. */
  lemma {:induction false} PassesCounts<F>(results: seq<Read<F>>, conf: real, detect: (F, real) -> F)
    requires AllReadBefore(results, |results|)
    ensures multiset(Passes(results, conf, detect))[ReadFrame] == |results|
    ensures multiset(Passes(results, conf, detect))[CreateWindow] == 0
    ensures multiset(Passes(results, conf, detect))[Release] == 0
    ensures multiset(Passes(results, conf, detect))[DestroyWindows] == 0
    decreases |results|
  {
    if |results| > 0 {
      var pass := Pass(results[0].frame, results[0].key, conf, detect);
      PassesCounts(results[1..], conf, detect);
      PassCounts(results[0].frame, results[0].key, conf, detect);
      assert multiset(Passes(results, conf, detect)) == multiset(pass) + multiset(Passes(results[1..], conf, detect));
    }
  }

  lemma PrefixAllRead<F>(trace: seq<Read<F>>, n: nat)
    requires n <= |trace| && AllReadBefore(trace, n)
    ensures AllReadBefore(trace[..n], n)
  {
    assert forall j :: 0 <= j < n ==> trace[..n][j] == trace[j];
  }

  /** The schedule followed by the last read calls and shows as the
      schedule alone does. */
  lemma ScheduleCalls<F>(prefix: seq<Read<F>>, stop: LoopStop, conf: real, detect: (F, real) -> F)
    requires AllReadBefore(prefix, |prefix|)
    ensures Inferred(Passes(prefix, conf, detect) + LastRead(stop)) == Requests(Frames(prefix), conf)
    ensures Displayed(Passes(prefix, conf, detect) + LastRead(stop)) == Annotate(Frames(prefix), conf, detect)
  {
    var p := Passes(prefix, conf, detect);
    var last: seq<Effect<F>> := LastRead(stop);
    PassesCalls(prefix, conf, detect);
    InferredAppend(p, last);
    DisplayedAppend(p, last);
    NoCalls(last);
  }

  /** The schedule followed by the last read reads once per frame, plus
      once on a failed read, and creates and releases nothing. */
  lemma ScheduleCounts<F>(prefix: seq<Read<F>>, stop: LoopStop, conf: real, detect: (F, real) -> F)
    requires AllReadBefore(prefix, |prefix|)
    ensures multiset(Passes(prefix, conf, detect) + LastRead(stop))[ReadFrame] == |prefix| + (if stop == ReadFailure then 1 else 0)
    ensures multiset(Passes(prefix, conf, detect) + LastRead(stop))[CreateWindow] == 0
    ensures multiset(Passes(prefix, conf, detect) + LastRead(stop))[Release] == 0
    ensures multiset(Passes(prefix, conf, detect) + LastRead(stop))[DestroyWindows] == 0
  {
    var p := Passes(prefix, conf, detect);
    var last: seq<Effect<F>> := LastRead(stop);
    PassesCounts(prefix, conf, detect);
    assert multiset(p + last) == multiset(p) + multiset(last);
  }

  /** What the loop's schedule amounts to: one detector call and one display
      per processed frame, in read order, one read per processed frame plus
      the failed one, and nothing created or released. */
  lemma LoopCalls<F>(trace: seq<Read<F>>, conf: real, detect: (F, real) -> F, r: LoopRun<F>)
    requires Consumed(trace, conf, detect, r)
    ensures Inferred(r.effects) == Requests(Frames(trace[..r.processed]), conf)
    ensures Displayed(r.effects) == Annotate(Frames(trace[..r.processed]), conf, detect)
    ensures multiset(r.effects)[ReadFrame] == r.processed + (if r.stop == ReadFailure then 1 else 0)
    ensures multiset(r.effects)[CreateWindow] == 0
    ensures multiset(r.effects)[Release] == 0 && multiset(r.effects)[DestroyWindows] == 0
  {
    var prefix := trace[..r.processed];
    PrefixAllRead(trace, r.processed);
    ScheduleCalls(prefix, r.stop, conf, detect);
    ScheduleCounts(prefix, r.stop, conf, detect);
  }

  /** Start-up effects once both guards have passed. */
  function Startup<F>(src: Source): seq<Effect<F>> {
    [LoadModel(WeightsPath), OpenCapture(src), CreateWindow]
  }

  /** Teardown after the loop: release the capture, then destroy the
      windows. */
  function Teardown<F>(): seq<Effect<F>> {
    [Release, DestroyWindows]
  }

  lemma BracketCalls<F>(src: Source, middle: seq<Effect<F>>)
    ensures Inferred(Startup(src) + middle + Teardown()) == Inferred(middle)
    ensures Displayed(Startup(src) + middle + Teardown()) == Displayed(middle)
  {
    var a: seq<Effect<F>> := Startup(src);
    var z: seq<Effect<F>> := Teardown();
    InferredAppend(a, middle);
    InferredAppend(a + middle, z);
    DisplayedAppend(a, middle);
    DisplayedAppend(a + middle, z);
    NoCalls(a);
    NoCalls(z);
  }

  lemma BracketShape<F>(src: Source, middle: seq<Effect<F>>)
    ensures |Startup(src) + middle + Teardown()| >= 5
    ensures (Startup(src) + middle + Teardown())[..3] == Startup(src)
    ensures var e := Startup(src) + middle + Teardown(); e[|e| - 2..] == Teardown()
  {
  }

  lemma BracketCounts<F>(src: Source, middle: seq<Effect<F>>)
    ensures multiset(Startup(src) + middle + Teardown())[ReadFrame] == multiset(middle)[ReadFrame]
    ensures multiset(Startup(src) + middle + Teardown())[Release] == multiset(middle)[Release] + 1
    ensures multiset(Startup(src) + middle + Teardown())[DestroyWindows] == multiset(middle)[DestroyWindows] + 1
    ensures multiset(Startup(src) + middle + Teardown())[CreateWindow] == multiset(middle)[CreateWindow] + 1
  {
    var a: seq<Effect<F>> := Startup(src);
    var z: seq<Effect<F>> := Teardown();
    assert multiset(a + middle + z) == multiset(a) + multiset(middle) + multiset(z);
    assert multiset(a) == multiset{LoadModel(WeightsPath), OpenCapture(src), CreateWindow};
    assert multiset(z) == multiset{Release, DestroyWindows};
  }

  /** What a run that passed both guards leaves behind: load, open and
      window first, release then destroy last (each once), and in between
      exactly the detector calls and shown images of the processed frames.
      The equation `r.effects == Startup(..) + Passes(..) + LastRead(..) + Teardown()`
      is the defining clause; the prefix, suffix, count and projection clauses
      beside it follow from it (LoopCalls and the Bracket lemmas prove them)
      and are kept so that callers need not unfold the schedule. */
  ghost predicate Completed<F>(source: string, conf: real, trace: seq<Read<F>>, detect: (F, real) -> F, r: Run<F>) {
    && r.exit.Returned?
    && |r.effects| >= 5
    && r.effects[..3] == [LoadModel(WeightsPath), OpenCapture(ResolveSource(source)), CreateWindow]
    && r.effects[|r.effects| - 2..] == [Release, DestroyWindows]
    && multiset(r.effects)[Release] == 1 && multiset(r.effects)[DestroyWindows] == 1
    && multiset(r.effects)[CreateWindow] == 1
    && r.processed <= |trace| && AllReadBefore(trace, r.processed)
    && r.effects == Startup(ResolveSource(source)) + Passes(trace[..r.processed], conf, detect)
                    + LastRead(r.exit.stop) + Teardown()
    && Inferred(r.effects) == Requests(Frames(trace[..r.processed]), conf)
    && Displayed(r.effects) == Annotate(Frames(trace[..r.processed]), conf, detect)
    && multiset(r.effects)[ReadFrame] == r.processed + (if r.exit.stop == ReadFailure then 1 else 0)
    && (r.exit.stop == ReadFailure ==>
         (r.processed == |trace| || trace[r.processed].ReadFailed?) && ReadsOkNoQuitBefore(trace, r.processed))
    && (r.exit.stop == QuitKeyPressed ==>
         0 < r.processed && IsQuitKey(trace[r.processed - 1].key) && ReadsOkNoQuitBefore(trace, r.processed - 1))
  }

  lemma ConcatRegroup<T>(a: seq<T>, b: seq<T>, c: seq<T>, d: seq<T>)
    ensures a + (b + c) + d == a + b + c + d
  {
  }

  /** The loop between start-up and teardown runs the loop's schedule. */
  lemma BracketSchedule<F>(src: Source, conf: real, trace: seq<Read<F>>, detect: (F, real) -> F, loop: LoopRun<F>)
    requires Consumed(trace, conf, detect, loop)
    ensures Startup(src) + loop.effects + Teardown()
         == Startup(src) + Passes(trace[..loop.processed], conf, detect) + LastRead(loop.stop) + Teardown()
  {
    ConcatRegroup(Startup(src), Passes(trace[..loop.processed], conf, detect), LastRead(loop.stop), Teardown());
  }

  /** Around a loop that creates and releases nothing, window, release and
      destroy happen once each, and the reads are the loop's. */
  lemma BracketFrame<F>(src: Source, middle: seq<Effect<F>>, readCount: nat)
    requires multiset(middle)[ReadFrame] == readCount
    requires multiset(middle)[CreateWindow] == 0
    requires multiset(middle)[Release] == 0 && multiset(middle)[DestroyWindows] == 0
    ensures var e := Startup(src) + middle + Teardown();
      && multiset(e)[Release] == 1 && multiset(e)[DestroyWindows] == 1 && multiset(e)[CreateWindow] == 1
      && multiset(e)[ReadFrame] == readCount
  {
    BracketCounts(src, middle);
  }

  /** The loop between start-up and teardown makes a completed run. */
  lemma Bracketed<F>(source: string, conf: real, trace: seq<Read<F>>, detect: (F, real) -> F, loop: LoopRun<F>)
    requires Consumed(trace, conf, detect, loop)
    ensures Completed(source, conf, trace, detect,
      Run(Startup(ResolveSource(source)) + loop.effects + Teardown(), Returned(loop.stop), loop.processed))
  {
    var src := ResolveSource(source);
    LoopCalls(trace, conf, detect, loop);
    BracketSchedule(src, conf, trace, detect, loop);
    BracketShape(src, loop.effects);
    BracketFrame(src, loop.effects, loop.processed + (if loop.stop == ReadFailure then 1 else 0));
    BracketCalls(src, loop.effects);
  }

  /** `main()` of `detect_cam.py`. `weightsExist` is the result of
      `weights_path.exists()`, `opens` that of `cap.isOpened()`. */
  function Main<F>(weightsExist: bool, source: string, conf: real, opens: bool,
                   trace: seq<Read<F>>, detect: (F, real) -> F): (r: Run<F>)
    ensures !weightsExist ==> r.exit == Raised(WeightsNotFound(WeightsPath)) && r.effects == []
    ensures weightsExist && !opens ==>
      && r.exit == Raised(SourceNotOpened(ResolveSource(source)))
      && r.effects == [LoadModel(WeightsPath), OpenCapture(ResolveSource(source))]
    ensures r.exit.Raised? ==> r.processed == 0 && multiset(r.effects)[ReadFrame] == 0 && multiset(r.effects)[CreateWindow] == 0
    ensures weightsExist && opens ==> Completed(source, conf, trace, detect, r)
  {
    if !weightsExist then
      Run([], Raised(WeightsNotFound(WeightsPath)), 0)
    else
      var src := ResolveSource(source);
      if !opens then
        var effects: seq<Effect<F>> := [LoadModel(WeightsPath), OpenCapture(src)];
        assert multiset(effects) == multiset{LoadModel(WeightsPath), OpenCapture(src)};
        Run(effects, Raised(SourceNotOpened(src)), 0)
      else
        var loop := Loop(trace, conf, detect);
        Bracketed(source, conf, trace, detect, loop);
        Run(Startup(src) + loop.effects + Teardown(), Returned(loop.stop), loop.processed)
  }

  lemma SliceInside<T>(a: seq<T>, p: seq<T>, z: seq<T>, i: nat, len: nat)
    requires i + len <= |p|
    ensures (a + p + z)[|a| + i..|a| + i + len] == p[i..i + len]
  {
  }

  /** Between start-up and teardown, frame `k` of the schedule occupies
      effects `3 + 4k` to `3 + 4k + 3`. */
  lemma ScheduleOrder<F>(src: Source, prefix: seq<Read<F>>, stop: LoopStop, conf: real, detect: (F, real) -> F, k: nat)
    requires AllReadBefore(prefix, |prefix|) && k < |prefix|
    ensures var e := Startup(src) + Passes(prefix, conf, detect) + LastRead(stop) + Teardown();
      && |e| == 5 + 4 * |prefix| + |LastRead<F>(stop)|
      && e[3 + 4 * k..3 + 4 * k + 4] == Pass(prefix[k].frame, prefix[k].key, conf, detect)
  {
    var p := Passes(prefix, conf, detect);
    PassesAt(prefix, conf, detect, k);
    ConcatRegroup(Startup(src), p, LastRead(stop), Teardown());
    SliceInside(Startup(src), p, LastRead(stop) + Teardown(), 4 * k, 4);
  }

  /** A completed run has the five bracketing effects, four per processed
      frame, and one more for a final failed read. */
  lemma CompletedLength<F>(source: string, conf: real, trace: seq<Read<F>>, detect: (F, real) -> F, r: Run<F>)
    requires Completed(source, conf, trace, detect, r)
    ensures |r.effects| == 5 + 4 * r.processed + (if r.exit.stop == ReadFailure then 1 else 0)
  {
    PrefixAllRead(trace, r.processed);
    PassesLength(trace[..r.processed], conf, detect);
  }

  /** In a completed run, frame `k` occupies effects `3 + 4k` to
      `3 + 4k + 3`. */
  lemma CompletedOrder<F>(source: string, conf: real, trace: seq<Read<F>>, detect: (F, real) -> F, r: Run<F>, k: nat)
    requires Completed(source, conf, trace, detect, r)
    requires k < r.processed
    ensures |r.effects| == 5 + 4 * r.processed + (if r.exit.stop == ReadFailure then 1 else 0)
    ensures r.effects[3 + 4 * k..3 + 4 * k + 4] == Pass(trace[k].frame, trace[k].key, conf, detect)
  {
    var prefix := trace[..r.processed];
    PrefixAllRead(trace, r.processed);
    ScheduleOrder(ResolveSource(source), prefix, r.exit.stop, conf, detect, k);
    assert prefix[k] == trace[k];
  }

  /** In a run that got past both guards, frame `k` had its read, detector
      call, display and key poll as effects `3 + 4k` to `3 + 4k + 3`, after
      the three start-up effects and before the next frame's read. */
  lemma RunOrder<F>(weightsExist: bool, source: string, conf: real, opens: bool,
                    trace: seq<Read<F>>, detect: (F, real) -> F, k: nat)
    requires weightsExist && opens
    ensures var r := Main(weightsExist, source, conf, opens, trace, detect);
      |r.effects| == 5 + 4 * r.processed + (if r.exit.stop == ReadFailure then 1 else 0)
    ensures var r := Main(weightsExist, source, conf, opens, trace, detect);
      k < r.processed ==> r.effects[3 + 4 * k..3 + 4 * k + 4] == Pass(trace[k].frame, trace[k].key, conf, detect)
  {
    var r := Main(weightsExist, source, conf, opens, trace, detect);
    CompletedLength(source, conf, trace, detect, r);
    if k < r.processed {
      CompletedOrder(source, conf, trace, detect, r, k);
    }
  }

  /** Two positions that are both "the first quit key" coincide. */
  lemma FirstQuitUnique<F>(trace: seq<Read<F>>, m: nat, k: nat)
    requires m < |trace| && trace[m].ReadOk? && IsQuitKey(trace[m].key) && ReadsOkNoQuitBefore(trace, m)
    requires k < |trace| && trace[k].ReadOk? && IsQuitKey(trace[k].key) && ReadsOkNoQuitBefore(trace, k)
    ensures m == k
  {
  }

  /** A completed run that saw a quit key after frame `k`, with no earlier
      failure or quit, stopped right there. */
  lemma QuitEndsRun<F>(source: string, conf: real, trace: seq<Read<F>>, detect: (F, real) -> F, r: Run<F>, k: nat)
    requires Completed(source, conf, trace, detect, r)
    requires k < |trace| && ReadsOkNoQuitBefore(trace, k) && trace[k].ReadOk? && IsQuitKey(trace[k].key)
    ensures r.exit == Returned(QuitKeyPressed) && r.processed == k + 1
    ensures multiset(r.effects)[ReadFrame] == k + 1
  {
    if r.exit.stop == ReadFailure {
      assert false;
    }
    FirstQuitUnique(trace, r.processed - 1, k);
  }

  /** A completed run whose first failed read is at position `k`, with no
      quit before it, stopped there. */
  lemma FailureEndsRun<F>(source: string, conf: real, trace: seq<Read<F>>, detect: (F, real) -> F, r: Run<F>, k: nat)
    requires Completed(source, conf, trace, detect, r)
    requires k <= |trace| && ReadsOkNoQuitBefore(trace, k) && (k == |trace| || trace[k].ReadFailed?)
    ensures r.exit == Returned(ReadFailure) && r.processed == k
    ensures multiset(r.effects)[ReadFrame] == k + 1
  {
    if r.exit.stop == QuitKeyPressed {
      assert false;
    }
    if r.processed < k {
      assert false;
    } else if k < r.processed {
      assert false;
    }
  }

  /** A quit key after showing frame `k` (0-based) ends the run with `k + 1`
      frames processed and `k + 1` reads: nothing is read after it. */
  lemma QuitAfterFrame<F>(weightsExist: bool, source: string, conf: real, opens: bool,
                          trace: seq<Read<F>>, detect: (F, real) -> F, k: nat)
    requires weightsExist && opens
    requires k < |trace| && ReadsOkNoQuitBefore(trace, k) && trace[k].ReadOk? && IsQuitKey(trace[k].key)
    ensures var r := Main(weightsExist, source, conf, opens, trace, detect);
      r.exit == Returned(QuitKeyPressed) && r.processed == k + 1 &&
      multiset(r.effects)[ReadFrame] == k + 1
  {
    QuitEndsRun(source, conf, trace, detect, Main(weightsExist, source, conf, opens, trace, detect), k);
  }

  /** The first failed read, at position `k`, ends the run after `k`
      processed frames and `k + 1` reads. */
  lemma FailedReadEndsRun<F>(weightsExist: bool, source: string, conf: real, opens: bool,
                             trace: seq<Read<F>>, detect: (F, real) -> F, k: nat)
    requires weightsExist && opens
    requires k <= |trace| && ReadsOkNoQuitBefore(trace, k) && (k == |trace| || trace[k].ReadFailed?)
    ensures var r := Main(weightsExist, source, conf, opens, trace, detect);
      r.exit == Returned(ReadFailure) && r.processed == k &&
      multiset(r.effects)[ReadFrame] == k + 1
  {
    FailureEndsRun(source, conf, trace, detect, Main(weightsExist, source, conf, opens, trace, detect), k);
  }
}
