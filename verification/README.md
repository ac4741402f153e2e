# Coin-detection inference runtime — verified model

This project models, in Dafny, the deterministic logic of the two inference
entry points of the coin-detection runtime:

- `app/run_infer.py`: picks the weights artifact (compiled TensorRT engine
  `models/best.engine` or portable `models/best.pt`), builds the prediction
  overrides (`imgsz`, `conf`, and `half` only for the `.pt` weights), maps the
  source argument `"0"` to camera 0, and streams predictions: every frame whose
  0-based index is a multiple of 10 is written to `out/frame_XXXXXX.jpg`, the
  frame is shown when `--show` is on (where the `q` key stops the loop), every
  100th counted frame prints a throughput line, and the windows are destroyed
  after the loop when `--show` is on.
- `detect_cam.py`: refuses to start without `best.pt` next to the script,
  loads it, opens the source (raising when it does not open), creates the
  window, reads / infers / shows / polls until a read fails or `q` is pressed,
  then releases the capture and destroys the windows.

Modules (one file each):

- `FrameNames` (`frame_names.dfy`): decimal notation, zero padding to six
  digits, the saved file name, reading the index back from a name, and
  Python's string order on names.
- `Capture` (`capture.dfy`): the source argument mapping and the quit-key test
  (`waitKey(1) & 0xFF == ord('q')`), shared by both scripts.
- `Backend` (`backend.dfy`): weights selection and the overrides map.
- `RunInfer` (`run_infer.dfy`): the streaming loop of `app/run_infer.py` as a
  fold over the stream of predictions, producing the `frames` counter, the
  saved frames (index, file name, image), the images shown, the counts at
  which a throughput line is printed, and why the loop stopped.
- `DetectCam` (`detect_cam.dfy`): `main` of `detect_cam.py` as the ordered list
  of side effects it performs, plus how it exits (raised error or return).
  The loop's effects are pinned down exactly: for each frame in turn its read,
  the detector call, the display and the key poll, before the next read.

The detector (`YOLO(...)`, `model.predict`, `model(frame, conf=...)`,
`r.plot()`) is opaque: in `RunInfer` the stream is a sequence of already drawn
images, each with the key code `waitKey(1)` would return after it is shown; in
`DetectCam` the detector is a function parameter `detect(frame, conf)`, and the
capture is a trace of read results (a failed read, or a frame with the key code
polled after it is shown). The filesystem is reduced to the booleans "engine
exists" and "`best.pt` exists", and opening the capture to the boolean result
of `isOpened()`.

Notes on what the code does:

- The code computes the frame rate with no guard against a zero elapsed time;
  the model records only *whether* a throughput line is printed (see
  "Left out" for the division itself).
- The code releases resources only when the loop exits normally, not on every
  exit path: `detect_cam.py` does not release the capture when it fails to open,
  and `app/run_infer.py` never releases the stream explicitly. The model
  records exactly those calls.
- The code pads the frame index to six digits, so lexicographic order of the
  names equals index order only below 10^6 (`FrameNames.FrameFileNamesSortByIndex`); at index 1000000 the
  name has seven digits and sorts before `out/frame_999990.jpg`
  (`FrameNames.SevenDigitNameSortsFirst`).

Resolution is deterministic by construction: `Backend.Resolve` is a Dafny
function of (`use_trt`, engine exists, `imgsz`, `conf`, `half`), so equal inputs
give equal weights and options.

## Model

| member | source | states |
|---|---|---|
| `Backend.SelectWeights` | app/run_infer.py:19-20 | the weights are the engine exactly when `use_trt` is nonzero and the engine file exists, otherwise `models/best.pt`; the chosen name ends in `.pt` exactly when the engine is not chosen |
| `Backend.Overrides` | app/run_infer.py:26-28 | the options always hold `imgsz` and `conf` with the given values; `half` is present exactly when the weights name ends in `.pt`, and then equals `bool(half)`; no other key appears |
| `Backend.Resolve` | app/run_infer.py:19-28 | the weights are one of the two artifacts: the engine exactly when `use_trt` is set and the engine exists, the portable weights otherwise (also on the default command line and whenever the engine is missing); the engine gets exactly the keys `imgsz` and `conf` (no precision key); the portable weights get `imgsz`, `conf` and `half = bool(half)` |
| `Capture.ResolveSource` | app/run_infer.py:31 | the source is a camera exactly when the argument is `"0"`, and then camera index 0; any other argument is passed through unchanged |
| `Capture.ResolveSourceRoundTrip` | app/run_infer.py:31-32 | printing the resolved source gives back the argument, every source the mapping can produce is recovered from its text, and the descriptor `"0"` is never produced |
| `Capture.LowByte` | app/run_infer.py:48 | `key & 0xFF` is the residue of the key code modulo 256, in 0..255, for negative codes too |
| `Capture.QuitKeyCodes` | detect_cam.py:43 | the quit test `Capture.IsQuitKey` (low byte equals `'q'`): "no key" (-1) never quits; a key code quits exactly when it is `'q'` plus a multiple of 256 |
| `FrameNames.DecimalString` | app/run_infer.py:43 | the decimal notation of `n` is a non-empty digit string whose value is `n` and which starts with `'0'` only when it is exactly `"0"` |
| `FrameNames.DecimalLength` | app/run_infer.py:43 | `n` has at most `k` digits exactly when `n < 10^k` |
| `FrameNames.ZeroPad` | app/run_infer.py:43 | padding keeps the string as a suffix, fills only with `'0'`, and is as long as the wider of `width` and the string |
| `FrameNames.FrameNumber` | app/run_infer.py:43 | the digits in the name denote the index, have at least six characters, exactly six when the index is below 10^6, and no leading zero when longer (from 10^6 on the name holds the plain decimal) |
| `FrameNames.FrameFileName` | app/run_infer.py:43 | reading the index back from the name `out/frame_{i:06d}.jpg` gives `i` (round trip) |
| `FrameNames.DigitOrderIsNumericOrder` | app/run_infer.py:43 | on digit strings of equal length, string order is numeric order and string equality is numeric equality |
| `FrameNames.FrameFileNamesSortByIndex` | app/run_infer.py:42-43 | below 10^6, one name sorts before another exactly when its index is smaller, and names are equal exactly when indices are |
| `FrameNames.SevenDigitNameSortsFirst` | app/run_infer.py:43 | the six-digit bound is tight: the name of frame 1000000 sorts before the name of frame 999990 |
| `RunInfer.SavedStep` | app/run_infer.py:42-43 | one more iteration adds a save of frame `i`, under its file name and with its drawing, exactly when `i % 10 == 0` |
| `RunInfer.LoggedStep` | app/run_infer.py:52-54 | when the counter reaches `n + 1`, a throughput line is added exactly when `n + 1` is a multiple of 100 |
| `RunInfer.Iterate` | app/run_infer.py:37-54 | one iteration asks to leave the loop exactly when the window is on and the key quits; otherwise it leaves `frames == i + 1` with the saves, shown images and throughput lines of `i + 1` iterations; a quitting iteration is already saved and shown but skips its throughput check |
| `RunInfer.Loop` | app/run_infer.py:37-54 | the loop ends at the end of the stream or, only with the window on, right after the first quit key; the saves are exactly frames 0, 10, 20, … below the count, each shown frame appears once in stream order, and the throughput lines are at 100, 200, … up to the count (one less on a quit) |
| `RunInfer.Main` | app/run_infer.py:15-58 | the weights are `models/best.engine` exactly when requested and present, `models/best.pt` otherwise; the options hold `imgsz` and `conf` with the given values, and `half = bool(half)` exactly for `best.pt`; the source is camera 0 exactly for `"0"` and otherwise the argument text; one window teardown is recorded with the window on and none without; with the window off the whole stream is processed; the loop results satisfy the loop's characterisation |
| `RunInfer.FirstQuitEndsLoop` | app/run_infer.py:46-49 | with the window on, the first quit key at index `i` stops the loop with `frames == i + 1`, frame `i` included in the saves, and the throughput lines of counts up to `i` only |
| `RunInfer.NoQuitRunsToEnd` | app/run_infer.py:37-54 | with no quit key, or with the window off, a stream of `N` predictions is processed to its end with `frames == N`, exactly `N / 100` (rounded down) throughput lines, and the saves of all `N` frames |
| `RunInfer.ShortStreamLogsNothing` | app/run_infer.py:35-54 | a 37-frame stream with no quit ends the stream with 37 frames, no throughput line, and four saves, the last one `out/frame_000030.jpg` |
| `RunInfer.QuitStopsAtFirstQuitKey` | app/run_infer.py:42-54 | a whole run quitting at index `i` counts `i + 1` frames, has saved frame `i` last when `i % 10 == 0`, and printed `i / 100` throughput lines |
| `DetectCam.Loop` | detect_cam.py:31-44 | the loop consumes a prefix of successful reads; its effects are exactly, frame after frame, the read, the detector call with `conf`, the display of the drawing and the key poll, followed by one more (failed) read only when it stops on a failed read; it stops only at the first failed read or right after the first quit key |
| `DetectCam.PassOrder` | detect_cam.py:31-44 | frame `k` of the loop occupies effects `4k` to `4k + 3` (read, infer, show, poll), so nothing of frame `k + 1` happens before frame `k` is polled; a final failed read comes right after the last poll |
| `DetectCam.LoopCalls` | detect_cam.py:31-44 | the loop calls the detector once per processed frame with `conf` and shows each drawing once, in read order, reads once per frame plus the failed read, and creates and releases nothing |
| `DetectCam.ContinuePass` | detect_cam.py:31-44 | a pass over a frame whose key does not quit, followed by the rest of the loop, keeps every property of the loop with one more frame processed |
| `DetectCam.Main` | detect_cam.py:12-47 | missing weights raise before anything is loaded, opened or read; a source that does not open raises after loading and opening only, before any window or read; otherwise the effects are exactly load, open, window, then the loop's frame-by-frame schedule, then release and destroy (each exactly once), with the detector calls and shown images those of the processed frames in order |
| `DetectCam.RunOrder` | detect_cam.py:29-47 | in a run that got past both guards, frame `k` occupies effects `3 + 4k` to `3 + 4k + 3` (read, infer, show, poll), and the run has `5 + 4n` effects plus one for a final failed read |
| `DetectCam.QuitAfterFrame` | detect_cam.py:42-44 | a quit key after frame `k` ends the run with `k + 1` frames processed and `k + 1` reads |
| `DetectCam.FailedReadEndsRun` | detect_cam.py:31-34 | the first failed read at position `k` ends the run with `k` frames processed and `k + 1` reads |

## Left out

- The detector and its library: loading weights, inference, drawing (`YOLO`, `model.predict`, `model(frame, ...)`, `r.plot()`) are opaque; a failure of `YOLO(weights)` in `app/run_infer.py` (for instance a missing `models/best.pt`) is not modelled, since the script has no guard of its own for it.
- OpenCV I/O: `VideoCapture`, `imshow`, `waitKey`, `imwrite`, `namedWindow` appear only as recorded effects or inputs; no file or window semantics.
- The frame-rate value `frames / dt`: wall-clock floating-point arithmetic; only whether a throughput line is printed is modelled.
- `os.makedirs("out", exist_ok=True)` and the `print` lines other than the throughput line: no effect on the modelled outcome. The one exception is the start-up line that prints the source; `Capture.SourceText` models it as the partner of the source mapping in `Capture.ResolveSourceRoundTrip`.
- Argument parsing (`argparse`): it only supplies defaults and types; the model takes the parsed values.
- `app/export_engine.py`: a one-shot call into the detector library's exporter with no logic of its own.
- Exceptions raised inside the loops (by the detector or OpenCV): teardown is reached only on a normal loop exit, and the model claims nothing about other exits.
- RunInfer.Loop: a throughput line is recorded at every hundredth count, but the frame rate `frames / dt` is not computed; if the elapsed time were exactly zero the code would raise `ZeroDivisionError` there and end `main` before printing and before destroying the windows, which the model does not represent.
- RunInfer.Main: the prediction stream is a finite sequence, so the model always reaches the end of the stream when nothing quits; an endless camera stream with the window off never stops in the code and is represented only by its finite prefixes.
- RunInfer.Main: destroying the windows is recorded as a count in the session; it is not ordered against the loop's saves and displays.
- `DetectCam.Main`: a finite trace stands for the capture; reads past its end are taken as failed reads (what a finished video file does); an endless camera stream is represented by any finite prefix.
