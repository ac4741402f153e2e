/** Choice of the weights artifact and of the prediction overrides in
    `app/run_infer.py`: the compiled TensorRT engine is used only when it is
    asked for and present; the half-precision option is passed only to the
    portable `.pt` weights. */
module Backend {

  const EnginePath := "models/best.engine"
  const PortablePath := "models/best.pt"

  predicate EndsWith(s: string, suffix: string) {
    |s| >= |suffix| && s[|s| - |suffix|..] == suffix
  }

  lemma ArtifactSuffixes()
    ensures EndsWith(PortablePath, ".pt") && !EndsWith(EnginePath, ".pt")
  {
    assert PortablePath[|PortablePath| - 3..] == ".pt";
    assert EnginePath[|EnginePath| - 3..] == "ine";
  }

  /** The engine is chosen when the TensorRT flag is set and the engine
      file is present; otherwise the portable weights. `engineExists` is the
      one filesystem fact read. */
  function SelectWeights(useTrt: int, engineExists: bool): (weights: string)
    ensures weights == EnginePath || weights == PortablePath
    ensures weights == EnginePath <==> useTrt != 0 && engineExists
    ensures EndsWith(weights, ".pt") <==> !(useTrt != 0 && engineExists)
  {
    ArtifactSuffixes();
    if useTrt != 0 && engineExists then EnginePath else PortablePath
  }

  /** Values of the keyword arguments handed to `model.predict`. */
  datatype OptionValue = IntValue(i: int) | RealValue(x: real) | BoolValue(b: bool)

  /** Image size and confidence always; the half-precision flag, as a
      truth value, only when the weights file name ends in `.pt`. */
  function Overrides(weights: string, imgsz: int, conf: real, half: int): (m: map<string, OptionValue>)
    ensures "imgsz" in m && m["imgsz"] == IntValue(imgsz)
    ensures "conf" in m && m["conf"] == RealValue(conf)
    ensures "half" in m <==> EndsWith(weights, ".pt")
    ensures "half" in m ==> m["half"] == BoolValue(half != 0)
    ensures m.Keys <= {"imgsz", "conf", "half"}
  {
    var base := map["imgsz" := IntValue(imgsz), "conf" := RealValue(conf)];
    if EndsWith(weights, ".pt") then base["half" := BoolValue(half != 0)] else base
  }

  /** The backend the script runs with. */
  datatype Resolved = Resolved(weights: string, options: map<string, OptionValue>)

  /** Lines 19-28 of `app/run_infer.py` together. Falling back to the
      portable weights is never an error, and the engine never receives a
      precision option. */
  function Resolve(useTrt: int, engineExists: bool, imgsz: int, conf: real, half: int): (r: Resolved)
    ensures r.weights == EnginePath || r.weights == PortablePath
    ensures r.weights == EnginePath <==> useTrt != 0 && engineExists
    ensures r.weights == PortablePath <==> !(useTrt != 0 && engineExists)
    ensures !engineExists ==> r.weights == PortablePath
    ensures r.weights == EnginePath ==> r.options.Keys == {"imgsz", "conf"}
    ensures r.weights == PortablePath ==> r.options.Keys == {"imgsz", "conf", "half"} && r.options["half"] == BoolValue(half != 0)
    ensures "imgsz" in r.options && "conf" in r.options
    ensures r.options["imgsz"] == IntValue(imgsz) && r.options["conf"] == RealValue(conf)
  {
    var weights := SelectWeights(useTrt, engineExists);
    Resolved(weights, Overrides(weights, imgsz, conf, half))
  }
}
