/** The background-removal routine end to end: obtain the session, encode the
    320x320 canvas, run the binding cascade, pick the first output, refine the
    mask, and write the interpolated alpha into the original image's pixels,
    reporting progress milestones on the way. Any failure along the way ends the
    routine with a message. */
module Pipeline {
  import opened Base
  import LoadErrors
  import Encoder
  import Inference
  import Refiner
  import Compositor

  /** The message of the rethrown error: the caught message, or a generic one when the
      caught message is empty. */
  function Surface(message: string): (s: string)
    ensures s != ""
    ensures message != "" ==> s == message
  {
    if message == "" then "Failed to remove background. Please try again." else message
  }

  /** How far the routine gets before it stops: the model failed to load, the binding
      cascade failed, the accepted run had no outputs, or a raw mask is in hand. */
  datatype Stage = LoadFailed(message: string)
                 | RunFailed(error: Inference.InferenceError)
                 | NoOutput
                 | MaskReady(mask: MaskPlane)

  /** The stage reached for a load outcome and a 320x320 canvas. `load` is the session, or
      the message of the failure the model loader caught. */
  function Reach(load: Result<Inference.Session, string>, canvas: seq<Byte>): (st: Stage)
    requires |canvas| == 4 * N
    ensures st.LoadFailed? <==> load.Failure?
    ensures st.LoadFailed? ==> st.message == load.error
    ensures st.RunFailed? <==> load.Success? && Inference.Fallback(load.value, Encoder.Encoded(canvas)).Failure?
    ensures st.RunFailed? ==> st.error == Inference.Fallback(load.value, Encoder.Encoded(canvas)).error
    ensures st.NoOutput? <==>
              load.Success? && Inference.Fallback(load.value, Encoder.Encoded(canvas)).Success? &&
              |Inference.Fallback(load.value, Encoder.Encoded(canvas)).value| == 0
    ensures st.MaskReady? <==>
              load.Success? && Inference.Fallback(load.value, Encoder.Encoded(canvas)).Success? &&
              |Inference.Fallback(load.value, Encoder.Encoded(canvas)).value| > 0
    ensures st.MaskReady? ==>
              st.mask == Inference.Fallback(load.value, Encoder.Encoded(canvas)).value[0].data
  {
    match load
    case Failure(m) => LoadFailed(m)
    case Success(session) =>
      match Inference.Fallback(session, Encoder.Encoded(canvas))
      case Failure(e) => RunFailed(e)
      case Success(outputs) =>
        match Inference.PickOutput(outputs)
        case Failure(_) => NoOutput
        case Success(mask) => MaskReady(mask)
  }

  /** The message the routine's catch-all handler rethrows for a stage that stopped short:
      the caught error's message, or the generic one when that message is empty. */
  function Caught(stage: Stage): (message: string)
    requires !stage.MaskReady?
    ensures message != ""
    ensures stage.LoadFailed? ==> message == LoadErrors.LoadFailureMessage(stage.message)
    ensures stage == RunFailed(Inference.NoInputName) ==>
              message == "Could not determine model input name. Please check the model file."
    ensures stage.RunFailed? && stage.error.EngineFailed? ==> message == Surface(stage.error.reason)
    ensures stage == NoOutput ==> message == "No model outputs found."
  {
    match stage
    case LoadFailed(m) =>
      MessageKept(LoadErrors.Classify(m));
      Surface(LoadErrors.LoadFailureMessage(m))
    case RunFailed(e) =>
      if e == Inference.NoInputName then
        NoInputMessageKept();
        Surface(Inference.Describe(e))
      else Surface(Inference.Describe(e))
    case NoOutput =>
      NoOutputsMessageKept();
      Surface(Inference.Describe(Inference.NoOutputs))
  }

  /** What the routine ends with: the rethrown message of the first failure, or the original
      image with the refined mask as its alpha. */
  function Outcome(stage: Stage, original: seq<Byte>, width: nat, height: nat, exp: real -> real)
    : (r: Result<seq<Byte>, string>)
    requires |original| == 4 * (width * height) && IsExp(exp)
    ensures r.Failure? ==> r.error != ""
    ensures r.Success? <==> stage.MaskReady?
    ensures stage.MaskReady? ==>
              r.Success? && r.value == Compositor.Composited(original, width, height, Refiner.Refined(stage.mask, exp))
    ensures !stage.MaskReady? ==> r.Failure? && r.error == Caught(stage)
  {
    match stage
    case MaskReady(mask) => Success(Compositor.Composited(original, width, height, Refiner.Refined(mask, exp)))
    case _ => Failure(Caught(stage))
  }

  /** The progress values reported, in order: 10 on entry, 25, 35, 45 once the session is
      there, 60 after encoding, 80 after inference, 90 after refinement and 100 at the end. */
  function Progress(stage: Stage): (p: seq<int>)
    ensures 0 < |p| <= |Milestones| && p == Milestones[..|p|]
    ensures p[0] == 10
  {
    match stage
    case LoadFailed(_) => Milestones[..1]
    case RunFailed(_) => Milestones[..5]
    case NoOutput => Milestones[..6]
    case MaskReady(_) => Milestones[..8]
  }

  /** Every value the progress bar is set to, in the order the routine sets them. */
  const Milestones: seq<int> := [10, 25, 35, 45, 60, 80, 90, 100]

  /** Progress strictly increases, stays within [0, 100], and reaches 100 exactly when the
      routine succeeds. */
  lemma ProgressIsMonotone(stage: Stage, original: seq<Byte>, width: nat, height: nat, exp: real -> real)
    requires |original| == 4 * (width * height) && IsExp(exp)
    ensures forall i, j :: 0 <= i < j < |Progress(stage)| ==> Progress(stage)[i] < Progress(stage)[j]
    ensures forall i :: 0 <= i < |Progress(stage)| ==> 0 <= Progress(stage)[i] <= 100
    ensures Progress(stage)[|Progress(stage)| - 1] == 100 <==> Outcome(stage, original, width, height, exp).Success?
  {
    ProgressOrdered(stage);
  }

  /** The progress of a stage increases strictly, within [10, 100], and ends at 100 exactly
      when a mask was obtained. */
  lemma ProgressOrdered(stage: Stage)
    ensures forall i, j :: 0 <= i < j < |Progress(stage)| ==> Progress(stage)[i] < Progress(stage)[j]
    ensures forall i :: 0 <= i < |Progress(stage)| ==> 10 <= Progress(stage)[i] <= 100
    ensures Progress(stage)[|Progress(stage)| - 1] == 100 <==> stage.MaskReady?
  {
    var p := Progress(stage);
    MilestonesIncrease();
    assert forall i :: 0 <= i < |p| ==> p[i] == Milestones[i];
    assert Milestones[7] == 100;
    if |p| < 8 {
      assert p[|p| - 1] == Milestones[|p| - 1] < Milestones[7];
    }
  }

  /** The milestones increase strictly from 10 to 100. */
  lemma MilestonesIncrease()
    ensures forall i, j :: 0 <= i < j < |Milestones| ==> Milestones[i] < Milestones[j]
    ensures forall i :: 0 <= i < |Milestones| ==> 10 <= Milestones[i] <= 100
  {
    IncreasingFromAdjacent(Milestones);
  }

  /** A sequence whose neighbours increase is increasing throughout. */
  lemma {:induction false} IncreasingFromAdjacent(p: seq<int>)
    requires forall i :: 0 < i < |p| ==> p[i - 1] < p[i]
    ensures forall i, j :: 0 <= i < j < |p| ==> p[i] < p[j]
  {
    if |p| > 1 {
      IncreasingFromAdjacent(p[..|p| - 1]);
      forall i | 0 <= i < |p| - 1
        ensures p[i] < p[|p| - 1]
      {
        assert p[..|p| - 1][i] <= p[..|p| - 1][|p| - 2];
      }
    }
  }

  /** A load failure ends the routine with the loader's classified message unchanged, since
      none of the three messages is empty. */
  lemma LoadFailureSurfaces(message: string, canvas: seq<Byte>, original: seq<Byte>,
                            width: nat, height: nat, exp: real -> real)
    requires |canvas| == 4 * N && |original| == 4 * (width * height) && IsExp(exp)
    ensures Outcome(Reach(Failure(message), canvas), original, width, height, exp) ==
              Failure(LoadErrors.Message(LoadErrors.Classify(message)))
  {
    MessageKept(LoadErrors.Classify(message));
  }

  /** The catch-all handler passes each of the loader's messages through unchanged. */
  lemma MessageKept(k: LoadErrors.LoadFailure)
    ensures Surface(LoadErrors.Message(k)) == LoadErrors.Message(k)
  {
    match k
    case ModelNotFound => NotFoundMessageKept();
    case NetworkError => NetworkMessageKept();
    case InitFailure => InitMessageKept();
  }

  lemma NotFoundMessageKept()
    ensures Surface(LoadErrors.Message(LoadErrors.ModelNotFound)) == LoadErrors.Message(LoadErrors.ModelNotFound)
  {
  }

  lemma NetworkMessageKept()
    ensures Surface(LoadErrors.Message(LoadErrors.NetworkError)) == LoadErrors.Message(LoadErrors.NetworkError)
  {
  }

  lemma NoInputMessageKept()
    ensures Surface(Inference.Describe(Inference.NoInputName)) ==
              "Could not determine model input name. Please check the model file."
  {
  }

  lemma NoOutputsMessageKept()
    ensures Surface(Inference.Describe(Inference.NoOutputs)) == "No model outputs found."
  {
  }

  lemma InitMessageKept()
    ensures Surface(LoadErrors.Message(LoadErrors.InitFailure)) == LoadErrors.Message(LoadErrors.InitFailure)
  {
  }

  /** An engine that rejects every binding with an empty reason, for a model that declares
      an input name, makes the routine fail with the generic message. */
  lemma SilentEngineFailure(session: Inference.Session, canvas: seq<Byte>, original: seq<Byte>,
                            width: nat, height: nat, exp: real -> real)
    requires |canvas| == 4 * N && |original| == 4 * (width * height) && IsExp(exp)
    requires |session.inputNames| > 0
    requires forall name :: session.run(name, Encoder.Encoded(canvas)) == Inference.Rejected("")
    ensures Outcome(Reach(Success(session), canvas), original, width, height, exp) ==
              Failure("Failed to remove background. Please try again.")
  {
    var t := Encoder.Encoded(canvas);
    var order := Inference.TrialOrder(session.inputNames);
    Inference.FallbackSucceedsIff(session, t);
    assert forall j :: 0 <= j < |order| ==> session.run(order[j], t).Rejected?;
  }

  /** A model that declares no input name and rejects all three candidate names ends the
      routine with the input-name message. */
  lemma NoInputNameSurfaces(session: Inference.Session, canvas: seq<Byte>, original: seq<Byte>,
                            width: nat, height: nat, exp: real -> real)
    requires |canvas| == 4 * N && |original| == 4 * (width * height) && IsExp(exp)
    requires |session.inputNames| == 0
    requires forall j :: 0 <= j < 3 ==> session.run(Inference.Candidates[j], Encoder.Encoded(canvas)).Rejected?
    ensures Outcome(Reach(Success(session), canvas), original, width, height, exp) ==
              Failure("Could not determine model input name. Please check the model file.")
  {
    Inference.DeclaredNameIsLastResort(session, Encoder.Encoded(canvas));
  }

  /** When the declared name is rejected too, the routine rethrows the engine's reason. */
  lemma EngineReasonSurfaces(session: Inference.Session, canvas: seq<Byte>, original: seq<Byte>,
                             width: nat, height: nat, exp: real -> real)
    requires |canvas| == 4 * N && |original| == 4 * (width * height) && IsExp(exp)
    requires |session.inputNames| > 0
    requires forall j :: 0 <= j < 3 ==> session.run(Inference.Candidates[j], Encoder.Encoded(canvas)).Rejected?
    requires session.run(session.inputNames[0], Encoder.Encoded(canvas)).Rejected?
    ensures Outcome(Reach(Success(session), canvas), original, width, height, exp) ==
              Failure(Surface(session.run(session.inputNames[0], Encoder.Encoded(canvas)).reason))
  {
    var t := Encoder.Encoded(canvas);
    var order := Inference.TrialOrder(session.inputNames);
    assert order[..3] == Inference.Candidates;
    assert forall j :: 0 <= j < |order| ==> session.run(order[j], t).Rejected?;
    Inference.FallbackSucceedsIff(session, t);
  }

  /** An accepted run without outputs ends the routine with the no-outputs message. */
  lemma NoOutputsSurfaces(session: Inference.Session, canvas: seq<Byte>, original: seq<Byte>,
                          width: nat, height: nat, exp: real -> real)
    requires |canvas| == 4 * N && |original| == 4 * (width * height) && IsExp(exp)
    requires Inference.Fallback(session, Encoder.Encoded(canvas)) == Success([])
    ensures Outcome(Reach(Success(session), canvas), original, width, height, exp) ==
              Failure("No model outputs found.")
  {
  }

  /** A successful run returns a buffer of the original's size whose red, green and blue
      bytes are the original's; its alpha bytes come from the refined first output of the
      accepted run. */
  lemma SuccessKeepsColour(load: Result<Inference.Session, string>, canvas: seq<Byte>, original: seq<Byte>,
                           width: nat, height: nat, exp: real -> real)
    requires |canvas| == 4 * N && |original| == 4 * (width * height) && IsExp(exp)
    requires Outcome(Reach(load, canvas), original, width, height, exp).Success?
    ensures var out := Outcome(Reach(load, canvas), original, width, height, exp).value;
            |out| == |original| &&
            forall p, c :: 0 <= p < width * height && 0 <= c < 3 ==>
              out[Compositor.Slot(p, c)] == original[Compositor.Slot(p, c)]
    ensures var mask := Inference.Fallback(load.value, Encoder.Encoded(canvas)).value[0].data;
            Outcome(Reach(load, canvas), original, width, height, exp).value ==
              Compositor.Composited(original, width, height, Refiner.Refined(mask, exp))
  {
    var mask := Reach(load, canvas).mask;
    Compositor.CompositedKeepsColour(original, width, height, Refiner.Refined(mask, exp));
  }

  /** The two mask passes: smoothing into a fresh buffer, then the sigmoid in place. */
  method RefineMask(mask: MaskPlane, exp: real -> real) returns (processedMask: array<real>)
    requires IsExp(exp)
    ensures fresh(processedMask)
    ensures processedMask[..] == Refiner.Refined(mask, exp)
  {
    processedMask := Refiner.SmoothMask(mask, exp);
    Refiner.SigmoidPass(processedMask, exp);
    assert processedMask[..] == Refiner.Refined(mask, exp);
  }

  /** Draws the original into a fresh buffer and composites the refined mask into it. */
  method ApplyMask(original: seq<Byte>, width: nat, height: nat, mask: MaskPlane) returns (out: seq<Byte>)
    requires |original| == 4 * (width * height)
    ensures out == Compositor.Composited(original, width, height, mask)
  {
    var imageData := new Byte[|original|](j requires 0 <= j < |original| => original[j]);
    assert imageData[..] == original;
    Compositor.Composite(imageData, width, height, mask);
    out := imageData[..];
  }

  /** The routine up to the raw mask: session, encoding, the binding cascade and the output
      pick, each run only when the previous one succeeded, with the progress reported so far. */
  method RunStages(load: Result<Inference.Session, string>, canvas: seq<Byte>)
    returns (stage: Stage, progress: seq<int>)
    requires |canvas| == 4 * N
    ensures stage == Reach(load, canvas)
    ensures progress == if stage.MaskReady? then Milestones[..6] else Progress(stage)
  {
    progress := [10];
    if load.Failure? {
      stage := LoadFailed(load.error);
      return;
    }
    var session := load.value;
    progress := progress + [25, 35, 45];
    var tensor := Encoder.EncodeTensor(canvas);
    progress := progress + [60];
    var results, attempts := Inference.RunWithFallback(session, tensor[..]);
    if results.Failure? {
      stage := RunFailed(results.error);
      return;
    }
    progress := progress + [80];
    var output := Inference.PickOutput(results.value);
    if output.Failure? {
      stage := NoOutput;
      return;
    }
    stage := MaskReady(output.value);
  }

  /** The routine: the stages up to the raw mask, then refinement and compositing; a stage
      that stops short is turned into the rethrown message. */
  method RemoveBackground(load: Result<Inference.Session, string>, canvas: seq<Byte>, original: seq<Byte>,
                          width: nat, height: nat, exp: real -> real)
    returns (r: Result<seq<Byte>, string>, progress: seq<int>)
    requires |canvas| == 4 * N && |original| == 4 * (width * height) && IsExp(exp)
    ensures r == Outcome(Reach(load, canvas), original, width, height, exp)
    ensures progress == Progress(Reach(load, canvas))
  {
    var stage;
    stage, progress := RunStages(load, canvas);
    if !stage.MaskReady? {
      r := Failure(Caught(stage));
      return;
    }
    var processedMask := RefineMask(stage.mask, exp);
    progress := progress + [90];
    var composited := ApplyMask(original, width, height, processedMask[..]);
    progress := progress + [100];
    r := Success(composited);
  }

  /** A 2x2 image with an all-0.5 model output: pixel (1, 1) samples four interior cells and
      becomes half transparent (alpha 128), while pixel (0, 0) samples the border cell (0, 0),
      which the smoothing pass never writes, and gets the alpha of Sigmoid(0) whatever the
      model said. Colour bytes are untouched. */
  lemma MidpointScenario(original: seq<Byte>, mask: MaskPlane, exp: real -> real)
    requires |original| == 16 && IsExp(exp)
    requires forall i :: 0 <= i < N ==> mask[i] == 0.5
    ensures Compositor.Composited(original, 2, 2, Refiner.Refined(mask, exp))[Compositor.Slot(3, 3)] == 128
    ensures Compositor.Composited(original, 2, 2, Refiner.Refined(mask, exp))[Compositor.Slot(0, 3)] ==
              Compositor.AlphaByte(Refiner.Sigmoid(0.0, exp))
    ensures forall j :: 0 <= j < 16 && j % 4 != 3 ==>
              Compositor.Composited(original, 2, 2, Refiner.Refined(mask, exp))[j] == original[j]
  {
    Refiner.MidpointMask(mask, exp);
    assert !Refiner.Interior(0);
    TwoByTwo(original, Refiner.Refined(mask, exp));
  }

  /** The 2x2 composite for a refined mask that is 0.5 on the interior. */
  lemma TwoByTwo(original: seq<Byte>, refined: MaskPlane)
    requires |original| == 16
    requires forall i :: 0 <= i < N && Refiner.Interior(i) ==> refined[i] == 0.5
    ensures Compositor.Composited(original, 2, 2, refined)[Compositor.Slot(3, 3)] == 128
    ensures Compositor.Composited(original, 2, 2, refined)[Compositor.Slot(0, 3)] == Compositor.AlphaByte(refined[0])
    ensures forall j :: 0 <= j < 16 && j % 4 != 3 ==> Compositor.Composited(original, 2, 2, refined)[j] == original[j]
  {
    var out := Compositor.Composited(original, 2, 2, refined);
    CentreOfTwoByTwo(refined);
    assert out[Compositor.Slot(3, 3)] == Compositor.PixelAlpha(refined, 2, 2, 3);
    Compositor.AlignedPixelIsExact(refined, 2, 2, 0, 0);
    assert out[Compositor.Slot(0, 3)] == Compositor.PixelAlpha(refined, 2, 2, 0);
  }

  /** Pixel (1, 1) of a 2x2 image maps to (159.5, 159.5) and blends the four interior
      cells around the plane's centre equally. */
  lemma CentreOfTwoByTwo(refined: MaskPlane)
    requires forall i :: 0 <= i < N && Refiner.Interior(i) ==> refined[i] == 0.5
    ensures Compositor.AlphaByte(Compositor.InterpolatedAlpha(refined, 2, 2, 1, 1)) == 128
  {
    var s := Compositor.SampleAt(1, 1, 2, 2);
    assert Compositor.MaskCoord(1, 2, W) == 159.5;
    assert s.x1 == 159 && s.y1 == 159 && s.dx == 0.5 && s.dy == 0.5;
    assert Refiner.Interior(159 * W + 159) && Refiner.Interior(159 * W + 160);
    assert Refiner.Interior(160 * W + 159) && Refiner.Interior(160 * W + 160);
    assert Compositor.InterpolatedAlpha(refined, 2, 2, 1, 1) == 0.5;
    assert Round(127.5) == 128;
  }
}
