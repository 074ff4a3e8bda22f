/** The inference adapter: the input tensor is bound under the names "input.1",
    "input" and "data" in that order, then under the first input name the model
    declares; the first output of the first run that succeeds is the raw mask.
    The inference engine is an oracle: for a binding name and a tensor it either
    rejects the run (with the reason it gives) or returns its named outputs. */
module Inference {
  import opened Base

  /** One named output tensor of a run; its data is the model's [1, 1, 320, 320] mask. */
  datatype NamedTensor = NamedTensor(name: string, data: MaskPlane)

  /** What one run of the engine does: reject the binding, or produce outputs listed in
      the order in which the result object's keys are enumerated. */
  datatype RunOutcome = Rejected(reason: string) | Accepted(outputs: seq<NamedTensor>)

  /** A loaded inference session: how it answers a run with one bound input,
      and the input names the model declares. */
  datatype Session = Session(run: (string, seq<real>) -> RunOutcome, inputNames: seq<string>)

  datatype InferenceError = NoInputName | EngineFailed(reason: string) | NoOutputs

  /** The binding names tried before the model's own input names are consulted. */
  const Candidates: seq<string> := ["input.1", "input", "data"]

  /** Every name the adapter may try, in order: the three candidates, then the first
      declared input name if there is one. */
  function TrialOrder(inputNames: seq<string>): (order: seq<string>)
    ensures |order| == if |inputNames| > 0 then 4 else 3
    ensures order[..3] == Candidates
    ensures |inputNames| > 0 ==> order[3] == inputNames[0]
  {
    if |inputNames| > 0 then Candidates + [inputNames[0]] else Candidates
  }

  /** Position of the first name in `names` that the engine accepts, or |names| if it
      rejects them all. */
  function FirstAccepted(run: (string, seq<real>) -> RunOutcome, tensor: seq<real>, names: seq<string>): (k: nat)
    ensures k <= |names|
    ensures forall j :: 0 <= j < k ==> run(names[j], tensor).Rejected?
    ensures k < |names| ==> run(names[k], tensor).Accepted?
    decreases |names|
  {
    if |names| == 0 then 0
    else if run(names[0], tensor).Accepted? then 0
    else 1 + FirstAccepted(run, tensor, names[1..])
  }

  /** The names actually tried: up to and including the first accepted one, or all of them.
      Every name before the last one tried was rejected, and the last one was accepted unless
      every name in the trial order was tried. */
  function Attempted(session: Session, tensor: seq<real>): (tried: seq<string>)
    ensures 0 < |tried| <= |TrialOrder(session.inputNames)|
    ensures tried == TrialOrder(session.inputNames)[..|tried|]
    ensures forall j :: 0 <= j < |tried| - 1 ==> session.run(tried[j], tensor).Rejected?
    ensures session.run(tried[|tried| - 1], tensor).Rejected? ==> tried == TrialOrder(session.inputNames)
  {
    var order := TrialOrder(session.inputNames);
    var k := FirstAccepted(session.run, tensor, order);
    if k < |order| then order[..k + 1] else order
  }

  /** The outcome of the binding cascade: the outputs of the first accepted run; if every
      candidate is rejected and the model declares no input, NoInputName; if it declares
      one and the engine rejects that too, the engine's own failure. */
  function Fallback(session: Session, tensor: seq<real>): (r: Result<seq<NamedTensor>, InferenceError>)
    ensures r.Failure? && r.error == NoInputName ==> |session.inputNames| == 0
    ensures r.Failure? && |session.inputNames| > 0 ==>
              session.run(session.inputNames[0], tensor).Rejected? &&
              r.error == EngineFailed(session.run(session.inputNames[0], tensor).reason)
    ensures r.Failure? ==> r.error != NoOutputs
  {
    var order := TrialOrder(session.inputNames);
    var k := FirstAccepted(session.run, tensor, order);
    if k < |order| then Success(session.run(order[k], tensor).outputs)
    else if |session.inputNames| == 0 then Failure(NoInputName)
    else Failure(EngineFailed(session.run(session.inputNames[0], tensor).reason))
  }

  /** The cascade succeeds exactly when some name in the trial order is accepted. That the
      names tried before the winning one were rejected is `CascadeStopsAtFirstSuccess`. */
  lemma FallbackSucceedsIff(session: Session, tensor: seq<real>)
    ensures Fallback(session, tensor).Success? <==>
              exists j :: 0 <= j < |TrialOrder(session.inputNames)| &&
                          session.run(TrialOrder(session.inputNames)[j], tensor).Accepted?
    ensures Fallback(session, tensor).Failure? <==>
              forall j :: 0 <= j < |TrialOrder(session.inputNames)| ==>
                          session.run(TrialOrder(session.inputNames)[j], tensor).Rejected?
  {
    var order := TrialOrder(session.inputNames);
    var k := FirstAccepted(session.run, tensor, order);
    if k < |order| {
      assert session.run(order[k], tensor).Accepted?;
    }
  }

  /** The chain stops at the first success: the cascade succeeds exactly when the last name
      tried was accepted, and then its result is that run's outputs; when it fails, every
      name of the trial order was tried and rejected. */
  lemma CascadeStopsAtFirstSuccess(session: Session, tensor: seq<real>)
    ensures var tried := Attempted(session, tensor);
            Fallback(session, tensor).Success? <==> session.run(tried[|tried| - 1], tensor).Accepted?
    ensures var tried := Attempted(session, tensor);
            Fallback(session, tensor).Success? ==>
              Fallback(session, tensor).value == session.run(tried[|tried| - 1], tensor).outputs
    ensures Fallback(session, tensor).Failure? ==> Attempted(session, tensor) == TrialOrder(session.inputNames)
  {
    var order := TrialOrder(session.inputNames);
    var k := FirstAccepted(session.run, tensor, order);
    var tried := Attempted(session, tensor);
    if k < |order| {
      assert tried == order[..k + 1] && tried[|tried| - 1] == order[k];
    } else {
      assert tried == order;
      assert session.run(order[|order| - 1], tensor).Rejected?;
    }
  }

  /** An engine that rejects "input.1" and "input" but accepts "data" is run with "data",
      after exactly those two attempts, and never with a declared input name. */
  lemma ThirdCandidateWins(session: Session, tensor: seq<real>)
    requires session.run("input.1", tensor).Rejected? && session.run("input", tensor).Rejected?
    requires session.run("data", tensor).Accepted?
    ensures Fallback(session, tensor) == Success(session.run("data", tensor).outputs)
    ensures Attempted(session, tensor) == ["input.1", "input", "data"]
  {
    var order := TrialOrder(session.inputNames);
    assert order[0] == "input.1" && order[1] == "input" && order[2] == "data";
    var k := FirstAccepted(session.run, tensor, order);
    assert k == 2;
    assert order[..3] == Candidates;
  }

  /** When the engine accepts "input.1", nothing else is tried, whatever the model declares. */
  lemma FirstCandidateWins(session: Session, tensor: seq<real>)
    requires session.run("input.1", tensor).Accepted?
    ensures Fallback(session, tensor) == Success(session.run("input.1", tensor).outputs)
    ensures Attempted(session, tensor) == ["input.1"]
  {
    var order := TrialOrder(session.inputNames);
    assert order[0] == "input.1";
  }

  /** When "input.1" is rejected and "input" accepted, the second run's outputs are used. */
  lemma SecondCandidateWins(session: Session, tensor: seq<real>)
    requires session.run("input.1", tensor).Rejected? && session.run("input", tensor).Accepted?
    ensures Fallback(session, tensor) == Success(session.run("input", tensor).outputs)
    ensures Attempted(session, tensor) == ["input.1", "input"]
  {
    var order := TrialOrder(session.inputNames);
    assert order[0] == "input.1" && order[1] == "input";
    var k := FirstAccepted(session.run, tensor, order);
    assert k == 1;
    assert order[..2] == ["input.1", "input"];
  }

  /** If all three candidates are rejected, the declared name decides: none declared
      is NoInputName; otherwise the run with the first declared name is the result. */
  lemma DeclaredNameIsLastResort(session: Session, tensor: seq<real>)
    requires forall j :: 0 <= j < 3 ==> session.run(Candidates[j], tensor).Rejected?
    ensures |session.inputNames| == 0 ==> Fallback(session, tensor) == Failure(NoInputName)
    ensures |session.inputNames| > 0 && session.run(session.inputNames[0], tensor).Accepted? ==>
              Fallback(session, tensor) == Success(session.run(session.inputNames[0], tensor).outputs)
    ensures |session.inputNames| > 0 ==> Attempted(session, tensor) == Candidates + [session.inputNames[0]]
    ensures |session.inputNames| == 0 ==> Attempted(session, tensor) == Candidates
  {
    var order := TrialOrder(session.inputNames);
    var k := FirstAccepted(session.run, tensor, order);
    assert order[..3] == Candidates;
    assert forall j :: 0 <= j < 3 ==> session.run(order[j], tensor).Rejected?;
    assert k >= 3;
  }

  /** The cascade of runs, each tried only if the previous one threw. `attempts` records the
      binding names in the order the engine was called with them. */
  method RunWithFallback(session: Session, tensor: seq<real>)
    returns (r: Result<seq<NamedTensor>, InferenceError>, attempts: seq<string>)
    ensures r == Fallback(session, tensor)
    ensures attempts == Attempted(session, tensor)
  {
    ghost var order := TrialOrder(session.inputNames);
    assert order[0] == Candidates[0] && order[1] == Candidates[1] && order[2] == Candidates[2];
    var outcome := session.run("input.1", tensor);
    attempts := ["input.1"];
    if outcome.Accepted? {
      r := Success(outcome.outputs);
      assert FirstAccepted(session.run, tensor, order) == 0;
      return;
    }
    outcome := session.run("input", tensor);
    attempts := attempts + ["input"];
    if outcome.Accepted? {
      r := Success(outcome.outputs);
      assert FirstAccepted(session.run, tensor, order) == 1;
      return;
    }
    outcome := session.run("data", tensor);
    attempts := attempts + ["data"];
    if outcome.Accepted? {
      r := Success(outcome.outputs);
      assert FirstAccepted(session.run, tensor, order) == 2;
      return;
    }
    var inputNames := session.inputNames;
    if |inputNames| > 0 {
      outcome := session.run(inputNames[0], tensor);
      attempts := attempts + [inputNames[0]];
      if outcome.Accepted? {
        r := Success(outcome.outputs);
        assert FirstAccepted(session.run, tensor, order) == 3;
      } else {
        r := Failure(EngineFailed(outcome.reason));
        assert FirstAccepted(session.run, tensor, order) == 4;
      }
    } else {
      r := Failure(NoInputName);
      assert FirstAccepted(session.run, tensor, order) == 3;
    }
  }

  /** The raw mask is the data of the first output; a run without outputs is an error. */
  function PickOutput(outputs: seq<NamedTensor>): (r: Result<MaskPlane, InferenceError>)
    ensures r.Success? <==> |outputs| > 0
    ensures r.Success? ==> r.value == outputs[0].data
    ensures r.Failure? ==> r.error == NoOutputs
  {
    if |outputs| > 0 then Success(outputs[0].data) else Failure(NoOutputs)
  }

  /** The message each inference failure surfaces with. */
  function Describe(e: InferenceError): string
  {
    match e
    case NoInputName => "Could not determine model input name. Please check the model file."
    case EngineFailed(reason) => reason
    case NoOutputs => "No model outputs found."
  }
}
