/** The diagnostic template (Hive::Diagnostic): a diagnostic decides whether
    to run, diagnoses, repairs a failed diagnosis, and remembers the outcome
    as its last run. */
module Diagnostic {
  import opened Ruby

  /** A diagnostic result (Hive::Results): a status with a message and data. */
  datatype Results = Results(status: string, message: Value, data: Value)

  /** The hooks a concrete diagnostic supplies: an optional override of
      `should_run?`, the result `diagnose` returns, what `repair` makes of a
      result, and the result's `failed?` answer. */
  datatype Hooks = Hooks(
    shouldRunOverride: Option<bool>,
    diagnosis: Results,
    repair: Results -> Results,
    failed: Results -> bool)

  /** The hooks called during a run, in order. */
  datatype HookCall = Diagnose | Repair(arg: Results)

  /** `pass`: a passing result carrying the message and data, both `{}` by default. */
  function Pass(message: Value := Dict(map[]), data: Value := Dict(map[])): (r: Results)
    ensures r.status == "pass"
    ensures r.message == message && r.data == data
  {
    Results("pass", message, data)
  }

  /** `fail`: a failing result carrying the message and data, both `{}` by default. */
  function Fail(message: Value := Dict(map[]), data: Value := Dict(map[])): (r: Results)
    ensures r.status == "fail"
    ensures r.message == message && r.data == data
  {
    Results("fail", message, data)
  }

  /** A pass and a fail never coincide, and each keeps its message and data apart. */
  lemma PassFailDistinct(m1: Value, d1: Value, m2: Value, d2: Value)
    ensures Pass(m1, d1) != Fail(m2, d2)
    ensures Pass(m1, d1) == Pass(m2, d2) <==> m1 == m2 && d1 == d2
    ensures Fail(m1, d1) == Fail(m2, d2) <==> m1 == m2 && d1 == d2
  {
    assert Pass(m1, d1).status != Fail(m2, d2).status;
  }

  /** `should_run?`: true unless a concrete diagnostic overrides it. */
  function ShouldRun(h: Hooks): (r: bool)
    ensures h.shouldRunOverride.None? ==> r
    ensures h.shouldRunOverride.Some? ==> r == h.shouldRunOverride.value
  {
    match h.shouldRunOverride
    case None => true
    case Some(b) => b
  }

  /** The hooks an enabled run calls: diagnose, then repair on a failed diagnosis. */
  function RunCalls(h: Hooks): seq<HookCall>
  {
    [Diagnose] + if h.failed(h.diagnosis) then [Repair(h.diagnosis)] else []
  }

  /** The result an enabled run records. */
  function Outcome(h: Hooks): Results
  {
    if h.failed(h.diagnosis) then h.repair(h.diagnosis) else h.diagnosis
  }

  /** `diagnose` is called exactly once and first; `repair` is called at most
      once, exactly when the diagnosis failed, and with the diagnosis. */
  lemma RunCallsShape(h: Hooks)
    ensures |RunCalls(h)| >= 1 && RunCalls(h)[0] == Diagnose
    ensures forall k :: 1 <= k < |RunCalls(h)| ==> RunCalls(h)[k] == Repair(h.diagnosis)
    ensures |RunCalls(h)| <= 2
    ensures (exists c :: c in RunCalls(h) && c.Repair?) <==> h.failed(h.diagnosis)
  {
    if h.failed(h.diagnosis) {
      assert RunCalls(h)[1] == Repair(h.diagnosis);
    }
  }

  /** The recorded result is what the last hook call produced: the repair of
      the diagnosis when repair was called, the diagnosis itself otherwise. */
  lemma OutcomeFollowsCalls(h: Hooks)
    ensures RunCalls(h)[|RunCalls(h)| - 1] == Diagnose ==> Outcome(h) == h.diagnosis
    ensures RunCalls(h)[|RunCalls(h)| - 1].Repair? ==>
      Outcome(h) == h.repair(RunCalls(h)[|RunCalls(h)| - 1].arg)
    ensures !h.failed(h.diagnosis) ==> Outcome(h) == h.diagnosis
  {
  }

  /** `last_run` after a run that started from `prev`. */
  function AfterRun(h: Hooks, prev: Option<Results>): (r: Option<Results>)
    ensures ShouldRun(h) ==> r == Some(Outcome(h))
    ensures !ShouldRun(h) ==> r == prev
  {
    if ShouldRun(h) then Some(Outcome(h)) else prev
  }

  class Diagnostic {
    var config: Attributes
    var serial: string
    var lastRun: Option<Results>
    var message: Value
    var device: Value

    /** A new diagnostic has not run; its message and device are unset (nil). */
    constructor (config: Attributes, serial: string)
      ensures this.config == config && this.serial == serial
      ensures lastRun == None && message == Nil && device == Nil
    {
      this.config := config;
      this.serial := serial;
      lastRun := None;
      message := Nil;
      device := Nil;
    }

    /** `run`: when enabled, diagnose, repair a failed diagnosis, and record the
        result; either way return the last recorded result. */
    method Run(h: Hooks) returns (r: Option<Results>, calls: seq<HookCall>)
      modifies this
      ensures lastRun == AfterRun(h, old(lastRun))
      ensures r == lastRun
      ensures calls == if ShouldRun(h) then RunCalls(h) else []
      ensures config == old(config) && serial == old(serial)
      ensures message == old(message) && device == old(device)
    {
      calls := [];
      if ShouldRun(h) {
        var result := h.diagnosis;
        calls := calls + [Diagnose];
        if h.failed(result) {
          calls := calls + [Repair(result)];
          result := h.repair(result);
        }
        lastRun := Some(result);
      }
      r := lastRun;
    }
  }
}
