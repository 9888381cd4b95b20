/**
 The interface driven by the framework through any sequence of calls, with the
 device calls of all of them appended into one trace. The framework writes
 commands through the exported command handles, modelled as `SetCommand`.
 */
module Controller {
  import opened Wrappers
  import opened Hardware
  import opened InterfaceNames
  import opened ModeSwitch
  import opened Cycle

  datatype Call =
    | Prepare(starts: seq<string>, stops: seq<string>)
    | Perform
    | ReadTick(answer: ReadAnswer)
    | WriteTick
    | SetCommand(slot: nat, value: Double)
    | Activate(answer: ReadAnswer)
    | Deactivate

  /** Calls the framework can make: answers hold full robot states, handles point at a slot. */
  predicate WellFormed(c: Call) {
    match c
    case ReadTick(a) => ValidRobotState(a.snapshot)
    case Activate(a) => ValidRobotState(a.snapshot)
    case SetCommand(slot, _) => slot < NumberOfJoints
    case _ => true
  }

  function Apply(hw: Hw, c: Call): (r: Step)
    requires Valid(hw) && WellFormed(c)
    ensures Valid(r.hw)
  {
    match c
    case Prepare(starts, stops) =>
      // an exception leaves the partially updated interface behind and calls nothing
      var p := PrepareCommandModeSwitch(hw, starts, stops);
      Step(p.hw, if p.thrown.None? then Ok else Error, [])
    case Perform => PerformCommandModeSwitch(hw)
    case ReadTick(a) => Read(hw, a.model, a.snapshot)
    case WriteTick => Write(hw)
    case SetCommand(slot, value) => Step(hw.(commands := hw.commands[slot := value]), Ok, [])
    case Activate(a) => OnActivate(hw, a.model, a.snapshot)
    case Deactivate => OnDeactivate(hw)
  }

  predicate AllWellFormed(calls: seq<Call>) {
    forall k :: 0 <= k < |calls| ==> WellFormed(calls[k])
  }

  lemma TailWellFormed(calls: seq<Call>)
    requires |calls| > 0 && AllWellFormed(calls)
    ensures AllWellFormed(calls[1..])
  {
    assert forall k :: 0 <= k < |calls| - 1 ==> calls[1..][k] == calls[k + 1];
  }

  /** The final state and the device trace of a run of calls. */
  function Run(hw: Hw, calls: seq<Call>): (r: (Hw, seq<Event>))
    requires Valid(hw) && AllWellFormed(calls)
    ensures Valid(r.0)
    decreases |calls|
  {
    if |calls| == 0 then
      (hw, [])
    else
      var step := Apply(hw, calls[0]);
      TailWellFormed(calls);
      var rest := Run(step.hw, calls[1..]);
      (rest.0, step.events + rest.1)
  }

  predicate IsInit(e: Event) {
    e == InitializeTorqueInterface || e == InitializeJointVelocityInterface
  }

  /** Every interface initialisation is directly preceded by a stopRobot. */
  predicate InitsAfterStop(trace: seq<Event>) {
    forall k :: 0 <= k < |trace| && IsInit(trace[k]) ==> 0 < k && trace[k - 1] == StopRobot
  }

  /** Every writeOnce carries seven finite commands. */
  predicate WritesFinite(trace: seq<Event>) {
    forall k :: 0 <= k < |trace| && trace[k].WriteOnce? ==>
      |trace[k].sent| == NumberOfJoints && AllFinite(trace[k].sent)
  }

  lemma StepInitsAfterStop(hw: Hw, c: Call)
    requires Valid(hw) && WellFormed(c)
    ensures InitsAfterStop(Apply(hw, c).events)
  {
  }

  lemma StepWritesFinite(hw: Hw, c: Call)
    requires Valid(hw) && WellFormed(c)
    ensures WritesFinite(Apply(hw, c).events)
  {
    var r := Apply(hw, c);
    if c.WriteTick? {
      forall k | 0 <= k < |r.events| && r.events[k].WriteOnce?
        ensures |r.events[k].sent| == NumberOfJoints && AllFinite(r.events[k].sent)
      {
        assert r.events[k] in r.events;
      }
    }
  }

  lemma AppendInitsAfterStop(a: seq<Event>, b: seq<Event>)
    requires InitsAfterStop(a) && InitsAfterStop(b)
    ensures InitsAfterStop(a + b)
  {
    var t := a + b;
    forall k | 0 <= k < |t| && IsInit(t[k]) ensures 0 < k && t[k - 1] == StopRobot {
      if k >= |a| {
        assert t[k] == b[k - |a|];
        assert k - |a| > 0;
        assert t[k - 1] == b[k - 1 - |a|];
      }
    }
  }

  lemma AppendWritesFinite(a: seq<Event>, b: seq<Event>)
    requires WritesFinite(a) && WritesFinite(b)
    ensures WritesFinite(a + b)
  {
    var t := a + b;
    forall k | 0 <= k < |t| && t[k].WriteOnce?
      ensures |t[k].sent| == NumberOfJoints && AllFinite(t[k].sent)
    {
      if k >= |a| {
        assert t[k] == b[k - |a|];
      }
    }
  }

  /** Over any sequence of calls the robot is never reconfigured without first being stopped. */
  lemma {:induction false} RunInitsAfterStop(hw: Hw, calls: seq<Call>)
    requires Valid(hw) && AllWellFormed(calls)
    ensures InitsAfterStop(Run(hw, calls).1)
    decreases |calls|
  {
    if |calls| > 0 {
      var step := Apply(hw, calls[0]);
      TailWellFormed(calls);
      StepInitsAfterStop(hw, calls[0]);
      RunInitsAfterStop(step.hw, calls[1..]);
      AppendInitsAfterStop(step.events, Run(step.hw, calls[1..]).1);
    }
  }

  /** Over any sequence of calls the robot is never sent a NaN or infinite command. */
  lemma {:induction false} RunWritesFinite(hw: Hw, calls: seq<Call>)
    requires Valid(hw) && AllWellFormed(calls)
    ensures WritesFinite(Run(hw, calls).1)
    decreases |calls|
  {
    if |calls| > 0 {
      var step := Apply(hw, calls[0]);
      TailWellFormed(calls);
      StepWritesFinite(hw, calls[0]);
      RunWritesFinite(step.hw, calls[1..]);
      AppendWritesFinite(step.events, Run(step.hw, calls[1..]).1);
    }
  }

  /**
   Starting from a fresh interface, requesting all seven effort interfaces and
   nothing else, then performing the switch, runs effort control after exactly
   one stopRobot and one torque initialisation.
   */
  lemma StartEffortScenario(starts: seq<string>)
    requires |starts| == NumberOfJoints
    requires forall i :: 0 <= i < |starts| ==> IsModeInterface(starts[i], Effort)
    requires forall i :: 0 <= i < |starts| ==> !IsModeInterface(starts[i], Velocity)
    ensures var r := Run(Initial(), [Prepare(starts, []), Perform]);
      && r.0.effort == ModeFlags(true, true)
      && r.0.velocity == ModeFlags(false, false)
      && r.0.commands == Zeros()
      && r.1 == [StopRobot, InitializeTorqueInterface]
  {
    CountAllIff(starts, Effort);
    CountZeroIff(starts, Velocity);
    assert CountMatching(starts, Effort) == NumberOfJoints;
    assert CountMatching(starts, Velocity) == 0;
    assert CountMatching([], Effort) == 0 && CountMatching([], Velocity) == 0;
    var hw0 := Initial();
    var prepared := PrepareCommandModeSwitch(hw0, starts, []);
    assert prepared.thrown.None?;
    assert prepared.hw.effort == ModeFlags(true, false);
    assert prepared.hw.velocity == ModeFlags(false, false);
    var performed := PerformCommandModeSwitch(prepared.hw);
    assert performed.events == [StopRobot, InitializeTorqueInterface];
    var calls := [Prepare(starts, []), Perform];
    assert Apply(hw0, calls[0]) == Step(prepared.hw, Ok, []);
    assert calls[1..] == [Perform];
    assert Run(prepared.hw, [Perform]) == (performed.hw, performed.events) by {
      assert [Perform][1..] == [];
    }
  }

  /** A stop request naming only some effort joints throws and changes nothing. */
  lemma PartialStopScenario(hw: Hw, stops: seq<string>)
    requires Valid(hw)
    requires 0 < CountMatching(stops, Effort) < NumberOfJoints
    ensures var r := Run(hw, [Prepare([], stops)]);
      r.0 == hw && r.1 == []
    ensures PrepareCommandModeSwitch(hw, [], stops).thrown
      == Some(InvalidInterfaceCount(Effort, Stop, CountMatching(stops, Effort)))
  {
    var calls := [Prepare([], stops)];
    assert calls[1..] == [];
  }
}
