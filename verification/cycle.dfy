/**
 The per-tick read and write of the control loop, and the activate/deactivate
 lifecycle callbacks built on them.
 */
module Cycle {
  import opened Wrappers
  import opened Hardware

  /** The std::any_of test of write: some command is NaN or infinite. */
  function AnyNonFinite(cmds: seq<Double>): (b: bool)
    ensures b <==> !AllFinite(cmds)
    decreases |cmds|
  {
    if |cmds| == 0 then
      false
    else if cmds[0].NonFinite? then
      true
    else
      assert forall i :: 0 <= i < |cmds| - 1 ==> cmds[1..][i] == cmds[i + 1];
      AnyNonFinite(cmds[1..])
  }

  predicate AnyRunning(hw: Hw) {
    hw.effort.running || hw.velocity.running
  }

  /**
   write: a non-finite command fails the tick before anything is sent; otherwise the
   commands reach the robot only while some mode runs.
   */
  function Write(hw: Hw): (r: Step)
    ensures r.hw == hw
    ensures r.ret == Error <==> exists i :: 0 <= i < |hw.commands| && hw.commands[i].NonFinite?
    ensures r.ret == Error ==> r.events == []
    ensures r.ret == Ok ==> (r.events == [WriteOnce(hw.commands)] <==> AnyRunning(hw))
    ensures r.ret == Ok ==> (r.events == [] <==> !AnyRunning(hw))
    ensures forall e :: e in r.events ==> e.WriteOnce? && AllFinite(e.sent)
  {
    if AnyNonFinite(hw.commands) then
      Step(hw, Error, [])
    else if hw.velocity.running || hw.effort.running then
      Step(hw, Ok, [WriteOnce(hw.commands)])
    else
      Step(hw, Ok, [])
  }

  /**
   read: fetch the model handle while it is still null, then read one robot state
   and copy its q, dq and tau_J into the joint state arrays. `modelAnswer` is what
   getModel hands back (None for a null pointer), `snapshot` what readOnce returns.
   */
  function Read(hw: Hw, modelAnswer: Option<ModelHandle>, snapshot: RobotState): (r: Step)
    requires Valid(hw) && ValidRobotState(snapshot)
    ensures r.ret == Ok && Valid(r.hw)
    ensures r.hw.model == (if hw.model.None? then modelAnswer else hw.model)
    ensures GetModel in r.events <==> hw.model.None?
    ensures |r.events| == (if hw.model.None? then 2 else 1) && r.events[|r.events| - 1] == ReadOnce
    ensures r.hw.robotState == Some(snapshot)
    ensures r.hw.positions == snapshot.q
    ensures r.hw.velocities == snapshot.dq
    ensures r.hw.efforts == snapshot.tauJ
    ensures r.hw.effort == hw.effort && r.hw.velocity == hw.velocity
    ensures r.hw.commands == hw.commands
  {
    var fetched := if hw.model.None? then [GetModel] else [];
    var model := if hw.model.None? then modelAnswer else hw.model;
    var hw' := hw.(model := model, robotState := Some(snapshot),
                   positions := snapshot.q, velocities := snapshot.dq, efforts := snapshot.tauJ);
    Step(hw', Ok, fetched + [ReadOnce])
  }

  /** How often getModel occurs in a trace. */
  function GetModelCount(events: seq<Event>): nat {
    multiset(events)[GetModel]
  }

  /** Answers from the robot library for a run of reads. */
  datatype ReadAnswer = ReadAnswer(model: Option<ModelHandle>, snapshot: RobotState)

  predicate ValidAnswers(answers: seq<ReadAnswer>) {
    forall k :: 0 <= k < |answers| ==> ValidRobotState(answers[k].snapshot)
  }

  /** A run of consecutive reads, returning the final state and all device calls. */
  function ReadMany(hw: Hw, answers: seq<ReadAnswer>): (r: (Hw, seq<Event>))
    requires Valid(hw) && ValidAnswers(answers)
    ensures Valid(r.0)
    decreases |answers|
  {
    if |answers| == 0 then
      (hw, [])
    else
      var step := Read(hw, answers[0].model, answers[0].snapshot);
      var rest := ReadMany(step.hw, answers[1..]);
      (rest.0, step.events + rest.1)
  }

  /**
   Once getModel has returned a non-null handle it is never called again: over any
   number of reads whose getModel answers are non-null it is called at most once,
   and not at all if the handle was already there.
   */
  lemma {:induction false} GetModelAtMostOnce(hw: Hw, answers: seq<ReadAnswer>)
    requires Valid(hw) && ValidAnswers(answers)
    requires forall k :: 0 <= k < |answers| ==> answers[k].model.Some?
    ensures GetModelCount(ReadMany(hw, answers).1) <= 1
    ensures hw.model.Some? ==> GetModelCount(ReadMany(hw, answers).1) == 0
    ensures |answers| > 0 ==> ReadMany(hw, answers).0.model.Some?
    decreases |answers|
  {
    if |answers| > 0 {
      var step := Read(hw, answers[0].model, answers[0].snapshot);
      assert ValidAnswers(answers[1..]) by {
        forall k | 0 <= k < |answers| - 1 ensures ValidRobotState(answers[1..][k].snapshot) {
          assert answers[1..][k] == answers[k + 1];
        }
      }
      assert forall k :: 0 <= k < |answers| - 1 ==> answers[1..][k] == answers[k + 1];
      GetModelAtMostOnce(step.hw, answers[1..]);
      var rest := ReadMany(step.hw, answers[1..]);
      assert ReadMany(hw, answers).1 == step.events + rest.1;
      assert step.hw.model.Some?;
    }
  }

  /** on_activate: zero the commands, then read once so the state is initialised. */
  function OnActivate(hw: Hw, modelAnswer: Option<ModelHandle>, snapshot: RobotState): (r: Step)
    requires Valid(hw) && ValidRobotState(snapshot)
    ensures r.ret == Ok && Valid(r.hw)
    ensures forall i :: 0 <= i < |r.hw.commands| ==> r.hw.commands[i] == Zero
    ensures r.hw.effort == hw.effort && r.hw.velocity == hw.velocity
    ensures r.hw.positions == snapshot.q && r.hw.velocities == snapshot.dq
    ensures r.hw.efforts == snapshot.tauJ
    ensures r.events == (if hw.model.None? then [GetModel] else []) + [ReadOnce]
    ensures r.hw.model == (if hw.model.None? then modelAnswer else hw.model)
    ensures r.hw.robotState == Some(snapshot)
  {
    var zeroed := hw.(commands := Zeros());
    Read(zeroed, modelAnswer, snapshot)
  }

  /** on_deactivate: stop the robot whatever mode runs; the flags are left as they are. */
  function OnDeactivate(hw: Hw): (r: Step)
    ensures r.ret == Ok && r.hw == hw
    ensures r.events == [StopRobot]
  {
    Step(hw, Ok, [StopRobot])
  }
}
