/**
 The control-mode state machine: prepare_command_mode_switch records which mode
 the framework claims, perform_command_mode_switch brings the device in line with
 those claims.
 */
module ModeSwitch {
  import opened Wrappers
  import opened Hardware
  import opened InterfaceNames

  datatype Direction = Start | Stop

  /** The std::invalid_argument thrown for a count that is neither 0 nor all joints. */
  datatype SwitchError = InvalidInterfaceCount(mode: Mode, direction: Direction, count: nat)

  /** A mode's claim flag after the rule ran, and the exception it threw, if any. */
  datatype ClaimUpdate = ClaimUpdate(claimed: bool, thrown: Option<SwitchError>)

  /** A count the rule accepts: nothing of the mode, or all seven joints of it. */
  predicate AllOrNothing(n: nat) {
    n == 0 || n == NumberOfJoints
  }

  /**
   The start_stop_interface lambda applied to one mode, given how many stop and
   start names matched it: the stop rule runs first and may throw before the start
   rule is looked at.
   */
  function UpdateClaim(m: Mode, claimed: bool, numStop: nat, numStart: nat): (r: ClaimUpdate)
    ensures r.thrown.None? <==> AllOrNothing(numStop) && AllOrNothing(numStart)
    ensures r.thrown.None? ==>
      r.claimed == (numStart == NumberOfJoints || (numStop == 0 && claimed))
    ensures !AllOrNothing(numStop) ==>
      r == ClaimUpdate(claimed, Some(InvalidInterfaceCount(m, Stop, numStop)))
    ensures AllOrNothing(numStop) && !AllOrNothing(numStart) ==>
      r == ClaimUpdate(numStop == 0 && claimed, Some(InvalidInterfaceCount(m, Start, numStart)))
  {
    if numStop != NumberOfJoints && numStop != 0 then
      ClaimUpdate(claimed, Some(InvalidInterfaceCount(m, Stop, numStop)))
    else
      var afterStop := if numStop == NumberOfJoints then false else claimed;
      if numStart == NumberOfJoints then
        ClaimUpdate(true, None)
      else if numStart != 0 then
        ClaimUpdate(afterStop, Some(InvalidInterfaceCount(m, Start, numStart)))
      else
        ClaimUpdate(afterStop, None)
  }

  function ModeUpdate(hw: Hw, m: Mode, starts: seq<string>, stops: seq<string>): ClaimUpdate {
    UpdateClaim(m, Flags(hw, m).claimed, CountMatching(stops, m), CountMatching(starts, m))
  }

  /** The interface after prepare_command_mode_switch returned or threw. */
  datatype Prepared = Prepared(hw: Hw, thrown: Option<SwitchError>)

  /**
   prepare_command_mode_switch: effort is processed, then velocity; an exception
   from the velocity rule leaves the effort update in place.
   */
  function PrepareCommandModeSwitch(hw: Hw, starts: seq<string>, stops: seq<string>): (r: Prepared)
    // only the two claim flags can change
    ensures r.hw == hw.(effort := hw.effort.(claimed := r.hw.effort.claimed),
                        velocity := hw.velocity.(claimed := r.hw.velocity.claimed))
    ensures r.hw.effort.claimed == ModeUpdate(hw, Effort, starts, stops).claimed
    ensures ModeUpdate(hw, Effort, starts, stops).thrown.Some? ==>
      r.thrown == ModeUpdate(hw, Effort, starts, stops).thrown && r.hw.velocity == hw.velocity
    ensures ModeUpdate(hw, Effort, starts, stops).thrown.None? ==>
      r.thrown == ModeUpdate(hw, Velocity, starts, stops).thrown
      && r.hw.velocity.claimed == ModeUpdate(hw, Velocity, starts, stops).claimed
    ensures r.thrown.None? <==>
      && AllOrNothing(CountMatching(stops, Effort)) && AllOrNothing(CountMatching(starts, Effort))
      && AllOrNothing(CountMatching(stops, Velocity)) && AllOrNothing(CountMatching(starts, Velocity))
  {
    var e := ModeUpdate(hw, Effort, starts, stops);
    var hw1 := WithFlags(hw, Effort, hw.effort.(claimed := e.claimed));
    if e.thrown.Some? then
      Prepared(hw1, e.thrown)
    else
      var v := ModeUpdate(hw1, Velocity, starts, stops);
      Prepared(WithFlags(hw1, Velocity, hw1.velocity.(claimed := v.claimed)), v.thrown)
  }

  /** A mode that is claimed but not yet running has to be started. */
  predicate Starting(f: ModeFlags) {
    !f.running && f.claimed
  }

  /** A mode that is running but no longer claimed has to be stopped. */
  predicate Stopping(f: ModeFlags) {
    f.running && !f.claimed
  }

  /** The device calls a mode needs to go from `f.running` to `f.claimed`. */
  function ReconcileEvents(m: Mode, f: ModeFlags): seq<Event> {
    if Starting(f) then
      [StopRobot, match m case Effort => InitializeTorqueInterface case Velocity => InitializeJointVelocityInterface]
    else if Stopping(f) then
      [StopRobot]
    else
      []
  }

  /** One of the two if/else-if blocks of perform_command_mode_switch. */
  function Reconcile(hw: Hw, m: Mode): (r: Step)
    requires Valid(hw)
    ensures Valid(r.hw)
  {
    var f := Flags(hw, m);
    if Starting(f) then
      Step(WithFlags(hw.(commands := Zeros()), m, f.(running := true)), Ok, ReconcileEvents(m, f))
    else if Stopping(f) then
      Step(WithFlags(hw, m, f.(running := false)), Ok, ReconcileEvents(m, f))
    else
      Step(hw, Ok, [])
  }

  /**
   perform_command_mode_switch: each mode's running flag is brought in line with
   its claim, effort first; the commands are zeroed whenever a mode starts.
   */
  function PerformCommandModeSwitch(hw: Hw): (r: Step)
    requires Valid(hw)
    ensures r.ret == Ok && Valid(r.hw)
    ensures r.hw.effort == ModeFlags(hw.effort.claimed, hw.effort.claimed)
    ensures r.hw.velocity == ModeFlags(hw.velocity.claimed, hw.velocity.claimed)
    ensures r.hw == hw.(effort := r.hw.effort, velocity := r.hw.velocity, commands := r.hw.commands)
    ensures r.hw.commands == (if Starting(hw.effort) || Starting(hw.velocity) then Zeros() else hw.commands)
    ensures r.events == ReconcileEvents(Effort, hw.effort) + ReconcileEvents(Velocity, hw.velocity)
  {
    var e := Reconcile(hw, Effort);
    var v := Reconcile(e.hw, Velocity);
    Step(v.hw, Ok, e.events + v.events)
  }

  /** Once the flags agree, a second perform calls nothing and changes nothing. */
  lemma PerformIdempotent(hw: Hw)
    requires Valid(hw)
    ensures var once := PerformCommandModeSwitch(hw);
      PerformCommandModeSwitch(once.hw) == Step(once.hw, Ok, [])
  {
  }

  /** Each mode whose flags disagree costs exactly one stopRobot; agreeing modes cost none. */
  lemma PerformStopCount(hw: Hw)
    requires Valid(hw)
    ensures multiset(PerformCommandModeSwitch(hw).events)[StopRobot]
      == (if hw.effort.running != hw.effort.claimed then 1 else 0)
       + (if hw.velocity.running != hw.velocity.claimed then 1 else 0)
    ensures multiset(PerformCommandModeSwitch(hw).events)[InitializeTorqueInterface]
      == (if Starting(hw.effort) then 1 else 0)
    ensures multiset(PerformCommandModeSwitch(hw).events)[InitializeJointVelocityInterface]
      == (if Starting(hw.velocity) then 1 else 0)
  {
  }

  /**
   The code does not keep both modes from running; it relies on the framework never
   claiming both. Under that assumption perform never leaves both running.
   */
  lemma PerformExclusiveClaims(hw: Hw)
    requires Valid(hw)
    requires !(hw.effort.claimed && hw.velocity.claimed)
    ensures var r := PerformCommandModeSwitch(hw).hw;
      !(r.effort.running && r.velocity.running)
  {
  }

  /** With stop and start both listing all seven effort joints, the start rule wins. */
  lemma StopThenStartClaims(hw: Hw, starts: seq<string>, stops: seq<string>)
    requires CountMatching(stops, Effort) == NumberOfJoints
    requires CountMatching(starts, Effort) == NumberOfJoints
    ensures PrepareCommandModeSwitch(hw, starts, stops).hw.effort.claimed
  {
  }

  /** A bad velocity count still leaves the effort claim updated: nothing is rolled back. */
  lemma VelocityErrorKeepsEffort(hw: Hw, starts: seq<string>, stops: seq<string>)
    requires ModeUpdate(hw, Effort, starts, stops).thrown.None?
    requires !(AllOrNothing(CountMatching(stops, Velocity)) && AllOrNothing(CountMatching(starts, Velocity)))
    ensures var r := PrepareCommandModeSwitch(hw, starts, stops);
      && r.thrown.Some? && r.thrown.value.mode == Velocity
      && r.hw.effort.claimed == (CountMatching(starts, Effort) == NumberOfJoints
                                 || (CountMatching(stops, Effort) == 0 && hw.effort.claimed))
  {
  }

  /** A full stop followed by a partial start throws with the claim already dropped. */
  lemma PartialStartAfterFullStop(hw: Hw, starts: seq<string>, stops: seq<string>)
    requires CountMatching(stops, Effort) == NumberOfJoints
    requires 0 < CountMatching(starts, Effort) < NumberOfJoints
    ensures var r := PrepareCommandModeSwitch(hw, starts, stops);
      r.thrown == Some(InvalidInterfaceCount(Effort, Start, CountMatching(starts, Effort)))
      && !r.hw.effort.claimed
  {
  }
}
