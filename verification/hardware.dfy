/**
 The state of the Franka hardware interface: the claim/running flags of the two
 command modes, the seven shared joint commands, the joint state arrays filled
 from the robot, the cached robot-state snapshot and the lazily fetched model
 handle. The robot library itself is an abstract collaborator: every call into it
 is recorded as an `Event` in the trace an operation returns.
 */
module Hardware {
  import opened Wrappers

  /** kNumberOfJoints: the arm has seven joints. */
  const NumberOfJoints: nat := 7

  /** An IEEE double, abstracted to "some finite real" or "NaN or an infinity". */
  datatype Double = Finite(value: real) | NonFinite

  const Zero: Double := Finite(0.0)

  /** The two command modes the interface can switch between. */
  datatype Mode = Effort | Velocity

  /** The bookkeeping for one mode: claimed by the framework, running on the device. */
  datatype ModeFlags = ModeFlags(claimed: bool, running: bool)

  /** Identity of the model object handed out by the robot library. */
  type ModelHandle = nat

  /** One franka::RobotState as read by readOnce: measured positions, velocities and torques. */
  datatype RobotState = RobotState(q: seq<Double>, dq: seq<Double>, tauJ: seq<Double>)

  predicate ValidRobotState(s: RobotState) {
    |s.q| == NumberOfJoints && |s.dq| == NumberOfJoints && |s.tauJ| == NumberOfJoints
  }

  /** The member variables of FrankaHardwareInterface that the control path touches. */
  datatype Hw = Hw(
    effort: ModeFlags,
    velocity: ModeFlags,
    commands: seq<Double>,
    positions: seq<Double>,
    velocities: seq<Double>,
    efforts: seq<Double>,
    robotState: Option<RobotState>,
    model: Option<ModelHandle>)

  /** The joint arrays are fixed-size arrays of seven doubles. */
  predicate Valid(hw: Hw) {
    && |hw.commands| == NumberOfJoints
    && |hw.positions| == NumberOfJoints
    && |hw.velocities| == NumberOfJoints
    && |hw.efforts| == NumberOfJoints
  }

  function Flags(hw: Hw, m: Mode): ModeFlags {
    match m
    case Effort => hw.effort
    case Velocity => hw.velocity
  }

  function WithFlags(hw: Hw, m: Mode, f: ModeFlags): (r: Hw)
    ensures Flags(r, m) == f
    ensures r.effort == (if m == Effort then f else hw.effort)
    ensures r.velocity == (if m == Velocity then f else hw.velocity)
    ensures r.commands == hw.commands && r.positions == hw.positions
    ensures r.velocities == hw.velocities && r.efforts == hw.efforts
    ensures r.robotState == hw.robotState && r.model == hw.model
  {
    match m
    case Effort => hw.(effort := f)
    case Velocity => hw.(velocity := f)
  }

  /** The result of hw_commands_.fill(0). */
  function Zeros(): (r: seq<Double>)
    ensures |r| == NumberOfJoints
    ensures forall i :: 0 <= i < |r| ==> r[i] == Zero
  {
    seq(NumberOfJoints, _ => Zero)
  }

  predicate AllFinite(s: seq<Double>) {
    forall i :: 0 <= i < |s| ==> s[i].Finite?
  }

  /** A freshly constructed interface: nothing claimed or running, commands zero, no model yet. */
  function Initial(): (r: Hw)
    ensures Valid(r)
    ensures !r.effort.claimed && !r.effort.running
    ensures !r.velocity.claimed && !r.velocity.running
    ensures r.model.None?
  {
    Hw(ModeFlags(false, false), ModeFlags(false, false),
       Zeros(), Zeros(), Zeros(), Zeros(), None, None)
  }

  /** A call into the robot library, in the order it was made. */
  datatype Event =
    | StopRobot
    | InitializeTorqueInterface
    | InitializeJointVelocityInterface
    | WriteOnce(sent: seq<Double>)
    | GetModel
    | ReadOnce

  /** hardware_interface::return_type, and CallbackReturn SUCCESS/ERROR. */
  datatype ReturnType = Ok | Error

  /** The outcome of one operation: new state, return value, device calls made. */
  datatype Step = Step(hw: Hw, ret: ReturnType, events: seq<Event>)
}
