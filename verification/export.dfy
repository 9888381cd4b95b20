/**
 export_state_interfaces and export_command_interfaces: the lists of handles the
 framework reads state from and writes commands through. A handle is modelled by
 the array slot its pointer refers to.
 */
module Export {
  import opened Wrappers
  import opened Hardware
  import opened InterfaceNames
  import Config

  /** The three per-joint state arrays hw_positions_, hw_velocities_, hw_efforts_. */
  datatype StateArray = Positions | Velocities | Efforts

  /** A StateInterface: a joint's (name, interface, &array.at(index)), or one of the two robot-wide entries. */
  datatype StateHandle =
    | JointState(prefix: string, interfaceName: string, target: StateArray, index: nat)
    | RobotStateHandle
    | RobotModelHandle

  /** A CommandInterface: (joint name, interface, &hw_commands_.at(index)). */
  datatype CommandHandle = CommandHandle(prefix: string, interfaceName: string, index: nat)

  /** std::array::at on a joint array throws std::out_of_range past the last joint. */
  datatype ExportError = OutOfRange(index: nat)

  function ArrayOf(kind: nat): StateArray
    requires kind < 3
  {
    if kind == 0 then Positions else if kind == 1 then Velocities else Efforts
  }

  function StateName(a: StateArray): string {
    match a
    case Positions => HwIfPosition
    case Velocities => HwIfVelocity
    case Efforts => HwIfEffort
  }

  /** The three state handles of joint `i`, in the order the loop emplaces them. */
  function JointStateHandles(joints: seq<Config.ComponentInfo>, i: nat): seq<StateHandle>
    requires i < |joints|
  {
    [JointState(joints[i].name, HwIfPosition, Positions, i),
     JointState(joints[i].name, HwIfVelocity, Velocities, i),
     JointState(joints[i].name, HwIfEffort, Efforts, i)]
  }

  function StateHandlesFrom(joints: seq<Config.ComponentInfo>, i: nat): (r: seq<StateHandle>)
    requires i <= |joints|
    ensures |r| == 3 * (|joints| - i)
    ensures forall k :: 0 <= k < |r| ==>
      r[k] == JointState(joints[i + k / 3].name, StateName(ArrayOf(k % 3)), ArrayOf(k % 3), i + k / 3)
    decreases |joints| - i
  {
    if i == |joints| then
      []
    else
      var rest := StateHandlesFrom(joints, i + 1);
      var r := JointStateHandles(joints, i) + rest;
      assert forall k :: 3 <= k < |r| ==> r[k] == rest[k - 3] && (k - 3) / 3 == k / 3 - 1 && (k - 3) % 3 == k % 3;
      r
  }

  /**
   export_state_interfaces: position, velocity and effort of every joint in order,
   each naming and pointing into its own array at the joint's index, then the
   robot-state and robot-model entries.
   */
  function ExportStateInterfaces(joints: seq<Config.ComponentInfo>): (r: Result<seq<StateHandle>, ExportError>)
    ensures r.Failure? <==> |joints| > NumberOfJoints
    ensures r.Success? ==> |r.value| == 3 * |joints| + 2
    ensures r.Success? ==> forall k :: 0 <= k < 3 * |joints| ==>
      && r.value[k].JointState?
      && r.value[k].prefix == joints[k / 3].name
      && r.value[k].index == k / 3
      && r.value[k].interfaceName == StateName(r.value[k].target)
      && r.value[k].target == ArrayOf(k % 3)
    ensures r.Success? ==> r.value[3 * |joints|] == RobotStateHandle
    ensures r.Success? ==> r.value[3 * |joints| + 1] == RobotModelHandle
  {
    if |joints| > NumberOfJoints then
      Failure(OutOfRange(NumberOfJoints))
    else
      Success(StateHandlesFrom(joints, 0) + [RobotStateHandle, RobotModelHandle])
  }

  function CommandHandlesFrom(joints: seq<Config.ComponentInfo>, i: nat): (r: seq<CommandHandle>)
    requires i <= |joints|
    ensures |r| == 2 * (|joints| - i)
    ensures forall k :: 0 <= k < |r| ==>
      r[k] == CommandHandle(joints[i + k / 2].name, if k % 2 == 0 then HwIfEffort else HwIfVelocity, i + k / 2)
    decreases |joints| - i
  {
    if i == |joints| then
      []
    else
      var rest := CommandHandlesFrom(joints, i + 1);
      var r := [CommandHandle(joints[i].name, HwIfEffort, i), CommandHandle(joints[i].name, HwIfVelocity, i)] + rest;
      assert forall k :: 2 <= k < |r| ==> r[k] == rest[k - 2] && (k - 2) / 2 == k / 2 - 1 && (k - 2) % 2 == k % 2;
      r
  }

  /**
   export_command_interfaces: an effort and a velocity handle per joint, both
   pointing at that joint's one command slot.
   */
  function ExportCommandInterfaces(joints: seq<Config.ComponentInfo>): (r: Result<seq<CommandHandle>, ExportError>)
    ensures r.Failure? <==> |joints| > NumberOfJoints
    ensures r.Success? ==> |r.value| == 2 * |joints|
    ensures r.Success? ==> forall k :: 0 <= k < |r.value| ==>
      && r.value[k].prefix == joints[k / 2].name
      && r.value[k].index == k / 2
      && r.value[k].interfaceName == (if k % 2 == 0 then HwIfEffort else HwIfVelocity)
  {
    if |joints| > NumberOfJoints then
      Failure(OutOfRange(NumberOfJoints))
    else
      Success(CommandHandlesFrom(joints, 0))
  }

  /** The effort and the velocity handle of joint `i` alias one command slot, and no other joint's. */
  lemma CommandHandlesAlias(joints: seq<Config.ComponentInfo>, i: nat, k: nat)
    requires |joints| <= NumberOfJoints && i < |joints| && k < 2 * |joints|
    ensures var hs := ExportCommandInterfaces(joints).value;
      && hs[2 * i].interfaceName == HwIfEffort && hs[2 * i + 1].interfaceName == HwIfVelocity
      && hs[2 * i].index == i && hs[2 * i + 1].index == i
      && (hs[k].index == i <==> k == 2 * i || k == 2 * i + 1)
  {
    var hs := ExportCommandInterfaces(joints).value;
    assert hs[2 * i].index == (2 * i) / 2;
    assert hs[2 * i + 1].index == (2 * i + 1) / 2;
    assert hs[k].index == k / 2;
  }

  /** Every exported command handle points into the seven-slot command array. */
  lemma CommandHandlesInRange(joints: seq<Config.ComponentInfo>)
    requires |joints| <= NumberOfJoints
    ensures forall h :: h in ExportCommandInterfaces(joints).value ==> h.index < NumberOfJoints
  {
    var hs := ExportCommandInterfaces(joints).value;
    forall h | h in hs ensures h.index < NumberOfJoints {
      var k :| 0 <= k < |hs| && hs[k] == h;
      assert h.index == k / 2;
    }
  }
}
