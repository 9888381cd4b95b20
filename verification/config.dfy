/**
 The validation part of on_init: the hardware description handed in by the
 framework must list seven joints, each with two command interfaces (the first
 one effort or velocity) and three state interfaces, and the robot address must be
 configured unless a robot object was injected.
 */
module Config {
  import opened Wrappers
  import opened Hardware
  import opened InterfaceNames

  datatype InterfaceInfo = InterfaceInfo(name: string)

  datatype ComponentInfo = ComponentInfo(
    name: string,
    commandInterfaces: seq<InterfaceInfo>,
    stateInterfaces: seq<InterfaceInfo>)

  datatype HardwareInfo = HardwareInfo(
    joints: seq<ComponentInfo>,
    hardwareParameters: map<string, string>)

  const RobotIpParameter: string := "robot_ip"

  /** Why on_init returned CallbackReturn::ERROR. */
  datatype ConfigError =
    | BaseInitFailed
    | WrongJointCount(count: nat)
    | WrongCommandInterfaceCount(joint: nat, count: nat)
    | UnexpectedCommandInterface(joint: nat, interfaceName: string)
    | WrongStateInterfaceCount(joint: nat, count: nat)
    | MissingRobotIp

  /** What on_init goes on to do after validation succeeded. */
  datatype RobotSource = UseInjected | ConnectTo(address: string)

  /** The three per-joint checks that can fail; state interface names are only logged. */
  ghost predicate JointAcceptable(j: ComponentInfo) {
    && |j.commandInterfaces| == 2
    && j.commandInterfaces[0].name in {HwIfEffort, HwIfVelocity}
    && |j.stateInterfaces| == 3
  }

  /** The error of joint `idx`, checked in source order, or None. */
  function JointError(j: ComponentInfo, idx: nat): (r: Option<ConfigError>)
    ensures r.None? <==> JointAcceptable(j)
    ensures r.Some? ==> IsJointError(r.value) && r.value.joint == idx
  {
    if |j.commandInterfaces| != 2 then
      Some(WrongCommandInterfaceCount(idx, |j.commandInterfaces|))
    else if j.commandInterfaces[0].name != HwIfEffort && j.commandInterfaces[0].name != HwIfVelocity then
      Some(UnexpectedCommandInterface(idx, j.commandInterfaces[0].name))
    else if |j.stateInterfaces| != 3 then
      Some(WrongStateInterfaceCount(idx, |j.stateInterfaces|))
    else
      None
  }

  /** The errors that name the joint they were found on. */
  predicate IsJointError(e: ConfigError) {
    e.WrongCommandInterfaceCount? || e.UnexpectedCommandInterface? || e.WrongStateInterfaceCount?
  }

  /** `e` is the error of the first unacceptable joint at or after `from`. */
  ghost predicate FirstFailing(joints: seq<ComponentInfo>, from: nat, e: ConfigError) {
    && IsJointError(e)
    && from <= e.joint < |joints|
    && JointError(joints[e.joint], e.joint) == Some(e)
    && forall p :: from <= p < e.joint ==> JointAcceptable(joints[p])
  }

  /** The loop over info_.joints from index `from` on: the first failing joint's error. */
  function FirstJointError(joints: seq<ComponentInfo>, from: nat): (r: Option<ConfigError>)
    requires from <= |joints|
    ensures r.None? <==> forall k :: from <= k < |joints| ==> JointAcceptable(joints[k])
    ensures r.Some? ==> FirstFailing(joints, from, r.value)
    decreases |joints| - from
  {
    if from == |joints| then
      None
    else
      var e := JointError(joints[from], from);
      if e.Some? then e else FirstJointError(joints, from + 1)
  }

  /**
   on_init up to the connection attempt. `baseInitOk` is the outcome of
   SystemInterface::on_init, `robotInjected` whether a robot was passed to the
   constructor.
   */
  function ValidateInit(baseInitOk: bool, info: HardwareInfo, robotInjected: bool): (r: Result<RobotSource, ConfigError>)
    ensures r.Success? <==>
      && baseInitOk
      && |info.joints| == NumberOfJoints
      && (forall k :: 0 <= k < |info.joints| ==> JointAcceptable(info.joints[k]))
      && (robotInjected || RobotIpParameter in info.hardwareParameters)
    ensures r.Success? ==>
      r.value == (if robotInjected then UseInjected
                  else ConnectTo(info.hardwareParameters[RobotIpParameter]))
    ensures r == Failure(MissingRobotIp) ==> !robotInjected
    ensures r.Failure? && IsJointError(r.error) ==> FirstFailing(info.joints, 0, r.error)
    ensures baseInitOk && |info.joints| != NumberOfJoints ==> r == Failure(WrongJointCount(|info.joints|))
  {
    if !baseInitOk then
      Failure(BaseInitFailed)
    else if |info.joints| != NumberOfJoints then
      Failure(WrongJointCount(|info.joints|))
    else
      var jointError := FirstJointError(info.joints, 0);
      if jointError.Some? then
        Failure(jointError.value)
      else if robotInjected then
        Success(UseInjected)
      else if RobotIpParameter !in info.hardwareParameters then
        Failure(MissingRobotIp)
      else
        Success(ConnectTo(info.hardwareParameters[RobotIpParameter]))
  }

  /**
   Two joint descriptions the validation cannot tell apart: they differ at most in
   the joint name, the names of the state interfaces and the name of the second
   command interface.
   */
  ghost predicate SameChecked(a: ComponentInfo, b: ComponentInfo) {
    && |a.commandInterfaces| == |b.commandInterfaces|
    && |a.stateInterfaces| == |b.stateInterfaces|
    && (|a.commandInterfaces| > 0 ==> a.commandInterfaces[0] == b.commandInterfaces[0])
  }

  lemma JointErrorIgnoresNames(a: ComponentInfo, b: ComponentInfo, idx: nat)
    requires SameChecked(a, b)
    ensures JointError(a, idx) == JointError(b, idx)
  {
  }

  lemma {:induction false} FirstJointErrorIgnoresNames(a: seq<ComponentInfo>, b: seq<ComponentInfo>, from: nat)
    requires |a| == |b| && from <= |a|
    requires forall k :: 0 <= k < |a| ==> SameChecked(a[k], b[k])
    ensures FirstJointError(a, from) == FirstJointError(b, from)
    decreases |a| - from
  {
    if from < |a| {
      FirstJointErrorIgnoresNames(a, b, from + 1);
      JointErrorIgnoresNames(a[from], b[from], from);
    }
  }

  /**
   Wrong state interface names, and any name for the second command interface,
   never change the outcome of validation.
   */
  lemma ValidateIgnoresUncheckedNames(baseInitOk: bool, a: HardwareInfo, b: HardwareInfo, robotInjected: bool)
    requires |a.joints| == |b.joints| && a.hardwareParameters == b.hardwareParameters
    requires forall k :: 0 <= k < |a.joints| ==> SameChecked(a.joints[k], b.joints[k])
    ensures ValidateInit(baseInitOk, a, robotInjected) == ValidateInit(baseInitOk, b, robotInjected)
  {
    FirstJointErrorIgnoresNames(a.joints, b.joints, 0);
  }
}
