# Franka hardware interface: control-mode state machine

A Dafny model of `FrankaHardwareInterface` from `franka_hardware`, the ros2_control
system interface that sits between the motion-control framework and a seven-joint
Franka arm. The model covers:

- the claim recording of `prepare_command_mode_switch` (substring matching of the
  requested interface names, the all-or-nothing counting rule per mode, stop rule
  before start rule, effort before velocity, no rollback when an exception is thrown);
- the reconciliation of `perform_command_mode_switch` (running flag brought in line
  with the claim, commands zeroed when a mode starts, the robot stopped and
  re-initialised);
- the per-tick `write` gate and `read` copy, `on_activate` and `on_deactivate`;
- the validation part of `on_init`;
- `export_state_interfaces` / `export_command_interfaces`, with each handle
  modelled by the array slot its pointer refers to;
- a run of any sequence of these calls, with all device calls appended into one trace.

The robot library is an abstract collaborator: `stopRobot`, `initializeTorqueInterface`,
`initializeJointVelocityInterface`, `writeOnce`, `getModel` and `readOnce` are
recorded as `Event`s; the values `getModel` and `readOnce` return are parameters
(`Option<ModelHandle>`, where `None` is a null pointer, and a `RobotState`).
Doubles are `Double = Finite(real) | NonFinite`, so `std::isfinite` is `.Finite?`.
`kNumberOfJoints` comes from a header that is not part of this model; its uses
fix it at 7 (`Hardware.NumberOfJoints`). The `HW_IF_*` names are the ros2_control
constants `"position"`, `"velocity"`, `"effort"`.

Files: `wrappers.dfy` (Option/Result), `hardware.dfy` (state, events),
`names.dfy` (interface names, substring search, counting), `modeswitch.dfy`
(prepare/perform), `cycle.dfy` (read/write/activate/deactivate), `config.dfy`
(on_init validation), `export.dfy` (interface export), `controller.dfy` (runs of calls).

Behaviour of the code worth knowing, which the model follows:

- A bad count in `prepare_command_mode_switch` throws `std::invalid_argument`, and
  whatever was already updated stays updated: a velocity error keeps the effort
  update, and a partial start after a full stop leaves the claim dropped.
- A mode's interfaces are recognised by substring search, not by an exact name.
- State interface names are only logged during `on_init`, never rejected, and the
  second command interface's name is never checked.
- Nothing in the code keeps both modes from running; that rests on the framework
  never claiming both (`ModeSwitch.PerformExclusiveClaims` states it under that
  assumption).
- Device failures are not caught: `perform_command_mode_switch` always returns OK.
- `on_deactivate` stops the robot but leaves both running flags as they were.

## Model

| member | source | states |
|---|---|---|
| InterfaceNames.Contains | franka_hardware/src/franka_hardware_interface.cpp:218-224 | the `find != npos` test is true exactly when the mode's name occurs somewhere in the interface name |
| InterfaceNames.CountMatching | franka_hardware/src/franka_hardware_interface.cpp:242-245 | `count_if` equals the number of positions in the list whose name belongs to the mode, and never exceeds the list length |
| InterfaceNames.CountZeroIff | franka_hardware/src/franka_hardware_interface.cpp:242-245 | the count is 0 exactly when no requested name belongs to the mode |
| InterfaceNames.CountAllIff | franka_hardware/src/franka_hardware_interface.cpp:242-245 | the count equals the list length exactly when every requested name belongs to the mode |
| ModeSwitch.UpdateClaim | franka_hardware/src/franka_hardware_interface.cpp:239-257 | no exception iff both counts are 0 or 7; then the claim is true iff start is 7 or (stop is 0 and it was claimed); a bad stop count throws with the claim untouched; a bad start count throws after a full stop already dropped the claim |
| ModeSwitch.PrepareCommandModeSwitch | franka_hardware/src/franka_hardware_interface.cpp:215-265 | only the claim flags change; effort is updated first and an effort exception leaves velocity untouched; otherwise velocity's rule decides the exception; returns normally iff all four counts are 0 or 7 |
| ModeSwitch.StopThenStartClaims | franka_hardware/src/franka_hardware_interface.cpp:247-256 | stopping and starting all seven effort interfaces in one request ends with effort claimed |
| ModeSwitch.VelocityErrorKeepsEffort | franka_hardware/src/franka_hardware_interface.cpp:259-262 | a velocity start or stop count error throws but the effort claim keeps its update: nothing is rolled back |
| ModeSwitch.PartialStartAfterFullStop | franka_hardware/src/franka_hardware_interface.cpp:247-256 | a full stop with a partial start throws the start error and leaves the claim false |
| ModeSwitch.PerformCommandModeSwitch | franka_hardware/src/franka_hardware_interface.cpp:190-213 | always OK; afterwards running equals claimed for both modes, claims and state arrays untouched; commands zeroed iff some mode starts; effort's device calls precede velocity's, a starting mode issues stopRobot then its initialise call, a stopping mode one stopRobot, an agreeing mode none |
| ModeSwitch.PerformIdempotent | franka_hardware/src/franka_hardware_interface.cpp:193-211 | a second perform right after the first makes no device call and changes nothing |
| ModeSwitch.PerformStopCount | franka_hardware/src/franka_hardware_interface.cpp:193-211 | the number of stopRobot calls equals the number of modes whose flags disagree; each initialise call happens once iff that mode starts |
| ModeSwitch.PerformExclusiveClaims | franka_hardware/src/franka_hardware_interface.cpp:193-211 | if the framework never claims both modes, perform never leaves both running |
| Cycle.AnyNonFinite | franka_hardware/src/franka_hardware_interface.cpp:105-106 | the `any_of(!isfinite)` test is true exactly when not every command is finite |
| Cycle.Write | franka_hardware/src/franka_hardware_interface.cpp:103-114 | ERROR iff some command is non-finite, and then no device call; otherwise OK, with exactly one writeOnce of the commands iff some mode is running and no call otherwise; the state is never changed and every command sent is finite |
| Cycle.Read | franka_hardware/src/franka_hardware_interface.cpp:89-101 | always OK; getModel is called iff the handle is null, and the handle becomes its answer; then one readOnce; positions, velocities and efforts become the snapshot's q, dq and tau_J; flags and commands untouched |
| Cycle.GetModelAtMostOnce | franka_hardware/src/franka_hardware_interface.cpp:91-93 | over any number of reads whose getModel answers are non-null, getModel is called at most once, and never if the handle was already set |
| Cycle.OnActivate | franka_hardware/src/franka_hardware_interface.cpp:72-79 | returns success with all commands zero, then exactly one read: getModel only while the handle is null (the handle takes its answer), then one readOnce; the snapshot is cached and copied into the state arrays; the flags are untouched |
| Cycle.OnDeactivate | franka_hardware/src/franka_hardware_interface.cpp:81-87 | returns success after exactly one stopRobot, leaving the state, running flags included, unchanged |
| Config.JointError | franka_hardware/src/franka_hardware_interface.cpp:126-159 | a joint is rejected iff it lacks exactly two command interfaces, its first is neither effort nor velocity, or it lacks exactly three state interfaces |
| Config.FirstJointError | franka_hardware/src/franka_hardware_interface.cpp:126-160 | the joint loop passes iff every joint is acceptable; an error reported belongs to the first unacceptable joint |
| Config.ValidateInit | franka_hardware/src/franka_hardware_interface.cpp:116-168 | validation succeeds iff the base init succeeded, there are 7 joints, every joint is acceptable and a robot was injected or `robot_ip` is set; on success it uses the injected robot or connects to `robot_ip`; a joint error names the first bad joint |
| Config.ValidateIgnoresUncheckedNames | franka_hardware/src/franka_hardware_interface.cpp:145-159 | changing state interface names or the second command interface's name never changes the validation outcome |
| Export.ExportStateInterfaces | franka_hardware/src/franka_hardware_interface.cpp:38-58 | fails iff there are more joints than array slots; otherwise 3n+2 handles: entry k is joint k/3's position, velocity or effort (by k mod 3), named after and pointing into that array at index k/3, then the robot-state and robot-model entries |
| Export.ExportCommandInterfaces | franka_hardware/src/franka_hardware_interface.cpp:60-70 | fails iff there are more joints than command slots; otherwise 2n handles: entry k is joint k/2's effort (k even) or velocity (k odd) handle on command slot k/2 |
| Export.CommandHandlesAlias | franka_hardware/src/franka_hardware_interface.cpp:63-68 | joint i's effort and velocity handles both point at command slot i, and no other handle does |
| Export.CommandHandlesInRange | franka_hardware/src/franka_hardware_interface.cpp:63-68 | every exported command handle points inside the seven-slot command array |
| Controller.RunInitsAfterStop | franka_hardware/src/franka_hardware_interface.cpp:193-211 | over any sequence of calls, every torque or velocity initialise call comes directly after a stopRobot |
| Controller.RunWritesFinite | franka_hardware/src/franka_hardware_interface.cpp:103-114 | over any sequence of calls, every writeOnce carries seven finite commands |
| Controller.StartEffortScenario | franka_hardware/src/franka_hardware_interface.cpp:190-265 | from a fresh interface, starting all seven effort interfaces and performing the switch runs effort with zeroed commands after exactly stopRobot, initializeTorqueInterface |
| Controller.PartialStopScenario | franka_hardware/src/franka_hardware_interface.cpp:247-251 | a stop request naming some but not all effort joints throws the stop error and changes nothing |

## Left out

- Connecting to the robot (constructing `Robot` from `robot_ip`, and the connection failure path): `Config.ValidateInit` ends by saying whether the injected robot is used or which address would be connected to.
- The parameter service node and executor created at the end of `on_init`, logging and `getLogger`, and the pluginlib export: framework wiring with no behaviour of its own.
- `SystemInterface::on_init` is a call into the framework; its outcome is the `baseInitOk` parameter.
- The `reinterpret_cast` of the robot-state and model addresses into `double*`: the two robot-wide state handles are tagged entries.
- IEEE doubles: a value is only finite (with a real value) or not.
- Exceptions thrown by the robot library during `perform_command_mode_switch`, `read` or `write`: device calls are events that always succeed.
- The initial values of the member arrays and flags, which live in a header that is not part of this model; `Hardware.Initial` assumes zeros, false and a null model handle.
- Timestamps and periods passed to `read` and `write`: the code ignores them.
- The order of the command zeroing and flag update relative to the device calls inside one branch of `perform_command_mode_switch`: the device calls do not read the commands, so the model records only the calls' order and the final state.
