/**
 Interface names and the substring matching prepare_command_mode_switch uses to
 recognise a requested interface as belonging to a mode.
 */
module InterfaceNames {
  import opened Hardware

  /** hardware_interface::HW_IF_POSITION, HW_IF_VELOCITY and HW_IF_EFFORT. */
  const HwIfPosition: string := "position"
  const HwIfVelocity: string := "velocity"
  const HwIfEffort: string := "effort"

  /** The name whose occurrence marks an interface as belonging to mode `m`. */
  function ModeInterfaceName(m: Mode): string {
    match m
    case Effort => HwIfEffort
    case Velocity => HwIfVelocity
  }

  /** `sub` occurs in `s` starting at position `i`. */
  ghost predicate OccursAt(s: string, sub: string, i: int) {
    0 <= i && i + |sub| <= |s| && s[i..i + |sub|] == sub
  }

  ghost predicate HasSubstring(s: string, sub: string) {
    exists i :: OccursAt(s, sub, i)
  }

  /** Dropping a first character that does not start a match keeps the set of matches. */
  lemma ShiftSubstring(s: string, sub: string)
    requires |s| >= |sub| && s[..|sub|] != sub
    ensures HasSubstring(s, sub) <==> HasSubstring(s[1..], sub)
  {
    if HasSubstring(s, sub) {
      var i :| OccursAt(s, sub, i);
      assert i != 0;
      assert s[1..][i - 1..i - 1 + |sub|] == s[i..i + |sub|];
      assert OccursAt(s[1..], sub, i - 1);
    }
    if HasSubstring(s[1..], sub) {
      var i :| OccursAt(s[1..], sub, i);
      assert s[1..][i..i + |sub|] == s[i + 1..i + 1 + |sub|];
      assert OccursAt(s, sub, i + 1);
    }
  }

  /** `s.find(sub) != std::string::npos`. */
  function Contains(s: string, sub: string): (b: bool)
    ensures b <==> HasSubstring(s, sub)
    decreases |s|
  {
    if |s| < |sub| then
      false
    else if s[..|sub|] == sub then
      assert OccursAt(s, sub, 0);
      true
    else
      ShiftSubstring(s, sub);
      Contains(s[1..], sub)
  }

  /** The is_effort_interface / is_velocity_interface lambdas. */
  predicate IsModeInterface(name: string, m: Mode) {
    Contains(name, ModeInterfaceName(m))
  }

  /** Positions of the names that belong to mode `m`. */
  ghost function MatchingIndices(names: seq<string>, m: Mode): set<nat> {
    set i: nat | i < |names| && IsModeInterface(names[i], m)
  }

  lemma MatchingIndicesSnoc(names: seq<string>, m: Mode)
    requires |names| > 0
    ensures var k := |names| - 1;
      MatchingIndices(names, m)
      == MatchingIndices(names[..k], m) + (if IsModeInterface(names[k], m) then {k} else {})
  {
    var k := |names| - 1;
    forall i: nat | i < k ensures names[..k][i] == names[i] { }
  }

  /** std::count_if over the requested names with the mode's predicate. */
  function CountMatching(names: seq<string>, m: Mode): (n: nat)
    ensures n == |MatchingIndices(names, m)|
    ensures n <= |names|
    decreases |names|
  {
    if |names| == 0 then
      assert MatchingIndices(names, m) == {};
      0
    else
      var k := |names| - 1;
      MatchingIndicesSnoc(names, m);
      assert k !in MatchingIndices(names[..k], m);
      CountMatching(names[..k], m) + (if IsModeInterface(names[k], m) then 1 else 0)
  }

  /** No name of mode `m` is requested exactly when the count is zero. */
  lemma {:induction false} CountZeroIff(names: seq<string>, m: Mode)
    ensures CountMatching(names, m) == 0
        <==> forall i :: 0 <= i < |names| ==> !IsModeInterface(names[i], m)
  {
    if |names| > 0 {
      var k := |names| - 1;
      CountZeroIff(names[..k], m);
      assert forall i :: 0 <= i < k ==> names[..k][i] == names[i];
    }
  }

  /** Every name requested belongs to mode `m` exactly when the count is the list length. */
  lemma {:induction false} CountAllIff(names: seq<string>, m: Mode)
    ensures CountMatching(names, m) == |names|
        <==> forall i :: 0 <= i < |names| ==> IsModeInterface(names[i], m)
  {
    if |names| > 0 {
      var k := |names| - 1;
      CountAllIff(names[..k], m);
      assert forall i :: 0 <= i < k ==> names[..k][i] == names[i];
      assert CountMatching(names[..k], m) <= k;
    }
  }
}
