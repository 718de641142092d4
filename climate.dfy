/**
 * The climate-control screens of check.cpp, without their threads and locks:
 * a temperature screen with a bounded history, a fan-speed screen, a mode
 * screen with a bounded history of mode names, the manager's list of
 * controls, and the rule the temperature updater applies on every tick.
 */
module Climate {

  /** The global `fanLimit`: the highest fan level the fan screen accepts. */
  const FanLimit: int := 5
  /** The temperature setter accepts exactly the values in [MinTemperature, MaxTemperature]. */
  const MinTemperature: int := 15
  const MaxTemperature: int := 30
  /** The value the updater falls back to once the temperature has reached the maximum. */
  const ResetTemperature: int := 18
  const TemperatureHistoryCapacity: nat := 10
  const ModeHistoryCapacity: nat := 5

  function Min(a: int, b: int): int
  {
    if a < b then a else b
  }

  /** The last `n` elements of `s`, or all of `s` when it is shorter. */
  function LastN<T>(s: seq<T>, n: nat): seq<T>
  {
    if |s| <= n then s else s[|s| - n..]
  }

  /**
   * `push_back(x)` on a deque or list followed by one `pop_front()` when its
   * size then exceeds `cap`, as both history buffers do.
   */
  function PushBounded<T>(h: seq<T>, x: T, cap: nat): seq<T>
  {
    var s := h + [x];
    if |s| > cap then s[1..] else s
  }

  /**
   * A buffer that holds the last `cap` values of a log still holds the last
   * `cap` values once one more value is pushed: the buffer is a FIFO window
   * of capacity `cap` that evicts the oldest entry first.
   */
  lemma PushBoundedKeepsLastN<T>(log: seq<T>, x: T, cap: nat)
    ensures PushBounded(LastN(log, cap), x, cap) == LastN(log + [x], cap)
  {
  }

  /** The window never holds more than `cap` values, and its newest value is the last one logged. */
  lemma LastNBounds<T>(log: seq<T>, cap: nat)
    ensures |LastN(log, cap)| == Min(cap, |log|)
    ensures cap > 0 && log != [] ==> LastN(log, cap)[|LastN(log, cap)| - 1] == log[|log| - 1]
  {
  }

  // ---------------------------------------------------------------- temperature

  predicate TemperatureAccepted(t: int)
  {
    MinTemperature <= t <= MaxTemperature
  }

  /**
   * TemperatureControlScreen. `accepted` is the log of every value the screen
   * has stored, the constructor's seed first; the deque `history` is always
   * the last ten entries of that log.
   */
  class TemperatureControl {
    var temperature: int
    var history: seq<int>
    ghost var accepted: seq<int>

    ghost predicate Valid()
      reads this
    {
      && accepted != []
      && temperature == accepted[|accepted| - 1]
      && history == LastN(accepted, TemperatureHistoryCapacity)
      // only the seed escapes validation
      && (forall i :: 0 < i < |accepted| ==> TemperatureAccepted(accepted[i]))
    }

    /** The initial temperature (20 by default) is stored and logged without validation. */
    constructor(initialTemperature: int := 20)
      ensures Valid()
      ensures temperature == initialTemperature
      ensures history == [initialTemperature] && accepted == [initialTemperature]
    {
      temperature := initialTemperature;
      history := [initialTemperature];
      accepted := [initialTemperature];
    }

    /**
     * Stores `t` and appends it to the history, evicting the oldest entry
     * beyond ten, when 15 <= t <= 30; otherwise changes nothing.
     */
    method SetTemperature(t: int)
      requires Valid()
      modifies this
      ensures Valid()
      ensures TemperatureAccepted(t) ==>
        && temperature == t
        && accepted == old(accepted) + [t]
        && history == PushBounded(old(history), t, TemperatureHistoryCapacity)
      ensures !TemperatureAccepted(t) ==>
        temperature == old(temperature) && history == old(history) && accepted == old(accepted)
      ensures |history| <= TemperatureHistoryCapacity && history[|history| - 1] == temperature
    {
      if MinTemperature <= t <= MaxTemperature {
        PushBoundedKeepsLastN(accepted, t, TemperatureHistoryCapacity);
        temperature := t;
        history := history + [t];
        if |history| > TemperatureHistoryCapacity {
          history := history[1..];
        }
        accepted := accepted + [t];
      }
      LastNBounds(accepted, TemperatureHistoryCapacity);
    }

    method GetTemperature() returns (t: int)
      ensures t == temperature
    {
      t := temperature;
    }

    /**
     * One iteration of the temperature updater thread: read the temperature
     * and request the tick target through the validating setter.
     */
    method Tick()
      requires Valid()
      modifies this
      ensures Valid()
      ensures temperature == Ticked(old(temperature))
      ensures TemperatureAccepted(TickTarget(old(temperature))) ==>
        history == PushBounded(old(history), temperature, TemperatureHistoryCapacity)
      ensures !TemperatureAccepted(TickTarget(old(temperature))) ==> history == old(history)
    {
      var current := GetTemperature();
      SetTemperature(TickTarget(current));
    }
  }

  /**
   * The temperature the updater requests: one degree more below 30, 18 once
   * 30 is reached. It always asks for a change, and from an accepted
   * temperature it always asks for an accepted one.
   */
  function TickTarget(current: int): (next: int)
    ensures next != current
    ensures TemperatureAccepted(current) ==> TemperatureAccepted(next)
  {
    if current < MaxTemperature then current + 1 else ResetTemperature
  }

  /**
   * The temperature after one tick, with the setter's validation applied to
   * the requested value. The tick changes the temperature exactly when it
   * starts at 14 or above; from there it always lands in [15, 30]. Below 14
   * the request is rejected and the temperature stays where it is.
   */
  function Ticked(current: int): (next: int)
    ensures next != current <==> current >= MinTemperature - 1
    ensures current >= MinTemperature - 1 ==> TemperatureAccepted(next)
  {
    if TemperatureAccepted(TickTarget(current)) then TickTarget(current) else current
  }

  /** The temperature after `n` ticks. */
  function Ticks(current: int, n: nat): int
    decreases n
  {
    if n == 0 then current else Ticks(Ticked(current), n - 1)
  }

  /** Once accepted, a temperature stays accepted however many ticks follow. */
  lemma {:induction false} TicksStayAccepted(current: int, n: nat)
    requires TemperatureAccepted(current)
    ensures TemperatureAccepted(Ticks(current, n))
    decreases n
  {
    if n > 0 {
      TicksStayAccepted(Ticked(current), n - 1);
    }
  }

  lemma {:induction false} TicksCompose(current: int, a: nat, b: nat)
    ensures Ticks(current, a + b) == Ticks(Ticks(current, a), b)
    decreases a
  {
    if a > 0 {
      TicksCompose(Ticked(current), a - 1, b);
    }
  }

  /** Below the maximum the temperature climbs one degree per tick. */
  lemma {:induction false} TicksClimb(current: int, k: nat)
    requires MinTemperature - 1 <= current && current + k <= MaxTemperature
    ensures Ticks(current, k) == current + k
    decreases k
  {
    if k > 0 {
      TicksClimb(current + 1, k - 1);
    }
  }

  /**
   * On [18, 30] the updater cycles: 18, 19, ..., 30 and back to 18, so every
   * temperature there comes back after exactly 13 ticks.
   */
  lemma TicksCycle(current: int)
    requires ResetTemperature <= current <= MaxTemperature
    ensures Ticks(current, MaxTemperature - ResetTemperature + 1) == current
  {
    var up := MaxTemperature - current;
    var rest := current - ResetTemperature;
    TicksCompose(current, up, 1 + rest);
    TicksClimb(current, up);
    TicksCompose(MaxTemperature, 1, rest);
    assert Ticks(MaxTemperature, 1) == ResetTemperature;
    TicksClimb(ResetTemperature, rest);
  }

  // ---------------------------------------------------------------- fan speed

  predicate FanLevelAccepted(level: int)
  {
    0 <= level <= FanLimit
  }

  /** FanSpeedControlScreen. */
  class FanSpeedControl {
    var level: int

    /** The initial level (1 by default) is stored without validation. */
    constructor(initialLevel: int := 1)
      ensures level == initialLevel
    {
      level := initialLevel;
    }

    /** Stores `l` exactly when 0 <= l <= fanLimit; any other level changes nothing. */
    method SetFanLevel(l: int)
      modifies this
      ensures FanLevelAccepted(l) ==> level == l
      ensures !FanLevelAccepted(l) ==> level == old(level)
      ensures old(FanLevelAccepted(level)) ==> FanLevelAccepted(level)
    {
      if 0 <= l <= FanLimit {
        level := l;
      }
    }

    method GetFanLevel() returns (l: int)
      ensures l == level
    {
      l := level;
    }
  }

  // ---------------------------------------------------------------- mode

  datatype Mode = AC | Heater | Auto

  /** The display name of a mode; the three modes have three distinct names. */
  function ModeToString(m: Mode): (s: string)
    ensures s == "AC" <==> m == AC
    ensures s == "Heater" <==> m == Heater
    ensures s == "Auto" <==> m == Auto
  {
    match m
    case AC => "AC"
    case Heater => "Heater"
    case Auto => "Auto"
  }

  function ModeNames(modes: seq<Mode>): seq<string>
  {
    seq(|modes|, i requires 0 <= i < |modes| => ModeToString(modes[i]))
  }

  /**
   * ModeControlScreen. `modes` is the log of every mode set, the
   * constructor's first; the list `history` holds the names of the last five.
   */
  class ModeControl {
    var mode: Mode
    var history: seq<string>
    ghost var modes: seq<Mode>

    ghost predicate Valid()
      reads this
    {
      && modes != []
      && mode == modes[|modes| - 1]
      && history == LastN(ModeNames(modes), ModeHistoryCapacity)
    }

    constructor(initialMode: Mode := AC)
      ensures Valid()
      ensures mode == initialMode && modes == [initialMode]
      ensures history == [ModeToString(initialMode)]
    {
      mode := initialMode;
      history := [ModeToString(initialMode)];
      modes := [initialMode];
    }

    /** Always stores `m` and appends its name, keeping the newest five names. */
    method SetMode(m: Mode)
      requires Valid()
      modifies this
      ensures Valid()
      ensures mode == m && modes == old(modes) + [m]
      ensures history == PushBounded(old(history), ModeToString(m), ModeHistoryCapacity)
      ensures |history| <= ModeHistoryCapacity && history[|history| - 1] == ModeToString(m)
    {
      assert ModeNames(modes + [m]) == ModeNames(modes) + [ModeToString(m)];
      PushBoundedKeepsLastN(ModeNames(modes), ModeToString(m), ModeHistoryCapacity);
      mode := m;
      history := history + [ModeToString(m)];
      if |history| > ModeHistoryCapacity {
        history := history[1..];
      }
      modes := modes + [m];
      LastNBounds(ModeNames(modes), ModeHistoryCapacity);
    }

    method GetMode() returns (m: Mode)
      ensures m == mode
    {
      m := mode;
    }
  }

  // ---------------------------------------------------------------- manager

  /** A shared pointer to one of the three screens the manager holds. */
  datatype Control =
    | TemperatureScreen(temperature: TemperatureControl)
    | FanSpeedScreen(fan: FanSpeedControl)
    | ModeScreen(modeControl: ModeControl)

  /** `getName()`: the class name of the screen; the three screens have three distinct names. */
  function ControlName(c: Control): (name: string)
    ensures name == "TemperatureControlScreen" <==> c.TemperatureScreen?
    ensures name == "FanSpeedControlScreen" <==> c.FanSpeedScreen?
    ensures name == "ModeControlScreen" <==> c.ModeScreen?
  {
    match c
    case TemperatureScreen(_) => "TemperatureControlScreen"
    case FanSpeedScreen(_) => "FanSpeedControlScreen"
    case ModeScreen(_) => "ModeControlScreen"
  }

  /**
   * The erase/remove_if idiom: the controls whose name is not `name`. No
   * control named `name` survives, and every other control keeps exactly as
   * many occurrences as it had.
   */
  function RemoveNamed(controls: seq<Control>, name: string): (r: seq<Control>)
    ensures |r| <= |controls|
    ensures forall i :: 0 <= i < |r| ==> r[i] in controls && ControlName(r[i]) != name
    ensures forall c :: c in controls && ControlName(c) != name ==> multiset(r)[c] == multiset(controls)[c]
  {
    if controls == [] then []
    else
      var rest := RemoveNamed(controls[1..], name);
      assert controls == [controls[0]] + controls[1..];
      if ControlName(controls[0]) == name then rest else [controls[0]] + rest
  }

  /** `a` is `b` with some elements left out, the others in their original order. */
  predicate IsSubsequence<T(==)>(a: seq<T>, b: seq<T>)
    decreases |b|
  {
    || a == []
    || (b != [] && (IsSubsequence(a, b[1..]) || (a[0] == b[0] && IsSubsequence(a[1..], b[1..]))))
  }

  /** Removal keeps the surviving controls in their original relative order. */
  lemma {:induction false} RemoveNamedKeepsOrder(controls: seq<Control>, name: string)
    ensures IsSubsequence(RemoveNamed(controls, name), controls)
  {
    if controls != [] {
      RemoveNamedKeepsOrder(controls[1..], name);
      var rest := RemoveNamed(controls[1..], name);
      if ControlName(controls[0]) != name {
        assert ([controls[0]] + rest)[1..] == rest;
      }
    }
  }

  /** Removing a name no control carries changes nothing. */
  lemma {:induction false} RemoveAbsentName(controls: seq<Control>, name: string)
    requires forall i :: 0 <= i < |controls| ==> ControlName(controls[i]) != name
    ensures RemoveNamed(controls, name) == controls
  {
    if controls != [] {
      RemoveAbsentName(controls[1..], name);
      assert controls == [controls[0]] + controls[1..];
    }
  }

  /** Removing the same name twice is the same as removing it once. */
  lemma RemoveNamedIdempotent(controls: seq<Control>, name: string)
    ensures RemoveNamed(RemoveNamed(controls, name), name) == RemoveNamed(controls, name)
  {
    RemoveAbsentName(RemoveNamed(controls, name), name);
  }

  /** ClimateControlManager: the list of controls in insertion order. */
  class ClimateControlManager {
    var controls: seq<Control>

    constructor()
      ensures controls == []
    {
      controls := [];
    }

    method AddControl(c: Control)
      modifies this
      ensures controls == old(controls) + [c]
    {
      controls := controls + [c];
    }

    /** Removes every control whose name is `name`, keeping the order of the rest. */
    method RemoveControl(name: string)
      modifies this
      ensures controls == RemoveNamed(old(controls), name)
      ensures IsSubsequence(controls, old(controls))
      ensures forall i :: 0 <= i < |controls| ==> ControlName(controls[i]) != name
    {
      RemoveNamedKeepsOrder(controls, name);
      controls := RemoveNamed(controls, name);
    }
  }
}
