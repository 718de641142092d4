/**
 * The automotive HMI gauge store of try1.cpp: gauge values restricted to a
 * fixed set of names, an undo stack of overwritten values, a multiset of
 * update names, a FIFO queue of buffered updates and a max-priority queue of
 * alerts.
 */
module Gauges {

  import opened Wrappers

  /** `availableGauges`: the only names `updateGauge` accepts. */
  const AvailableGauges: set<string> := {"Speed", "RPM", "Fuel"}

  /** A `(name, value)` pair: an undo entry or a buffered update. */
  datatype Reading = Reading(name: string, value: int)

  /** A `(priority, message)` pair in the alert queue. */
  datatype Alert = Alert(priority: int, message: string)

  /** The part of the store that `updateGauge`, `undoLastUpdate` and `logUpdate` change. */
  datatype GaugeState = GaugeState(values: map<string, int>, undo: seq<Reading>, history: multiset<string>)

  /**
   * The invariant the store keeps: only valid gauges have values, and every
   * undo entry names a gauge that has a value.
   */
  predicate Consistent(g: GaugeState)
  {
    && g.values.Keys <= AvailableGauges
    && forall i :: 0 <= i < |g.undo| ==> g.undo[i].name in g.values
  }

  /** `updateGauge(name, value)`. */
  function Update(g: GaugeState, name: string, value: int): GaugeState
  {
    if name !in AvailableGauges then g
    else
      var undo := if name in g.values then g.undo + [Reading(name, g.values[name])] else g.undo;
      GaugeState(g.values[name := value], undo, g.history + multiset{name})
  }

  /** `undoLastUpdate()`. */
  function Undo(g: GaugeState): GaugeState
  {
    if g.undo == [] then g
    else
      var last := g.undo[|g.undo| - 1];
      GaugeState(g.values[last.name := last.value], g.undo[..|g.undo| - 1], g.history)
  }

  /** `logUpdate(name)`: records the name without checking it. */
  function Log(g: GaugeState, name: string): GaugeState
  {
    g.(history := g.history + multiset{name})
  }

  /** `processQueue()` on a queue holding `queue`, front first. */
  function ApplyAll(g: GaugeState, queue: seq<Reading>): GaugeState
    decreases |queue|
  {
    if queue == [] then g else ApplyAll(Update(g, queue[0].name, queue[0].value), queue[1..])
  }

  /** An update of an unknown gauge changes no state. */
  lemma UpdateUnknownGauge(g: GaugeState, name: string, value: int)
    requires name !in AvailableGauges
    ensures Update(g, name, value) == g
  {
  }

  /**
   * An update of a valid gauge sets exactly that gauge, adds exactly one
   * occurrence of its name to the history, and pushes the previous value
   * onto the undo stack only when the gauge already had one.
   */
  lemma UpdateKnownGauge(g: GaugeState, name: string, value: int)
    requires name in AvailableGauges
    ensures Update(g, name, value).values[name] == value
    ensures forall n :: n != name ==> (n in Update(g, name, value).values <==> n in g.values)
    ensures forall n :: n != name && n in g.values ==> Update(g, name, value).values[n] == g.values[n]
    ensures Update(g, name, value).history[name] == g.history[name] + 1
    ensures forall n :: n != name ==> Update(g, name, value).history[n] == g.history[n]
    ensures name in g.values ==> Update(g, name, value).undo == g.undo + [Reading(name, g.values[name])]
    ensures name !in g.values ==> Update(g, name, value).undo == g.undo
  {
  }

  /** Undo on an empty stack changes nothing; otherwise it pops one entry and restores that gauge. */
  lemma UndoPopsOne(g: GaugeState)
    ensures g.undo == [] ==> Undo(g) == g
    ensures g.undo != [] ==>
      var last := g.undo[|g.undo| - 1];
      && Undo(g).undo == g.undo[..|g.undo| - 1]
      && Undo(g).values == g.values[last.name := last.value]
      && Undo(g).history == g.history
  {
  }

  /** Overwriting a gauge that already had a value and then undoing restores all values and the stack. */
  lemma UpdateThenUndo(g: GaugeState, name: string, value: int)
    requires name in AvailableGauges && name in g.values
    ensures Undo(Update(g, name, value)).values == g.values
    ensures Undo(Update(g, name, value)).undo == g.undo
  {
  }

  /**
   * The first update of a gauge pushes no undo entry, so an undo right after
   * it does not clear that gauge: it keeps the new value, and the undo
   * reverts an older update (of another gauge) instead, if there is one.
   */
  lemma FirstUpdateIsNotUndone(g: GaugeState, name: string, value: int)
    requires Consistent(g)
    requires name in AvailableGauges && name !in g.values
    ensures name in Undo(Update(g, name, value)).values
    ensures Undo(Update(g, name, value)).values[name] == value
    ensures Undo(Update(g, name, value)).undo == Undo(g).undo
  {
  }

  lemma UpdateKeepsConsistent(g: GaugeState, name: string, value: int)
    requires Consistent(g)
    ensures Consistent(Update(g, name, value))
  {
  }

  lemma UndoKeepsConsistent(g: GaugeState)
    requires Consistent(g)
    ensures Consistent(Undo(g))
  {
  }

  /** Every key of the gauge map stays within the valid set whatever the queue holds. */
  lemma {:induction false} ApplyAllKeepsConsistent(g: GaugeState, queue: seq<Reading>)
    requires Consistent(g)
    ensures Consistent(ApplyAll(g, queue))
    decreases |queue|
  {
    if queue != [] {
      UpdateKeepsConsistent(g, queue[0].name, queue[0].value);
      ApplyAllKeepsConsistent(Update(g, queue[0].name, queue[0].value), queue[1..]);
    }
  }

  /** Draining a queue is draining its front part and then the rest, in that order. */
  lemma {:induction false} ApplyAllAppend(g: GaugeState, front: seq<Reading>, back: seq<Reading>)
    ensures ApplyAll(g, front + back) == ApplyAll(ApplyAll(g, front), back)
    decreases |front|
  {
    if front != [] {
      assert (front + back)[1..] == front[1..] + back;
      ApplyAllAppend(Update(g, front[0].name, front[0].value), front[1..], back);
    } else {
      assert front + back == back;
    }
  }

  /** The value of the update for `name` nearest the back of the queue, if there is one. */
  function LatestValue(queue: seq<Reading>, name: string): (v: Option<int>)
    decreases |queue|
  {
    if queue == [] then None
    else if queue[|queue| - 1].name == name then Some(queue[|queue| - 1].value)
    else LatestValue(queue[..|queue| - 1], name)
  }

  /**
   * Draining the queue applies its updates in FIFO order: a valid gauge ends
   * with the value of its update nearest the back of the queue, and keeps its
   * previous value (or its absence) when the queue does not mention it.
   */
  lemma {:induction false} LastQueuedUpdateWins(g: GaugeState, queue: seq<Reading>, name: string)
    requires name in AvailableGauges
    ensures LatestValue(queue, name).Some? ==>
      name in ApplyAll(g, queue).values && ApplyAll(g, queue).values[name] == LatestValue(queue, name).value
    ensures LatestValue(queue, name).None? ==>
      && (name in ApplyAll(g, queue).values <==> name in g.values)
      && (name in g.values ==> ApplyAll(g, queue).values[name] == g.values[name])
    decreases |queue|
  {
    if queue != [] {
      var front, last := queue[..|queue| - 1], queue[|queue| - 1];
      assert queue == front + [last];
      ApplyAllAppend(g, front, [last]);
      LastQueuedUpdateWins(g, front, name);
    }
  }

  // ---------------------------------------------------------------- alerts

  /** `std::string` comparison: lexicographic on characters. */
  predicate MessageLeq(s: string, t: string)
    decreases |s|
  {
    s == [] || (t != [] && (s[0] < t[0] || (s[0] == t[0] && MessageLeq(s[1..], t[1..]))))
  }

  /** `std::pair` comparison: by priority, then by message. */
  predicate AlertLeq(a: Alert, b: Alert)
  {
    a.priority < b.priority || (a.priority == b.priority && MessageLeq(a.message, b.message))
  }

  lemma {:induction false} MessageLeqReflexive(s: string)
    ensures MessageLeq(s, s)
    decreases |s|
  {
    if s != [] {
      MessageLeqReflexive(s[1..]);
    }
  }

  lemma {:induction false} MessageLeqTotal(s: string, t: string)
    ensures MessageLeq(s, t) || MessageLeq(t, s)
    decreases |s|
  {
    if s != [] && t != [] && s[0] == t[0] {
      MessageLeqTotal(s[1..], t[1..]);
    }
  }

  lemma {:induction false} MessageLeqTransitive(s: string, t: string, u: string)
    requires MessageLeq(s, t) && MessageLeq(t, u)
    ensures MessageLeq(s, u)
    decreases |s|
  {
    if s != [] && s[0] == t[0] && t[0] == u[0] {
      MessageLeqTransitive(s[1..], t[1..], u[1..]);
    }
  }

  lemma {:induction false} MessageLeqAntisymmetric(s: string, t: string)
    requires MessageLeq(s, t) && MessageLeq(t, s)
    ensures s == t
    decreases |s|
  {
    if s != [] {
      MessageLeqAntisymmetric(s[1..], t[1..]);
      assert s == [s[0]] + s[1..] && t == [t[0]] + t[1..];
    }
  }

  /**
   * The alert order is a total order: a queue always has a top, and two
   * alerts that compare equal are the same alert.
   */
  lemma AlertLeqTotalOrder(a: Alert, b: Alert, c: Alert)
    ensures AlertLeq(a, a)
    ensures AlertLeq(a, b) || AlertLeq(b, a)
    ensures AlertLeq(a, b) && AlertLeq(b, a) ==> a == b
    ensures AlertLeq(a, b) && AlertLeq(b, c) ==> AlertLeq(a, c)
  {
    MessageLeqReflexive(a.message);
    MessageLeqTotal(a.message, b.message);
    if AlertLeq(a, b) && AlertLeq(b, a) {
      MessageLeqAntisymmetric(a.message, b.message);
    }
    if AlertLeq(a, b) && AlertLeq(b, c) && a.priority == b.priority == c.priority {
      MessageLeqTransitive(a.message, b.message, c.message);
    }
  }

  /** `alerts.top()`: the position of a greatest alert in the queue's storage. */
  method TopIndex(alerts: seq<Alert>) returns (k: nat)
    requires alerts != []
    ensures k < |alerts|
    ensures forall j :: 0 <= j < |alerts| ==> AlertLeq(alerts[j], alerts[k])
  {
    k := 0;
    AlertLeqTotalOrder(alerts[0], alerts[0], alerts[0]);
    var i := 1;
    while i < |alerts|
      invariant 1 <= i <= |alerts|
      invariant k < i
      invariant forall j :: 0 <= j < i ==> AlertLeq(alerts[j], alerts[k])
    {
      AlertLeqTotalOrder(alerts[i], alerts[k], alerts[i]);
      if !AlertLeq(alerts[i], alerts[k]) {
        forall j | 0 <= j < i
          ensures AlertLeq(alerts[j], alerts[i])
        {
          AlertLeqTotalOrder(alerts[j], alerts[k], alerts[i]);
        }
        k := i;
      }
      i := i + 1;
    }
  }

  /** The storage left after popping the alert at position `k`. */
  function RemoveAt(s: seq<Alert>, k: nat): (r: seq<Alert>)
    requires k < |s|
    ensures multiset(r) + multiset{s[k]} == multiset(s)
    ensures forall a :: a in r ==> a in s
  {
    assert s == s[..k] + [s[k]] + s[k + 1..];
    s[..k] + s[k + 1..]
  }

  /** Non-increasing in the alert order: the greatest alert first. */
  predicate DescendingAlerts(s: seq<Alert>)
  {
    forall i, j :: 0 <= i < j < |s| ==> AlertLeq(s[j], s[i])
  }

  // ---------------------------------------------------------------- the store

  /** AutomotiveHMI. `alerts` is the priority queue's storage; only its multiset of alerts matters. */
  class AutomotiveHMI {
    var gaugeValues: map<string, int>
    var undoStack: seq<Reading>
    var updateHistory: multiset<string>
    var updateQueue: seq<Reading>
    var alerts: seq<Alert>

    function State(): GaugeState
      reads this
    {
      GaugeState(gaugeValues, undoStack, updateHistory)
    }

    ghost predicate Valid()
      reads this
    {
      Consistent(State())
    }

    constructor()
      ensures Valid()
      ensures State() == GaugeState(map[], [], multiset{})
      ensures updateQueue == [] && alerts == []
    {
      gaugeValues := map[];
      undoStack := [];
      updateHistory := multiset{};
      updateQueue := [];
      alerts := [];
    }

    method UpdateGauge(name: string, value: int)
      requires Valid()
      modifies this
      ensures Valid()
      ensures State() == Update(old(State()), name, value)
      ensures updateQueue == old(updateQueue) && alerts == old(alerts)
    {
      UpdateKeepsConsistent(State(), name, value);
      if name !in AvailableGauges {
        return;
      }
      if name in gaugeValues {
        undoStack := undoStack + [Reading(name, gaugeValues[name])];
      }
      gaugeValues := gaugeValues[name := value];
      updateHistory := updateHistory + multiset{name};
    }

    method UndoLastUpdate()
      requires Valid()
      modifies this
      ensures Valid()
      ensures State() == Undo(old(State()))
      ensures updateQueue == old(updateQueue) && alerts == old(alerts)
    {
      UndoKeepsConsistent(State());
      if undoStack != [] {
        var last := undoStack[|undoStack| - 1];
        undoStack := undoStack[..|undoStack| - 1];
        gaugeValues := gaugeValues[last.name := last.value];
      }
    }

    /** Applies every buffered update, front first, and leaves the queue empty. */
    method ProcessQueue()
      requires Valid()
      modifies this
      ensures Valid()
      ensures State() == ApplyAll(old(State()), old(updateQueue))
      ensures updateQueue == [] && alerts == old(alerts)
    {
      while updateQueue != []
        invariant Valid()
        invariant ApplyAll(State(), updateQueue) == ApplyAll(old(State()), old(updateQueue))
        invariant alerts == old(alerts)
        decreases |updateQueue|
      {
        var update := updateQueue[0];
        updateQueue := updateQueue[1..];
        UpdateGauge(update.name, update.value);
      }
    }

    /** Pops every alert, greatest first; returns them in the order they are shown. */
    method DisplayUrgentAlerts() returns (shown: seq<Alert>)
      modifies this
      ensures alerts == []
      ensures multiset(shown) == multiset(old(alerts))
      ensures DescendingAlerts(shown)
      ensures State() == old(State()) && updateQueue == old(updateQueue)
    {
      shown := [];
      while alerts != []
        invariant multiset(shown) + multiset(alerts) == multiset(old(alerts))
        invariant DescendingAlerts(shown)
        invariant forall i, a :: 0 <= i < |shown| && a in alerts ==> AlertLeq(a, shown[i])
        invariant gaugeValues == old(gaugeValues) && undoStack == old(undoStack)
        invariant updateHistory == old(updateHistory) && updateQueue == old(updateQueue)
        decreases |alerts|
      {
        var k := TopIndex(alerts);
        var top := alerts[k];
        assert top in alerts;
        assert forall i :: 0 <= i < |shown| ==> AlertLeq(top, shown[i]);
        alerts := RemoveAt(alerts, k);
        shown := shown + [top];
      }
    }

    method LogUpdate(name: string)
      requires Valid()
      modifies this
      ensures Valid()
      ensures State() == Log(old(State()), name)
      ensures updateQueue == old(updateQueue) && alerts == old(alerts)
    {
      updateHistory := updateHistory + multiset{name};
    }

    method AddAlert(priority: int, message: string)
      modifies this
      ensures multiset(alerts) == multiset(old(alerts)) + multiset{Alert(priority, message)}
      ensures State() == old(State()) && updateQueue == old(updateQueue)
    {
      alerts := alerts + [Alert(priority, message)];
    }
  }
}
