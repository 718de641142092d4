/**
 * The dashboard manager of task1.cpp: a preset list seeded with five
 * presets, an event deque where priority events jump the queue, and an
 * action history with undo and a replay of the most recent actions.
 */
module Dashboard {

  const InitialPresets: seq<string> := [
    "Tachometer: Sport",
    "Speedometer: Minimal",
    "Battery Warning: On",
    "Oil Pressure: Bar",
    "Brake Warning: Flash"
  ]

  /** `addEvent(e, isPriority)` on a queue holding `queue`, front first. */
  function WithEvent(queue: seq<string>, e: string, isPriority: bool): seq<string>
  {
    if isPriority then [e] + queue else queue + [e]
  }

  /** `undoAction()` on a history holding `history`, oldest first. */
  function WithoutLast(history: seq<string>): seq<string>
  {
    if history == [] then [] else history[..|history| - 1]
  }

  /**
   * A priority event becomes the front of the queue and a normal event its
   * back; the events already queued keep their order.
   */
  lemma AddEventPlacement(queue: seq<string>, e: string, isPriority: bool)
    ensures |WithEvent(queue, e, isPriority)| == |queue| + 1
    ensures isPriority ==> WithEvent(queue, e, isPriority)[0] == e && WithEvent(queue, e, isPriority)[1..] == queue
    ensures !isPriority ==> WithEvent(queue, e, isPriority)[|queue|] == e && WithEvent(queue, e, isPriority)[..|queue|] == queue
  {
  }

  /** Undo removes exactly the last action, and nothing when there is none. */
  lemma UndoRemovesLast(history: seq<string>)
    ensures history == [] ==> WithoutLast(history) == []
    ensures history != [] ==> WithoutLast(history) + [history[|history| - 1]] == history
  {
  }

  /** Adding an action and undoing it restores the history. */
  lemma AddThenUndo(history: seq<string>, action: string)
    ensures WithoutLast(history + [action]) == history
  {
  }

  /** The actions most recent first. */
  function Reversed(s: seq<string>): (r: seq<string>)
    ensures |r| == |s|
  {
    if s == [] then [] else [s[|s| - 1]] + Reversed(s[..|s| - 1])
  }

  lemma {:induction false} ReversedAt(s: seq<string>, i: nat)
    requires i < |s|
    ensures Reversed(s)[i] == s[|s| - 1 - i]
  {
    if i > 0 {
      ReversedAt(s[..|s| - 1], i - 1);
    } else if |s| > 1 {
      ReversedAt(s[..|s| - 1], 0);
    }
  }

  /**
   * How many actions `replayLast(n)` replays from a history of `available`
   * actions: the loop runs while the post-decremented counter is non-zero and
   * actions remain, so a negative `n` never reaches zero and replays them all.
   */
  function ReplayCount(n: int, available: nat): nat
  {
    if 0 <= n < available then n else available
  }

  /** The events `replayLast(n)` appends to the queue. */
  function Replayed(history: seq<string>, n: int): seq<string>
  {
    Reversed(history)[..ReplayCount(n, |history|)]
  }

  /**
   * `replayLast(n)` with n >= 0 replays min(n, |history|) actions and with
   * n < 0 all of them, the most recent first.
   */
  lemma ReplayedMostRecentFirst(history: seq<string>, n: int)
    ensures 0 <= n ==> |Replayed(history, n)| == if n < |history| then n else |history|
    ensures n < 0 ==> |Replayed(history, n)| == |history|
    ensures forall i :: 0 <= i < |Replayed(history, n)| ==> Replayed(history, n)[i] == history[|history| - 1 - i]
  {
    forall i | 0 <= i < |Replayed(history, n)|
      ensures Replayed(history, n)[i] == history[|history| - 1 - i]
    {
      ReversedAt(history, i);
    }
  }

  /** DashboardManager. */
  class DashboardManager {
    var presets: seq<string>
    var eventQueue: seq<string>
    var actionHistory: seq<string>

    /** The five initial presets always lead the preset list, in their original order. */
    ghost predicate Valid()
      reads this
    {
      |presets| >= |InitialPresets| && presets[..|InitialPresets|] == InitialPresets
    }

    constructor()
      ensures Valid()
      ensures presets == InitialPresets && eventQueue == [] && actionHistory == []
    {
      presets := InitialPresets;
      eventQueue := [];
      actionHistory := [];
    }

    method AddPreset(preset: string)
      requires Valid()
      modifies this
      ensures Valid()
      ensures presets == old(presets) + [preset]
      ensures eventQueue == old(eventQueue) && actionHistory == old(actionHistory)
    {
      presets := presets + [preset];
      assert presets[..|InitialPresets|] == old(presets)[..|InitialPresets|];
    }

    method AddEvent(e: string, isPriority: bool := false)
      modifies this
      ensures eventQueue == WithEvent(old(eventQueue), e, isPriority)
      ensures presets == old(presets) && actionHistory == old(actionHistory)
    {
      if isPriority {
        eventQueue := [e] + eventQueue;
      } else {
        eventQueue := eventQueue + [e];
      }
    }

    /** Pops every event from the front; returns them in the order they are shown. */
    method ProcessEvents() returns (processed: seq<string>)
      modifies this
      ensures processed == old(eventQueue) && eventQueue == []
      ensures presets == old(presets) && actionHistory == old(actionHistory)
    {
      processed := [];
      while eventQueue != []
        invariant processed + eventQueue == old(eventQueue)
        invariant presets == old(presets) && actionHistory == old(actionHistory)
        decreases |eventQueue|
      {
        processed := processed + [eventQueue[0]];
        eventQueue := eventQueue[1..];
      }
    }

    method AddAction(action: string)
      modifies this
      ensures actionHistory == old(actionHistory) + [action]
      ensures presets == old(presets) && eventQueue == old(eventQueue)
    {
      actionHistory := actionHistory + [action];
    }

    method UndoAction()
      modifies this
      ensures actionHistory == WithoutLast(old(actionHistory))
      ensures presets == old(presets) && eventQueue == old(eventQueue)
    {
      if actionHistory != [] {
        actionHistory := actionHistory[..|actionHistory| - 1];
      }
    }

    /**
     * Walks the history from its newest action, re-adding each one as a
     * normal event, while the counter `n` (decremented on every test) is
     * non-zero and actions remain.
     */
    method ReplayLast(n: int)
      modifies this
      ensures eventQueue == old(eventQueue) + Replayed(old(actionHistory), n)
      ensures presets == old(presets) && actionHistory == old(actionHistory)
    {
      var remaining := n;
      var replayed := 0;  // the reverse iterator points at actionHistory[|actionHistory| - 1 - replayed]
      while remaining != 0 && replayed < |actionHistory|
        invariant 0 <= replayed <= |actionHistory|
        invariant remaining == n - replayed
        invariant 0 <= n ==> replayed <= n
        invariant eventQueue == old(eventQueue) + Reversed(actionHistory)[..replayed]
        invariant presets == old(presets) && actionHistory == old(actionHistory)
        decreases |actionHistory| - replayed
      {
        ReversedAt(actionHistory, replayed);
        assert Reversed(actionHistory)[..replayed + 1]
            == Reversed(actionHistory)[..replayed] + [actionHistory[|actionHistory| - 1 - replayed]];
        AddEvent(actionHistory[|actionHistory| - 1 - replayed]);
        remaining := remaining - 1;
        replayed := replayed + 1;
      }
    }
  }
}
