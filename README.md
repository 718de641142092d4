# Dashboard and climate-control data structures, verified

This project is a Dafny model of the small, sequential data-structure
operations in a collection of C++ automotive HMI examples. Each source file
becomes one module:

- `Climate` (climate.dfy, from check.cpp). It models three climate-control screens:
  - a temperature screen that accepts values in [15, 30] and keeps the last ten in a history;
  - a fan-speed screen that accepts levels in [0, `fanLimit`] (5);
  - a mode screen (AC, Heater, Auto) that keeps the names of the last five modes.

  It also models the manager's list of controls, with add and remove-by-name. Finally it models the temperature updater's tick: one degree up below 30, back to 18 at 30 or above. Each tick goes through the validating setter.
- `Gauges` (gauges.dfy, from try1.cpp). It models a gauge store with these parts:
  - a map of gauge values, restricted to "Speed", "RPM" and "Fuel";
  - an undo stack of overwritten values;
  - a multiset of updated names;
  - a FIFO update queue;
  - a max-priority alert queue.
- `Dashboard` (dashboard.dfy, from task1.cpp). It models a preset list seeded with five presets, an event deque where priority events go to the front, and an action history with undo and `replayLast(N)`.
- `BinaryTree` (binary_tree.dfy, from check2.cpp). It models a binary tree and its `Height`.
- `Widgets` (widgets.dfy, from widget_manager.cpp and widget_manager.h). It models a widget factory that counts its calls, and a registry of widgets with bounds-checked lookup.
- `Wrappers` (wrappers.dfy) holds the `Option` type that the other modules share.

Objects whose fields the C++ code updates in place become Dafny classes. Their
`std::deque`, `std::list`, `std::vector`, `std::map`, `std::stack`,
`std::queue` and `std::multiset` members become `seq`, `map` and `multiset`
fields. Methods reassign those fields. The draining loops (`processQueue`,
`displayUrgentAlerts`, `processEvents`, `replayLast`, `drawAllWidgets`) are
`while` or `for` loops with invariants. `DisplayUrgentAlerts`,
`ProcessEvents` and `DrawAllWidgets` return what they show, in order. All
other console output is dropped (see "## Left out").

Some behaviours of the code worth stating outright:
- The temperature and fan setters reject out-of-range values and leave the state unchanged (check.cpp:60, check.cpp:104).
- The temperature setter accepts every value from 15 to 30 inclusive (check.cpp:60).
- At 30 the tick resets the temperature to 18 through the setter (check.cpp:231-235).
- `addControl` appends whatever it is given, including a second control with a name already present (check.cpp:192-195).
- `removeControl` removes every control with the given name (check.cpp:197-205).

## Model

| member | source | states |
|---|---|---|
| Climate.PushBoundedKeepsLastN | check.cpp:62-65 | a history capped at `cap` that holds the last `cap` logged values still holds the last `cap` values after one more push: FIFO eviction, oldest first |
| Climate.TemperatureControl.constructor | check.cpp:52-56 | the initial temperature (default 20) is stored and seeds the history without validation |
| Climate.TemperatureControl.SetTemperature | check.cpp:58-67 | a value in [15, 30] becomes the temperature and is pushed on the history, which then holds the last ten accepted values; any other value leaves temperature and history unchanged; the history never exceeds ten entries and ends with the current temperature |
| Climate.TemperatureControl.GetTemperature | check.cpp:69-72 | returns the current temperature |
| Climate.TemperatureControl.Tick | check.cpp:230-235 | one updater iteration sets the temperature to `Ticked` of the old one and pushes it on the history exactly when the setter accepts the tick target |
| Climate.TickTarget | check.cpp:231-235 | the requested value always differs from the current one, and from any temperature in [15, 30] it lies in [15, 30] |
| Climate.Ticked | check.cpp:230-235 | through the validating setter a tick changes the temperature exactly when it is at least 14, and then lands in [15, 30]; below 14 the temperature is stuck |
| Climate.TicksStayAccepted | check.cpp:223-235 | a temperature in [15, 30] stays in [15, 30] after any number of ticks |
| Climate.TicksClimb | check.cpp:231-232 | from 14 up to 30 the temperature rises one degree per tick |
| Climate.TicksCycle | check.cpp:223-235 | every temperature in [18, 30] returns to itself after exactly 13 ticks (18, 19, ..., 30, 18) |
| Climate.FanSpeedControl.constructor | check.cpp:96-98 | the initial level (default 1) is stored without validation |
| Climate.FanSpeedControl.SetFanLevel | check.cpp:100-107 | the level becomes `l` exactly when 0 <= l <= 5, otherwise it is unchanged; a level in range stays in range |
| Climate.FanSpeedControl.GetFanLevel | check.cpp:109-112 | returns the current fan level |
| Climate.ModeToString | check.cpp:156-163 | AC, Heater and Auto map to "AC", "Heater" and "Auto", each name to exactly one mode |
| Climate.ModeControl.constructor | check.cpp:137-140 | the initial mode (default AC) is stored and its name seeds the history |
| Climate.ModeControl.SetMode | check.cpp:142-149 | always stores the mode and appends its name; the history is the names of the last five modes set, newest at the back |
| Climate.ModeControl.GetMode | check.cpp:151-154 | returns the current mode |
| Climate.ControlName | check.cpp:85-87 | each screen reports its class name (this override and the ones at lines 123-125 and 174-176 of the same file): "TemperatureControlScreen", "FanSpeedControlScreen" or "ModeControlScreen", and each name belongs to exactly one kind of screen |
| Climate.RemoveNamed | check.cpp:199-204 | no control with the name survives; every control that survives was present; every other control keeps its number of occurrences |
| Climate.RemoveNamedKeepsOrder | check.cpp:199-204 | the surviving controls keep their original relative order |
| Climate.RemoveAbsentName | check.cpp:199-204 | removing a name that no control carries changes nothing |
| Climate.RemoveNamedIdempotent | check.cpp:197-205 | removing the same name twice equals removing it once |
| Climate.ClimateControlManager.constructor | check.cpp:180-183 | a new manager holds no controls |
| Climate.ClimateControlManager.AddControl | check.cpp:192-195 | appends the control at the back |
| Climate.ClimateControlManager.RemoveControl | check.cpp:197-205 | removes every control with the name; the rest keep their order |
| Gauges.UpdateUnknownGauge | try1.cpp:42-46 | an update of a name outside {"Speed", "RPM", "Fuel"} changes no state |
| Gauges.UpdateKnownGauge | try1.cpp:48-53 | a valid update sets exactly that gauge, adds exactly one occurrence of its name to the history, and pushes the previous value on the undo stack only when the gauge already had one |
| Gauges.UndoPopsOne | try1.cpp:57-66 | undo on an empty stack changes nothing; otherwise it pops exactly one entry and restores that gauge to the saved value |
| Gauges.UpdateThenUndo | try1.cpp:48-61 | overwriting a gauge that already had a value and then undoing restores all gauge values and the undo stack |
| Gauges.FirstUpdateIsNotUndone | try1.cpp:48-61 | the first update of a gauge pushes no undo entry, so an undo right after it leaves that gauge at its new value |
| Gauges.UpdateKeepsConsistent | try1.cpp:42-53 | an update keeps every key within the valid gauges and every undo entry naming a set gauge |
| Gauges.UndoKeepsConsistent | try1.cpp:57-61 | undo keeps the same invariant |
| Gauges.ApplyAllKeepsConsistent | try1.cpp:68-74 | draining any queue keeps the invariant |
| Gauges.ApplyAllAppend | try1.cpp:68-74 | draining a queue applies its front part first and then the rest |
| Gauges.LastQueuedUpdateWins | try1.cpp:68-74 | after draining, a valid gauge holds the value of its update nearest the back of the queue, or its old value (or absence) if the queue does not mention it |
| Gauges.AlertLeqTotalOrder | try1.cpp:24 | the `(priority, message)` order is reflexive, total, antisymmetric and transitive |
| Gauges.TopIndex | try1.cpp:78 | returns the position of an alert that no other alert in the queue exceeds |
| Gauges.RemoveAt | try1.cpp:79 | popping the top leaves exactly the other alerts |
| Gauges.AutomotiveHMI.constructor | try1.cpp:14-24 | a new store has no gauge values, undo entries, history, queued updates or alerts |
| Gauges.AutomotiveHMI.UpdateGauge | try1.cpp:42-55 | the state becomes `Update` of the old state; the invariant is kept; queue and alerts are untouched |
| Gauges.AutomotiveHMI.UndoLastUpdate | try1.cpp:57-66 | the state becomes `Undo` of the old state; the invariant is kept |
| Gauges.AutomotiveHMI.ProcessQueue | try1.cpp:68-74 | applies the queued updates in FIFO order and leaves the queue empty |
| Gauges.AutomotiveHMI.DisplayUrgentAlerts | try1.cpp:76-82 | shows every alert exactly once, in non-increasing `(priority, message)` order, and leaves the alert queue empty |
| Gauges.AutomotiveHMI.LogUpdate | try1.cpp:91-94 | adds one occurrence of the name to the history without validating it |
| Gauges.AutomotiveHMI.AddAlert | try1.cpp:96-99 | adds the alert to the queue's contents |
| Dashboard.AddEventPlacement | task1.cpp:38-43 | a priority event becomes the front and a normal event the back; queued events keep their order |
| Dashboard.UndoRemovesLast | task1.cpp:60-67 | undo removes exactly the last action, and nothing from an empty history |
| Dashboard.AddThenUndo | task1.cpp:55-63 | adding an action and undoing restores the history |
| Dashboard.ReversedAt | task1.cpp:80-84 | walking with the reverse iterator visits the actions newest first |
| Dashboard.ReplayedMostRecentFirst | task1.cpp:78-86 | `replayLast(N)` replays min(N, size) actions when N >= 0 and all of them when N < 0, most recent first |
| Dashboard.DashboardManager.constructor | task1.cpp:9-21 | a new manager holds the five initial presets and empty queue and history |
| Dashboard.DashboardManager.AddPreset | task1.cpp:25-27 | appends the preset; the five initial presets stay first, in order |
| Dashboard.DashboardManager.AddEvent | task1.cpp:38-43 | puts the event at the front when it has priority and at the back otherwise |
| Dashboard.DashboardManager.ProcessEvents | task1.cpp:46-52 | emits the events front to back and leaves the queue empty |
| Dashboard.DashboardManager.AddAction | task1.cpp:55-57 | appends the action |
| Dashboard.DashboardManager.UndoAction | task1.cpp:60-67 | drops the last action if there is one |
| Dashboard.DashboardManager.ReplayLast | task1.cpp:78-86 | appends the replayed actions to the back of the event queue; the history is unchanged |
| BinaryTree.Height | check2.cpp:17-26 | the height is -1 exactly for the empty tree and never exceeds the number of nodes minus one |
| BinaryTree.NodeHeight | check2.cpp:24 | a node is one level above each subtree and exactly one above the taller |
| BinaryTree.LeafHeight | check2.cpp:18-24 | a node without children has height 0 |
| BinaryTree.SwapChildrenHeight | check2.cpp:24 | swapping a node's two subtrees keeps its height |
| BinaryTree.MirrorHeight | check2.cpp:17-25 | swapping the subtrees at every level keeps the height |
| BinaryTree.HeightIgnoresValues | check2.cpp:17-25 | two trees of the same shape have the same height whatever their values |
| BinaryTree.PathNoLongerThanHeight | check2.cpp:17-25 | no root-to-node path has more edges than the height |
| BinaryTree.DeepestPath | check2.cpp:17-25 | a non-empty tree has a root-to-node path with exactly `Height` edges |
| Widgets.KindFor | widget_manager.cpp:30-37 | BUTTON selects a button and LABEL a label; every other value selects nothing |
| Widgets.Widget.constructor | widget_manager.cpp:32-34 | a new widget records the concrete kind it was built as, Button or Label |
| Widgets.WidgetFactory.constructor | widget_manager.cpp:27 | the call counter starts at 0 |
| Widgets.WidgetFactory.CreateWidget | widget_manager.cpp:25-38 | every call raises the counter by exactly one; BUTTON yields a fresh button, LABEL a fresh label, never null; any other value yields null |
| Widgets.HMIWidgetManager.constructor | widget_manager.h:36 | a new manager holds no widgets |
| Widgets.HMIWidgetManager.AddWidget | widget_manager.cpp:40-43 | appends the widget at the last index; earlier entries are unchanged |
| Widgets.HMIWidgetManager.GetWidget | widget_manager.cpp:44-49 | returns the widget at the index when it is in range and null otherwise |
| Widgets.HMIWidgetManager.DrawAllWidgets | widget_manager.cpp:50-54 | draws each stored widget once, in insertion order |

## Left out

- Threads, mutexes, the condition variable, the shutdown flag and the updater loops of check.cpp are not modelled. Only their sequential state changes are. Both updaters and `renderAll` would also deadlock as written, because each re-locks a non-recursive mutex it already holds: the setters re-lock the temperature, fan and mode mutexes the updaters hold, and each `render` re-locks the console mutex `renderAll` holds.
- The random fan levels and modes drawn in `fanModeUpdater` are not modelled. Every setter takes its value as an arbitrary parameter.
- Console output is not modelled: `render`, `renderAll`, `showAllGauges`, `showPresets`, `showHistory` and the destructors' messages. Where output order matters, the method returns the shown items in order.
- Also left out: `m_logCount`, the static `s_idCounter`, `getControls`, the unused `gaugeCategories` table and the global `widgetConfigValue`. No modelled operation reads them.
- `shared_ptr`/`unique_ptr` ownership, `dynamic_pointer_cast` and virtual dispatch are not modelled. A stored control is a tagged reference to one of the three screen classes. A widget is an object with its concrete kind.
- `ModeToString`'s `default: return "Unknown"` branch is not modelled. The updater only casts 0 to 2 to a mode, so the three-valued `Mode` datatype cannot reach that branch.
- Widgets.WidgetFactory: one factory object stands for the free function `createWidget` and its function-static `creationCounter`. The counter is per object, not per process, so a second factory would start again at 0 and calls on one factory do not count on another.
- Widgets.HMIWidgetManager.DrawAllWidgets requires that no stored widget is null, because the source dereferences each entry and would crash on null.
- Fixed-width integers are unbounded here. `creationCounter` would overflow after 2^31 calls. `replayLast(N)` decrements its signed counter on every loop test, so for a negative N the counter overflows (undefined behaviour) on test N − INT_MIN + 1, which is the first test when N is `INT_MIN`; this happens once the history holds at least N − INT_MIN actions. The model's counter is unbounded and replays the whole history for every negative N. `Height`'s result is bounded by the node count.
- `std::string` ordering compares characters by code point. This matches the C++ order for ASCII messages.
- The `priority_queue`'s heap layout is not modelled. Its storage is a sequence whose multiset is the queue's contents, and `top()` is any greatest alert. Alerts that compare equal are also equal as values, so the order in which they are shown is fully determined.
- The drivers' `main` functions are not part of this model. Neither are the other example files.
