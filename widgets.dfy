/**
 * The widget factory and registry of widget_manager.cpp (declared in
 * widget_manager.h): a factory that counts its calls and builds a button or
 * a label, and a manager that stores shared widgets in insertion order.
 */
module Widgets {

  import opened Wrappers

  /** The concrete class of a widget: `Button` or `Label`. */
  datatype WidgetKind = ButtonKind | LabelKind

  /**
   * `enum class WidgetType`: its underlying type is `int`, and a value cast
   * from any other int falls through the factory's switch to `default`.
   */
  newtype WidgetType = int

  const BUTTON: WidgetType := 0
  const LABEL: WidgetType := 1

  /** The kind of widget the factory builds for `t`, if any. */
  function KindFor(t: WidgetType): (k: Option<WidgetKind>)
    ensures k == Some(ButtonKind) <==> t == BUTTON
    ensures k == Some(LabelKind) <==> t == LABEL
  {
    if t == BUTTON then Some(ButtonKind)
    else if t == LABEL then Some(LabelKind)
    else None
  }

  class Widget {
    const kind: WidgetKind

    constructor(kind: WidgetKind)
      ensures this.kind == kind
    {
      this.kind := kind;
    }
  }

  /** `createWidget`, with its function-static `creationCounter` as a field. */
  class WidgetFactory {
    var creationCounter: int

    constructor()
      ensures creationCounter == 0
    {
      creationCounter := 0;
    }

    /**
     * Counts the call, whatever the type, then builds a fresh Button for
     * BUTTON and a fresh Label for LABEL; any other value yields null.
     */
    method CreateWidget(t: WidgetType) returns (w: Widget?)
      modifies this
      ensures creationCounter == old(creationCounter) + 1
      ensures w != null <==> KindFor(t).Some?
      ensures w != null ==> fresh(w) && w.kind == KindFor(t).value
    {
      creationCounter := creationCounter + 1;
      if t == BUTTON {
        w := new Widget(ButtonKind);
      } else if t == LABEL {
        w := new Widget(LabelKind);
      } else {
        w := null;
      }
    }
  }

  /** HMIWidgetManager: the widgets in the order they were added (null ones included). */
  class HMIWidgetManager {
    var widgets: seq<Widget?>

    constructor()
      ensures widgets == []
    {
      widgets := [];
    }

    /** Appends; the new widget takes the last index and earlier entries stay as they were. */
    method AddWidget(w: Widget?)
      modifies this
      ensures widgets == old(widgets) + [w]
      ensures |widgets| == |old(widgets)| + 1 && widgets[|widgets| - 1] == w
    {
      widgets := widgets + [w];
    }

    /** The widget at `index`, or null when `index` is past the end. */
    method GetWidget(index: nat) returns (w: Widget?)
      ensures index < |widgets| ==> w == widgets[index]
      ensures index >= |widgets| ==> w == null
    {
      if index < |widgets| {
        w := widgets[index];
      } else {
        w := null;
      }
    }

    /**
     * Draws every widget once, in insertion order; returns the kind each
     * drawn widget announces. Drawing dereferences every entry, so none may
     * be null.
     */
    method DrawAllWidgets() returns (drawn: seq<WidgetKind>)
      requires forall i :: 0 <= i < |widgets| ==> widgets[i] != null
      ensures |drawn| == |widgets|
      ensures forall i :: 0 <= i < |widgets| ==> drawn[i] == widgets[i].kind
    {
      drawn := [];
      for i := 0 to |widgets|
        invariant |drawn| == i
        invariant forall j :: 0 <= j < i ==> drawn[j] == widgets[j].kind
      {
        drawn := drawn + [widgets[i].kind];
      }
    }
  }
}
