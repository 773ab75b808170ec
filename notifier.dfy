/** The `Notifier` class: its one field, the anchor position, which the
    constructor and `setPosition` guard and `getPosition` repairs, and its
    entry points, which all go through one show routine. */
module NotifierModel {
  import opened JsValues
  import opened Position
  import opened Lifecycle
  import DurationBar

  class Notifier {
    /** The anchor position; 9 (bottom-right) unless a valid one was given.
        Stored as a real: the guard admits 2.5. */
    var position: real

    /** What the constructor and `setPosition` can leave stored. */
    ghost predicate Valid()
      reads this
    {
      1.0 <= position <= 9.0
    }

    /** `new Notifier(arg)`: the field starts at 9 and takes `arg` only when
        the guard admits it. */
    constructor (arg: NumArg)
      ensures position == Admit(9.0, arg)
      ensures Valid()
    {
      position := 9.0;
      if WithinClosed(arg, 1.0, 9.0) {
        position := arg.value;
      }
    }

    /** `setPosition(arg)`: an admitted value replaces the position; anything
        else is ignored. */
    method SetPosition(arg: NumArg)
      modifies this
      ensures position == Admit(old(position), arg)
      ensures old(Valid()) ==> Valid()
    {
      if WithinClosed(arg, 1.0, 9.0) {
        position := arg.value;
      }
    }

    /** `getPosition()`: the placement of the stored code; any other stored
        value is replaced by 9 and placed bottom-right. Afterwards the stored
        value is always a code. */
    method GetPosition() returns (css: string)
      modifies this
      ensures (css, position) == Resolve(old(position))
      ensures IsCode(position)
      ensures Valid()
    {
      PlacementTable();
      assert 1.0.Floor == 1 && 2.0.Floor == 2 && 3.0.Floor == 3 && 4.0.Floor == 4 && 5.0.Floor == 5;
      assert 6.0.Floor == 6 && 7.0.Floor == 7 && 8.0.Floor == 8 && 9.0.Floor == 9;
      if position == 1.0 {
        css := "top: 1rem; left: 1rem;";
      } else if position == 2.0 {
        css := "top: 1rem; left: 50%; transform: translateX(-50%);";
      } else if position == 3.0 {
        css := "top: 1rem; right: 1rem;";
      } else if position == 4.0 {
        css := "top: 50%; left: 1rem; transform: translateY(-50%);";
      } else if position == 5.0 {
        css := "top: 50%; left: 50%; transform: translate(-50%, -50%);";
      } else if position == 6.0 {
        css := "top: 50%; right: 1rem; transform: translateY(-50%);";
      } else if position == 7.0 {
        css := "bottom: 1rem; left: 1rem;";
      } else if position == 8.0 {
        css := "bottom: 1rem; left: 50%; transform: translateX(-50%);";
      } else if position == 9.0 {
        css := "bottom: 1rem; right: 1rem;";
      } else {
        position := 9.0;
        css := "bottom: 1rem; right: 1rem;";
      }
    }

    /** `#show(t, settings)`: precall first, then the node is built (its
        classes, then its placement, which may repair the position), then
        appended; auto-dismiss and the bar follow the duration guards. */
    method Show(t: string, s: Settings) returns (r: Shown)
      modifies this
      ensures (r, position) == Present(t, s, old(position))
      ensures old(Valid()) ==> Valid()
    {
      var log: seq<Event> := [];
      if s.precall {
        log := [Precall];        // settings.precall()
      }
      var classes := NodeClasses(t);
      if classes.Err? {
        return Threw(classes.error, log);
      }
      var css := GetPosition();
      var node := Node(classes.value, css, s.title, s.message);
      log := log + [Append(node)];
      var pending := IsPositive(s.duration);
      var bar := NoBar;
      if pending && s.durationBar {
        if s.duration.Num? {
          var written := DurationBar.RunDurationBar(s.duration.value);
          bar := Finite(written);
        } else {
          bar := Endless;
        }
      }
      r := Showed(node, log, pending, bar);
    }

    method Error(s: Settings) returns (r: Shown)
      modifies this
      ensures (r, position) == Present("error", s, old(position))
      ensures old(Valid()) ==> Valid()
    {
      r := Show(TypeOf(Kind.Error), s);
    }

    method Warning(s: Settings) returns (r: Shown)
      modifies this
      ensures (r, position) == Present("warning", s, old(position))
      ensures old(Valid()) ==> Valid()
    {
      r := Show(TypeOf(Kind.Warning), s);
    }

    method Success(s: Settings) returns (r: Shown)
      modifies this
      ensures (r, position) == Present("success", s, old(position))
      ensures old(Valid()) ==> Valid()
    {
      r := Show(TypeOf(Kind.Success), s);
    }

    method Info(s: Settings) returns (r: Shown)
      modifies this
      ensures (r, position) == Present("info", s, old(position))
      ensures old(Valid()) ==> Valid()
    {
      r := Show(TypeOf(Kind.Info), s);
    }

    /** `custom(name, settings)`: the name is the type, unchecked. */
    method Custom(name: string, s: Settings) returns (r: Shown)
      modifies this
      ensures (r, position) == Present(name, s, old(position))
      ensures old(Valid()) ==> Valid()
    {
      r := Show(TypeOf(Kind.Custom(name)), s);
    }
  }
}
