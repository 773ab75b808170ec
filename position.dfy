/** The anchor position of a notifier: the guard that admits a new value,
    and the resolution of a stored value to one of nine placements on a
    3x3 grid of the screen. */
module Position {
  import opened JsValues

  /** The guard of the constructor and of `setPosition`: the stored value
      after offering `arg` to a notifier whose position is `current`. The
      guard does not ask for an integer, so 2.5 is admitted. */
  function Admit(current: real, arg: NumArg): (next: real)
    ensures WithinClosed(arg, 1.0, 9.0) ==> next == arg.value
    ensures !WithinClosed(arg, 1.0, 9.0) ==> next == current
    ensures 1.0 <= current <= 9.0 ==> 1.0 <= next <= 9.0
  {
    if WithinClosed(arg, 1.0, 9.0) then arg.value else current
  }

  /** The position after a constructor call with `first` followed by
      `setPosition` with each of `rest`, in order. */
  function AdmitAll(first: NumArg, rest: seq<NumArg>): real
  {
    if rest == [] then Admit(9.0, first)
    else Admit(AdmitAll(first, rest[..|rest| - 1]), rest[|rest| - 1])
  }

  /** Whatever was offered, the stored position stays a number in [1, 9]. */
  lemma {:induction false} AdmitAllInRange(first: NumArg, rest: seq<NumArg>)
    ensures 1.0 <= AdmitAll(first, rest) <= 9.0
  {
    if rest != [] {
      AdmitAllInRange(first, rest[..|rest| - 1]);
    }
  }

  /** `rest[i]` is the last argument of `rest` that the guard admits. */
  predicate LastAdmitted(rest: seq<NumArg>, i: int)
  {
    0 <= i < |rest| && WithinClosed(rest[i], 1.0, 9.0) &&
    forall j :: i < j < |rest| ==> !WithinClosed(rest[j], 1.0, 9.0)
  }

  /** When no later call was admitted, the position is what the
      constructor left. */
  lemma {:induction false} AdmitAllNoneAdmitted(first: NumArg, rest: seq<NumArg>)
    requires forall i :: 0 <= i < |rest| ==> !WithinClosed(rest[i], 1.0, 9.0)
    ensures AdmitAll(first, rest) == Admit(9.0, first)
  {
    if rest != [] {
      var init := rest[..|rest| - 1];
      assert forall i :: 0 <= i < |init| ==> init[i] == rest[i];
      AdmitAllNoneAdmitted(first, init);
    }
  }

  /** The last admissible argument wins. */
  lemma {:induction false} AdmitAllLastAdmitted(first: NumArg, rest: seq<NumArg>, i: int)
    requires LastAdmitted(rest, i)
    ensures AdmitAll(first, rest) == rest[i].value
  {
    var last := |rest| - 1;
    if i < last {
      var init := rest[..last];
      assert !WithinClosed(rest[last], 1.0, 9.0);
      assert forall j :: 0 <= j < |init| ==> init[j] == rest[j];
      assert LastAdmitted(init, i);
      AdmitAllLastAdmitted(first, init, i);
    }
  }

  datatype Vertical = Top | Middle | Bottom
  datatype Horizontal = Left | Center | Right

  /** A cell of the 3x3 grid of anchors. */
  datatype Anchor = Anchor(v: Vertical, h: Horizontal)

  /** A stored value that names an anchor: an integer from 1 to 9. */
  predicate IsCode(p: real)
  {
    p.Floor as real == p && 1.0 <= p <= 9.0
  }

  /** Codes 1..9 enumerate the grid row by row, starting top-left. */
  function AnchorOf(code: int): (a: Anchor)
    requires 1 <= code <= 9
  {
    var row := (code - 1) / 3;
    var col := (code - 1) % 3;
    Anchor(if row == 0 then Top else if row == 1 then Middle else Bottom,
           if col == 0 then Left else if col == 1 then Center else Right)
  }

  function CodeOf(a: Anchor): (code: int)
    ensures 1 <= code <= 9
    ensures AnchorOf(code) == a
  {
    var row := match a.v case Top => 0 case Middle => 1 case Bottom => 2;
    var col := match a.h case Left => 0 case Center => 1 case Right => 2;
    3 * row + col + 1
  }

  /** The nine codes and the nine cells are in one-to-one correspondence. */
  lemma CodeOfAnchorOf(code: int)
    requires 1 <= code <= 9
    ensures CodeOf(AnchorOf(code)) == code
  {
  }

  function VerticalRule(v: Vertical): string
  {
    match v
    case Top => "top: 1rem;"
    case Middle => "top: 50%;"
    case Bottom => "bottom: 1rem;"
  }

  function HorizontalRule(h: Horizontal): string
  {
    match h
    case Left => "left: 1rem;"
    case Center => "left: 50%;"
    case Right => "right: 1rem;"
  }

  /** A centred axis is shifted back by half the node's size on that axis,
      so that the node's centre, not its edge, sits on the anchor line. */
  function Correction(a: Anchor): string
  {
    if a.v == Middle && a.h == Center then " transform: translate(-50%, -50%);"
    else if a.v == Middle then " transform: translateY(-50%);"
    else if a.h == Center then " transform: translateX(-50%);"
    else ""
  }

  /** The inline placement for a grid cell, built from its two axes. */
  function Placement(a: Anchor): string
  {
    VerticalRule(a.v) + " " + HorizontalRule(a.h) + Correction(a)
  }

  /** `getPosition` as a value: the placement it returns and the position
      it leaves stored. A stored value that is not a code is replaced by 9. */
  function Resolve(p: real): (string, real)
  {
    if IsCode(p) then (Placement(AnchorOf(p.Floor)), p)
    else (Placement(AnchorOf(9)), 9.0)
  }

  /* The placement of each code, cell by cell, as inline style text. For
     the cells with a centring transform, the text itself is joined in a
     lemma of its own. */

  lemma PlacementTopLeft()
    ensures Placement(AnchorOf(1)) == "top: 1rem; left: 1rem;"
  {
    assert AnchorOf(1) == Anchor(Top, Left);
    assert "top: 1rem;" + " " + "left: 1rem;" + "" == "top: 1rem; left: 1rem;";
  }

  lemma PlacementTopCenter()
    ensures Placement(AnchorOf(2)) == "top: 1rem; left: 50%; transform: translateX(-50%);"
  {
    assert AnchorOf(2) == Anchor(Top, Center);
    TextTopCenter();
  }

  lemma TextTopCenter()
    ensures "top: 1rem;" + " " + "left: 50%;" + " transform: translateX(-50%);"
      == "top: 1rem; left: 50%; transform: translateX(-50%);"
  {
    assert "top: 1rem;" + " " + "left: 50%;" == "top: 1rem; left: 50%;";
  }

  lemma PlacementTopRight()
    ensures Placement(AnchorOf(3)) == "top: 1rem; right: 1rem;"
  {
    assert AnchorOf(3) == Anchor(Top, Right);
    assert "top: 1rem;" + " " + "right: 1rem;" + "" == "top: 1rem; right: 1rem;";
  }

  lemma PlacementMiddleLeft()
    ensures Placement(AnchorOf(4)) == "top: 50%; left: 1rem; transform: translateY(-50%);"
  {
    assert AnchorOf(4) == Anchor(Middle, Left);
    TextMiddleLeft();
  }

  lemma TextMiddleLeft()
    ensures "top: 50%;" + " " + "left: 1rem;" + " transform: translateY(-50%);"
      == "top: 50%; left: 1rem; transform: translateY(-50%);"
  {
    assert "top: 50%;" + " " + "left: 1rem;" == "top: 50%; left: 1rem;";
  }

  lemma PlacementMiddleCenter()
    ensures Placement(AnchorOf(5)) == "top: 50%; left: 50%; transform: translate(-50%, -50%);"
  {
    assert AnchorOf(5) == Anchor(Middle, Center);
    TextMiddleCenter();
  }

  lemma TextMiddleCenter()
    ensures "top: 50%;" + " " + "left: 50%;" + " transform: translate(-50%, -50%);"
      == "top: 50%; left: 50%; transform: translate(-50%, -50%);"
  {
    assert "top: 50%;" + " " + "left: 50%;" == "top: 50%; left: 50%;";
  }

  lemma PlacementMiddleRight()
    ensures Placement(AnchorOf(6)) == "top: 50%; right: 1rem; transform: translateY(-50%);"
  {
    assert AnchorOf(6) == Anchor(Middle, Right);
    TextMiddleRight();
  }

  lemma TextMiddleRight()
    ensures "top: 50%;" + " " + "right: 1rem;" + " transform: translateY(-50%);"
      == "top: 50%; right: 1rem; transform: translateY(-50%);"
  {
    assert "top: 50%;" + " " + "right: 1rem;" == "top: 50%; right: 1rem;";
  }

  lemma PlacementBottomLeft()
    ensures Placement(AnchorOf(7)) == "bottom: 1rem; left: 1rem;"
  {
    assert AnchorOf(7) == Anchor(Bottom, Left);
    assert "bottom: 1rem;" + " " + "left: 1rem;" + "" == "bottom: 1rem; left: 1rem;";
  }

  lemma PlacementBottomCenter()
    ensures Placement(AnchorOf(8)) == "bottom: 1rem; left: 50%; transform: translateX(-50%);"
  {
    assert AnchorOf(8) == Anchor(Bottom, Center);
    TextBottomCenter();
  }

  lemma TextBottomCenter()
    ensures "bottom: 1rem;" + " " + "left: 50%;" + " transform: translateX(-50%);"
      == "bottom: 1rem; left: 50%; transform: translateX(-50%);"
  {
    assert "bottom: 1rem;" + " " + "left: 50%;" == "bottom: 1rem; left: 50%;";
  }

  lemma PlacementBottomRight()
    ensures Placement(AnchorOf(9)) == "bottom: 1rem; right: 1rem;"
  {
    assert AnchorOf(9) == Anchor(Bottom, Right);
    assert "bottom: 1rem;" + " " + "right: 1rem;" + "" == "bottom: 1rem; right: 1rem;";
  }

  /** The nine placements, in the order of the codes. */
  lemma PlacementTable()
    ensures Placement(AnchorOf(1)) == "top: 1rem; left: 1rem;"
    ensures Placement(AnchorOf(2)) == "top: 1rem; left: 50%; transform: translateX(-50%);"
    ensures Placement(AnchorOf(3)) == "top: 1rem; right: 1rem;"
    ensures Placement(AnchorOf(4)) == "top: 50%; left: 1rem; transform: translateY(-50%);"
    ensures Placement(AnchorOf(5)) == "top: 50%; left: 50%; transform: translate(-50%, -50%);"
    ensures Placement(AnchorOf(6)) == "top: 50%; right: 1rem; transform: translateY(-50%);"
    ensures Placement(AnchorOf(7)) == "bottom: 1rem; left: 1rem;"
    ensures Placement(AnchorOf(8)) == "bottom: 1rem; left: 50%; transform: translateX(-50%);"
    ensures Placement(AnchorOf(9)) == "bottom: 1rem; right: 1rem;"
  {
    PlacementTopLeft();
    PlacementTopCenter();
    PlacementTopRight();
    PlacementMiddleLeft();
    PlacementMiddleCenter();
    PlacementMiddleRight();
    PlacementBottomLeft();
    PlacementBottomCenter();
    PlacementBottomRight();
  }

  /** A code is left in place and resolved to its own cell. */
  lemma ResolveCode(p: real)
    requires IsCode(p)
    ensures Resolve(p).1 == p
    ensures Resolve(p).0 == Placement(AnchorOf(p.Floor))
  {
  }

  /** Anything else falls back to bottom-right and is repaired to 9. */
  lemma ResolveFallback(p: real)
    requires !IsCode(p)
    ensures Resolve(p) == ("bottom: 1rem; right: 1rem;", 9.0)
  {
    PlacementBottomRight();
  }

  /** After one resolution the stored value is a code, so a second
      resolution returns the same placement and changes nothing. */
  lemma ResolveSettles(p: real)
    ensures IsCode(Resolve(p).1)
    ensures Resolve(Resolve(p).1) == Resolve(p)
  {
  }

  /** The first and sixth characters of a placement tell its vertical
      rule apart from the other two. */
  lemma VerticalMarks(a: Anchor)
    ensures |Placement(a)| > 5
    ensures Placement(a)[0] == (if a.v == Bottom then 'b' else 't')
    ensures a.v != Bottom ==> Placement(a)[5] == (if a.v == Top then '1' else '5')
  {
    var r := VerticalRule(a.v);
    assert Placement(a) == r + (" " + HorizontalRule(a.h) + Correction(a));
  }

  /** Likewise for the horizontal rule, which starts right after the
      vertical rule and a space. */
  lemma HorizontalMarks(a: Anchor)
    ensures var k := |VerticalRule(a.v)| + 1;
      |Placement(a)| > k + 6 &&
      Placement(a)[k] == (if a.h == Right then 'r' else 'l') &&
      (a.h != Right ==> Placement(a)[k + 6] == (if a.h == Left then '1' else '5'))
  {
    var r := VerticalRule(a.v) + " ";
    assert Placement(a) == r + (HorizontalRule(a.h) + Correction(a));
  }

  /** The nine placements are pairwise distinct. */
  lemma PlacementInjective(a: Anchor, b: Anchor)
    requires Placement(a) == Placement(b)
    ensures a == b
  {
    VerticalMarks(a);
    VerticalMarks(b);
    assert a.v == b.v;
    HorizontalMarks(a);
    HorizontalMarks(b);
  }
}
