/** One notification's life: the classes its node carries, the callbacks
    and DOM changes it causes, in order, and the timers it leaves behind.
    DOM changes and callback invocations are recorded as events. */
module Lifecycle {
  import opened JsValues
  import Position
  import DurationBar

  /** The entry points of a notifier; `Custom` carries the caller's name. */
  datatype Kind = Error | Warning | Success | Info | Custom(name: string)

  /** The type string each entry point hands to the shared show routine. */
  function TypeOf(k: Kind): string
  {
    match k
    case Error => "error"
    case Warning => "warning"
    case Success => "success"
    case Info => "info"
    case Custom(name) => name
  }

  /** The exceptions `classList.add` can throw. */
  datatype DomError = SyntaxError | InvalidCharacterError

  datatype Result<T> = Ok(value: T) | Err(error: DomError)

  /** The class every notification carries. */
  const BaseClass: string := "notifier-notification"

  /** The prefix of the type-specific class. */
  const ClassPrefix: string := "notifier-"

  /** ASCII whitespace as a class-list token parser sees it. */
  predicate IsAsciiWhitespace(c: char)
  {
    c == ' ' || c == '\t' || c == '\n' || c == '\r' || c == '\U{000C}'
  }

  predicate HasWhitespace(s: string)
  {
    exists i :: 0 <= i < |s| && IsAsciiWhitespace(s[i])
  }

  /** `classList.add(token)`: rejects an empty token or one with whitespace;
      adding a token already present changes nothing. */
  function AddToken(list: seq<string>, token: string): Result<seq<string>>
  {
    if token == "" then Err(SyntaxError)
    else if HasWhitespace(token) then Err(InvalidCharacterError)
    else if token in list then Ok(list)
    else Ok(list + [token])
  }

  lemma PrefixedWhitespace(t: string)
    ensures HasWhitespace(ClassPrefix + t) <==> HasWhitespace(t)
  {
    var s := ClassPrefix + t;
    if HasWhitespace(t) {
      var i :| 0 <= i < |t| && IsAsciiWhitespace(t[i]);
      assert s[|ClassPrefix| + i] == t[i];
    }
    if HasWhitespace(s) {
      var i :| 0 <= i < |s| && IsAsciiWhitespace(s[i]);
      assert t[i - |ClassPrefix|] == s[i];
    }
  }

  lemma PrefixedIsBase(t: string)
    ensures ClassPrefix + t == BaseClass <==> t == "notification"
  {
    if ClassPrefix + t == BaseClass {
      assert t == BaseClass[|ClassPrefix|..];
    }
  }

  /** The two `classList.add` calls that tag a new node. */
  function NodeClasses(t: string): (r: Result<seq<string>>)
    ensures r.Err? <==> HasWhitespace(t)
    ensures r.Err? ==> r.error == InvalidCharacterError
    ensures r.Ok? ==> forall c :: c in r.value <==> c == BaseClass || c == ClassPrefix + t
    ensures r.Ok? ==> |r.value| == (if t == "notification" then 1 else 2)
  {
    assert !HasWhitespace(BaseClass) by {
      forall i | 0 <= i < |BaseClass| ensures !IsAsciiWhitespace(BaseClass[i]) {
      }
    }
    PrefixedWhitespace(t);
    PrefixedIsBase(t);
    match AddToken([], BaseClass)
    case Err(e) => Err(e)
    case Ok(list) => AddToken(list, ClassPrefix + t)
  }

  /** The four built-in entry points tag their nodes with their own name;
      a custom name goes through unchanged, so `Custom("error")` is styled
      exactly like `Error`. */
  lemma KindClass(k: Kind)
    ensures k == Error ==> NodeClasses(TypeOf(k)) == Ok([BaseClass, "notifier-error"])
    ensures k == Warning ==> NodeClasses(TypeOf(k)) == Ok([BaseClass, "notifier-warning"])
    ensures k == Success ==> NodeClasses(TypeOf(k)) == Ok([BaseClass, "notifier-success"])
    ensures k == Info ==> NodeClasses(TypeOf(k)) == Ok([BaseClass, "notifier-info"])
    ensures k.Custom? ==> NodeClasses(TypeOf(k)) == NodeClasses(k.name)
  {
    if !k.Custom? {
      var t := TypeOf(k);
      assert !HasWhitespace(t) by {
        forall i | 0 <= i < |t| ensures !IsAsciiWhitespace(t[i]) {
        }
      }
      assert t != "notification";
      var r := NodeClasses(t);
      assert |r.value| == 2 && BaseClass in r.value && ClassPrefix + t in r.value;
      assert r.value[0] == BaseClass;
      assert ClassPrefix + t != BaseClass;
      assert r.value == [BaseClass, ClassPrefix + t];
      assert ClassPrefix + "error" == "notifier-error";
      assert ClassPrefix + "warning" == "notifier-warning";
      assert ClassPrefix + "success" == "notifier-success";
      assert ClassPrefix + "info" == "notifier-info";
    }
  }

  /** A notification node: its classes, its inline placement and its text. */
  datatype Node = Node(classes: seq<string>, cssText: string, title: string, message: string)

  /** What a notification does to the page and to the caller. */
  datatype Event =
    | Precall               // the caller's precall callback runs
    | Append(node: Node)    // the node is appended to the document body
    | Remove(node: Node)    // `node.remove()` is called (it detaches only the first time)
    | Postcall              // the caller's postcall callback runs

  /** The settings of one notification. The callbacks and the bar flag are
      reduced to whether they are present (truthy). */
  datatype Settings = Settings(
    precall: bool,
    postcall: bool,
    duration: NumArg,
    durationBar: bool,
    title: string,
    message: string)

  /** Auto-dismiss is scheduled only for a numeric, positive duration. */
  predicate SchedulesDismiss(s: Settings)
  {
    IsPositive(s.duration)
  }

  /** The bar's interval is started only when, besides, the bar is asked for. */
  predicate StartsBar(s: Settings)
  {
    SchedulesDismiss(s) && s.durationBar
  }

  /** The run of the bar's interval: none, the finite list of numerators it
      writes, or, for an infinite duration, an interval that never clears
      itself (every width it writes is 0%). */
  datatype BarRun = NoBar | Finite(written: seq<int>) | Endless

  function BarFor(s: Settings): (b: BarRun)
  {
    if !StartsBar(s) then NoBar
    else if s.duration.Num? then Finite(DurationBar.Ticks(DurationBar.FirstNumerator, s.duration.value))
    else Endless
  }

  /** The outcome of showing a notification: `classList.add` threw (after
      precall had run), or the node is on the page, with the dismiss timer
      pending or not, and the bar's interval run. */
  datatype Shown =
    | Threw(error: DomError, log: seq<Event>)
    | Showed(node: Node, log: seq<Event>, timerPending: bool, bar: BarRun)

  function PrecallLog(s: Settings): seq<Event>
  {
    if s.precall then [Precall] else []
  }

  /** Showing a notification of type `t` from a notifier whose stored
      position is `position`: the outcome and the position left stored. */
  function Present(t: string, s: Settings, position: real): (Shown, real)
  {
    match NodeClasses(t)
    case Err(e) => (Threw(e, PrecallLog(s)), position)
    case Ok(classes) =>
      var placed := Position.Resolve(position);
      var node := Node(classes, placed.0, s.title, s.message);
      (Showed(node, PrecallLog(s) + [Append(node)], SchedulesDismiss(s), BarFor(s)), placed.1)
  }

  /** What showing does, read off `Present`: precall runs first and exactly
      once if present; on success the node is appended exactly once, right
      after it, tagged with the base class and the type's class, placed at
      the repaired position's cell, and the dismiss timer and the bar follow
      the duration guards; if `classList.add` throws, nothing is appended
      and the position is not touched. */
  lemma PresentShape(t: string, s: Settings, position: real)
    ensures var (out, next) := Present(t, s, position);
      out.Showed? ==> next == Position.Resolve(position).1 && out.node.cssText == Position.Resolve(position).0
    ensures var (out, next) := Present(t, s, position);
      (s.precall <==> |out.log| > 0 && out.log[0] == Precall) &&
      (HasWhitespace(t) <==> out.Threw?) &&
      (out.Threw? ==> out.log == PrecallLog(s) && next == position) &&
      (out.Showed? ==>
        out.log[|out.log| - 1] == Append(out.node) &&
        |out.log| == (if s.precall then 2 else 1) &&
        (forall c :: c in out.node.classes <==> c == BaseClass || c == ClassPrefix + t) &&
        Position.IsCode(next) &&
        out.node.cssText == Position.Placement(Position.AnchorOf(next.Floor)) &&
        (Position.IsCode(position) ==> next == position) &&
        (!Position.IsCode(position) ==> next == 9.0 && out.node.cssText == "bottom: 1rem; right: 1rem;") &&
        (out.timerPending <==> IsPositive(s.duration)) &&
        (out.bar != NoBar <==> IsPositive(s.duration) && s.durationBar))
  {
    if !Position.IsCode(position) {
      Position.ResolveFallback(position);
    }
  }

  /** What can happen to a shown node: a click on its close button, or the
      dismiss timer firing. */
  datatype Trigger = CloseClick | TimerFires

  /** `#removeNode`: call `node.remove()`, then postcall when present. */
  function Removal(node: Node, postcall: bool): (evs: seq<Event>)
    ensures |evs| == (if postcall then 2 else 1)
    ensures evs[0] == Remove(node)
    ensures postcall <==> Postcall in evs
    ensures postcall ==> evs[1] == Postcall
  {
    [Remove(node)] + (if postcall then [Postcall] else [])
  }

  /** The events that a sequence of triggers causes after the node is
      shown. Every close click removes (there is no guard against a node
      already removed); the timer fires at most once, and only if it was
      scheduled; a close click does not cancel it. */
  function Run(node: Node, postcall: bool, pending: bool, ts: seq<Trigger>): seq<Event>
  {
    if ts == [] then []
    else if ts[0] == CloseClick then Removal(node, postcall) + Run(node, postcall, pending, ts[1..])
    else if pending then Removal(node, postcall) + Run(node, postcall, false, ts[1..])
    else Run(node, postcall, pending, ts[1..])
  }

  function CountRemoves(evs: seq<Event>): nat
  {
    if evs == [] then 0 else (if evs[0].Remove? then 1 else 0) + CountRemoves(evs[1..])
  }

  function CountPostcalls(evs: seq<Event>): nat
  {
    if evs == [] then 0 else (if evs[0] == Postcall then 1 else 0) + CountPostcalls(evs[1..])
  }

  function CountClicks(ts: seq<Trigger>): nat
  {
    if ts == [] then 0 else (if ts[0] == CloseClick then 1 else 0) + CountClicks(ts[1..])
  }

  lemma {:induction false} CountsAppend(a: seq<Event>, b: seq<Event>)
    ensures CountRemoves(a + b) == CountRemoves(a) + CountRemoves(b)
    ensures CountPostcalls(a + b) == CountPostcalls(a) + CountPostcalls(b)
  {
    if a == [] {
      assert a + b == b;
    } else {
      assert (a + b)[0] == a[0];
      assert (a + b)[1..] == a[1..] + b;
      CountsAppend(a[1..], b);
    }
  }

  lemma RemovalCounts(node: Node, postcall: bool)
    ensures CountRemoves(Removal(node, postcall)) == 1
    ensures CountPostcalls(Removal(node, postcall)) == (if postcall then 1 else 0)
  {
    var removal := Removal(node, postcall);
    var after: seq<Event> := if postcall then [Postcall] else [];
    assert removal[0] == Remove(node) && removal[1..] == after;
    if postcall {
      assert after[0] == Postcall && after[1..] == [];
      assert CountRemoves(after) == 0 && CountPostcalls(after) == 1;
    } else {
      assert CountRemoves(after) == 0 && CountPostcalls(after) == 0;
    }
  }

  /** Every close click removes the node again, and the timer removes it
      once more if it was pending and fires; postcall, when present, runs
      once per removal. Without a pending timer only clicks remove. */
  lemma {:induction false} RunCounts(node: Node, postcall: bool, pending: bool, ts: seq<Trigger>)
    ensures CountRemoves(Run(node, postcall, pending, ts)) ==
      CountClicks(ts) + (if pending && TimerFires in ts then 1 else 0)
    ensures CountPostcalls(Run(node, postcall, pending, ts)) ==
      (if postcall then CountRemoves(Run(node, postcall, pending, ts)) else 0)
  {
    if ts != [] {
      var rest := ts[1..];
      assert forall tr :: tr in ts <==> tr == ts[0] || tr in rest;
      var p' := if ts[0] == TimerFires then false else pending;
      RunCounts(node, postcall, p', rest);
      var removal := Removal(node, postcall);
      RemovalCounts(node, postcall);
      if ts[0] == CloseClick || pending {
        assert Run(node, postcall, pending, ts) == removal + Run(node, postcall, p', rest);
        CountsAppend(removal, Run(node, postcall, p', rest));
      }
    }
  }

  /** Only removals of `node` and postcalls; the first event is a removal;
      postcall appears only if present, and always right after a removal. */
  predicate RemovalPairs(evs: seq<Event>, node: Node, postcall: bool)
  {
    (forall i :: 0 <= i < |evs| ==> evs[i] == Remove(node) || evs[i] == Postcall) &&
    (|evs| > 0 ==> evs[0] == Remove(node)) &&
    (!postcall ==> Postcall !in evs) &&
    (forall i :: 0 < i < |evs| && evs[i] == Postcall ==> evs[i - 1] == Remove(node))
  }

  lemma {:induction false} RunOrder(node: Node, postcall: bool, pending: bool, ts: seq<Trigger>)
    ensures RemovalPairs(Run(node, postcall, pending, ts), node, postcall)
  {
    if ts != [] {
      var p' := if ts[0] == TimerFires then false else pending;
      RunOrder(node, postcall, p', ts[1..]);
      var tail := Run(node, postcall, p', ts[1..]);
      var removal := Removal(node, postcall);
      if ts[0] == CloseClick || pending {
        var evs := removal + tail;
        assert Run(node, postcall, pending, ts) == evs;
        assert RemovalPairs(tail, node, postcall);
        assert |removal| == (if postcall then 2 else 1);
        assert removal[0] == Remove(node);
        assert postcall ==> removal[1] == Postcall;
        forall i | 0 < i < |evs| && evs[i] == Postcall
          ensures evs[i - 1] == Remove(node)
        {
          if i >= |removal| {
            assert evs[i] == tail[i - |removal|];
            assert i > |removal|;
            assert evs[i - 1] == tail[i - 1 - |removal|];
          }
        }
        assert Postcall in evs ==> Postcall in removal || Postcall in tail;
        assert RemovalPairs(evs, node, postcall);
      } else {
        assert Run(node, postcall, pending, ts) == tail;
      }
    }
  }

  /** A close click and then the dismiss timer: `node.remove()` is called
      twice (the second call finds the node already detached) and postcall
      runs twice. */
  lemma DoubleRemoval(node: Node)
    ensures Run(node, true, true, [CloseClick, TimerFires]) ==
      [Remove(node), Postcall, Remove(node), Postcall]
  {
    var ts := [CloseClick, TimerFires];
    var pair := [Remove(node), Postcall];
    assert Removal(node, true) == pair;
    assert ts[1..] == [TimerFires] && ts[1..][1..] == [];
    assert Run(node, true, false, []) == [];
    assert Run(node, true, true, [TimerFires]) == pair + [];
    assert Run(node, true, true, ts) == pair + Run(node, true, true, [TimerFires]);
  }

  /** The whole life of a notification: the show, then what the triggers
      cause. A node that was never appended cannot be removed. */
  function Lifetime(t: string, s: Settings, position: real, ts: seq<Trigger>): seq<Event>
  {
    match Present(t, s, position).0
    case Threw(_, log) => log
    case Showed(node, log, pending, _) => log + Run(node, s.postcall, pending, ts)
  }

  /** The ordering promises of one life: precall, if present, comes first;
      every removal comes after the node was appended; every postcall
      directly follows a removal. */
  predicate OrderedLife(evs: seq<Event>, precall: bool, postcall: bool)
  {
    var first := if precall then 1 else 0;
    (precall ==> |evs| > 0 && evs[0] == Precall) &&
    (forall i :: 0 <= i < |evs| && evs[i].Remove? ==> i > first && evs[first] == Append(evs[i].node)) &&
    (forall i :: 0 <= i < |evs| && evs[i] == Postcall ==> postcall && i > first && evs[i - 1].Remove?)
  }

  lemma ShownOrdered(s: Settings, node: Node, tail: seq<Event>)
    requires RemovalPairs(tail, node, s.postcall)
    ensures OrderedLife(PrecallLog(s) + [Append(node)] + tail, s.precall, s.postcall)
  {
  }

  /** Over a whole life the ordering promises hold, whatever the user
      clicks and whether or not the timer fires. */
  lemma LifetimeOrder(t: string, s: Settings, position: real, ts: seq<Trigger>)
    ensures OrderedLife(Lifetime(t, s, position, ts), s.precall, s.postcall)
  {
    var out := Present(t, s, position).0;
    if out.Showed? {
      RunOrder(out.node, s.postcall, out.timerPending, ts);
      ShownOrdered(s, out.node, Run(out.node, s.postcall, out.timerPending, ts));
    }
  }

  /** The number of `node.remove()` calls over a whole life: none when the node could
      not be built; otherwise one per close click, plus one if auto-dismiss
      was scheduled and its timer fired. */
  lemma LifetimeRemovals(t: string, s: Settings, position: real, ts: seq<Trigger>)
    ensures HasWhitespace(t) ==> CountRemoves(Lifetime(t, s, position, ts)) == 0
    ensures !HasWhitespace(t) ==>
      CountRemoves(Lifetime(t, s, position, ts)) ==
        CountClicks(ts) + (if SchedulesDismiss(s) && TimerFires in ts then 1 else 0)
  {
    var out := Present(t, s, position).0;
    var log := PrecallLog(s);
    assert CountRemoves(log) == 0 by {
      if s.precall { assert log[1..] == []; }
    }
    if out.Showed? {
      var app := [Append(out.node)];
      assert app[1..] == [];
      assert CountRemoves(app) == 0;
      CountsAppend(log, app);
      RunCounts(out.node, s.postcall, out.timerPending, ts);
      CountsAppend(log + app, Run(out.node, s.postcall, out.timerPending, ts));
    }
  }
}
