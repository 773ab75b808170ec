# Notifier — a Dafny model

Notifier is a small browser helper that shows "toast" notifications
(error, warning, success, info, or a custom kind). One class, `Notifier`
in `notifier.js`, keeps one mutable field: the anchor position, a number
from 1 to 9, read as a cell of a 3x3 grid of the screen when it is an
integer. Its entry points
build a node tagged `notifier-notification` and `notifier-<type>`,
place it at the anchor, append it to the page, and remove it when the
close button is clicked or, if a positive duration was given, when a
timer fires. An optional duration bar grows tick by tick.

This project models that class:

- `js_values.dfy` (module `JsValues`): what the numeric guards
  `!isNaN(x) && …` see of an argument: NaN, a finite number (kept
  exactly, as a real), or an infinity.
- `position.dfy` (module `Position`): the guard of the constructor and
  of `setPosition`, the 3x3 grid of anchors, the placement text of each
  cell, and `Resolve`, the value-level meaning of `getPosition`.
- `duration_bar.dfy` (module `DurationBar`): the interval that writes
  the bar's width, as a loop over ticks, with exact numerators.
- `lifecycle.dfy` (module `Lifecycle`): the node's classes, the events
  of one notification (precall, append, `node.remove()`, postcall), the show
  routine as a value (`Present`), and what close clicks and the dismiss
  timer cause afterwards (`Run`, `Lifetime`).
- `notifier.dfy` (module `NotifierModel`): the class `Notifier` with its
  `position` field, its constructor, `SetPosition`, `GetPosition` (whose
  body follows the source's `switch` literally), `Show` and the five
  entry points. Each method is proved against the functions above.

The stored position is a real, not an integer: the guard
`position >= 1 && position <= 9` admits 2.5, which stays stored until
the next `getPosition` replaces it by 9.

Behaviour of the code that a reader might not expect, all modelled as
written:

- The bar's last width is below 100% whenever the duration exceeds 15
  (`DurationBar.LastWidthNearFull`); it never overshoots by a tick,
  except that the single first tick writes 15/d, which is 100% or more
  when d <= 15.
- A close click followed by the dismiss timer calls `node.remove()`
  twice and runs postcall twice (`Lifecycle.DoubleRemoval`): the second
  `remove()` finds the node already detached and does nothing, but
  nothing guards the second postcall, and a click does not cancel the
  timer.
- A custom name containing whitespace makes `classList.add` throw an
  `InvalidCharacterError`: precall has already run, nothing is appended,
  and the position is not repaired (`Lifecycle.PresentShape`).
- `custom("error", …)` is styled exactly like `error(…)`, and
  `custom("notification", …)` produces a node with only one class
  (`Lifecycle.KindClass`, `Lifecycle.NodeClasses`).

## Model

| member | source | states |
|---|---|---|
| `Position.Admit` | notifier.js:41-45 | an argument that is a number in [1, 9] replaces the position; anything else (NaN, out of range, an infinity) leaves it unchanged; a position in [1, 9] stays in [1, 9] |
| `Position.AdmitAllInRange` | notifier.js:25-45 | after a constructor call and any sequence of `setPosition` calls the stored position is a number in [1, 9] |
| `Position.AdmitAllLastAdmitted` | notifier.js:41-45 | after such a sequence the position is the last argument the guard admitted |
| `Position.AdmitAllNoneAdmitted` | notifier.js:25-45 | when no `setPosition` argument was admitted, the position is what the constructor left: its argument if admitted, else 9 |
| `NotifierModel.Notifier.constructor` | notifier.js:25-35 | the position is the argument if the guard admits it, else the default 9; the object invariant holds |
| `NotifierModel.Notifier.SetPosition` | notifier.js:41-45 | the new position is the guarded update of the old one; the invariant is preserved |
| `NotifierModel.Notifier.GetPosition` | notifier.js:78-101 | the literal switch returns the grid placement of a stored code and keeps it; any other stored value becomes 9 with the bottom-right placement; afterwards the stored value is always a code and the invariant holds |
| `Position.CodeOf` | notifier.js:29 | codes enumerate the 3x3 grid row by row from top-left: every cell has a code in 1..9 and the code maps back to the cell |
| `Position.PlacementTable` | notifier.js:79-97 | the placement built from a cell's vertical rule, horizontal rule and centring transform is, for each of the nine codes, the text the source returns |
| `Position.PlacementInjective` | notifier.js:79-97 | different cells have different placement texts |
| `Position.ResolveCode` | notifier.js:79-97 | a stored code is kept and resolved to its own cell |
| `Position.ResolveFallback` | notifier.js:98-100 | any stored value that is not an integer in 1..9 resolves to `bottom: 1rem; right: 1rem;` and is replaced by 9 |
| `Position.ResolveSettles` | notifier.js:78-101 | after one resolution the stored value is a code, and resolving again returns the same placement and changes nothing |
| `DurationBar.RunDurationBar` | notifier.js:133-141 | the loop over ticks writes exactly the numerators of the tick schedule, starting at 15 and stopping after the tick that brings the counter to the duration |
| `DurationBar.TicksArithmetic` | notifier.js:133-137 | there is at least one tick and tick i writes 15 + 16 * i |
| `DurationBar.TicksStop` | notifier.js:137-140 | the counter after the last tick is at least the duration, and after every earlier tick it is below it |
| `DurationBar.WidthsIncrease` | notifier.js:136 | the widths written are strictly increasing |
| `DurationBar.LaterWidthsBelowFull` | notifier.js:136-140 | every width written after the first tick is below 100% |
| `DurationBar.FirstWidth` | notifier.js:133-136 | the first width is 15/d, at least 100% exactly when d <= 15; there is a single tick exactly when d <= 31 |
| `DurationBar.LastWidthNearFull` | notifier.js:136-140 | the last width is within 1600/d percent of 100%, and below 100% when d > 15 |
| `Lifecycle.NodeClasses` | notifier.js:148-150 | the node's classes are exactly `notifier-notification` and `notifier-` + type, without duplicates; adding them throws exactly when the type contains ASCII whitespace |
| `Lifecycle.KindClass` | notifier.js:51-76 | error, warning, success and info tag the node `notifier-error`, `notifier-warning`, `notifier-success`, `notifier-info`; custom passes the caller's name unchanged |
| `Lifecycle.PresentShape` | notifier.js:109-143 | precall, if present, runs first and once; on success the node is appended once, right after it, with the type's classes and the placement `getPosition` returns, and the position it leaves (9 and bottom-right when the stored value is not a code); auto-dismiss is pending iff the duration is numeric and positive, and the bar runs iff also `duration_bar` is set; when the class list throws nothing is appended and the position is untouched |
| `NotifierModel.Notifier.Show` | notifier.js:109-144 | the method's outcome and new position are those of `Present` on the old position; the invariant is preserved |
| `NotifierModel.Notifier.Error` | notifier.js:51 | shows with the type `error`; the invariant is preserved |
| `NotifierModel.Notifier.Warning` | notifier.js:57 | shows with the type `warning`; the invariant is preserved |
| `NotifierModel.Notifier.Success` | notifier.js:63 | shows with the type `success`; the invariant is preserved |
| `NotifierModel.Notifier.Info` | notifier.js:69 | shows with the type `info`; the invariant is preserved |
| `NotifierModel.Notifier.Custom` | notifier.js:76 | shows with the caller's name as the type; the invariant is preserved |
| `Lifecycle.Removal` | notifier.js:164-169 | a removal calls `node.remove()` first, then runs postcall exactly when it is present |
| `Lifecycle.RunOrder` | notifier.js:119-131 | after the show only `node.remove()` calls and postcalls happen, the first is a removal, and every postcall directly follows a removal |
| `Lifecycle.RunCounts` | notifier.js:119-131 | every close click calls `node.remove()` again; the timer calls it once more if it was scheduled and fires; postcall runs once per removal call when present, never otherwise |
| `Lifecycle.DoubleRemoval` | notifier.js:119-131 | a close click followed by the timer gives removal, postcall, removal, postcall (the second removal finds the node detached) |
| `Lifecycle.LifetimeOrder` | notifier.js:110-131 | over a whole life, precall comes first, no removal precedes the append, and every postcall directly follows a removal |
| `Lifecycle.LifetimeRemovals` | notifier.js:126-131 | over a whole life `node.remove()` is called once per close click plus once if auto-dismiss was scheduled and its timer fired; never if the node could not be built |

## Left out

- The DOM: `createElement`, the `innerHTML` template (title and message
  are inserted as HTML, unescaped), `querySelector`, listener wiring and
  inline styles are reduced to a `Node` value and events.
- Real time: `setTimeout` and `setInterval` delays, and the interleaving
  of bar ticks with removals, are not modelled; triggers are an ordered
  list, and the bar's run is recorded in full, as the interval keeps
  writing to a detached node.
- The formatting of the width as a percentage string and its
  floating-point division: widths are exact fractions.
- `DurationBar.Ticks`, `DurationBar.RunDurationBar`: the bar's counter
  is an exact integer, while the source's counter (notifier.js:133, 137)
  is a double that agrees with it only below 2^53; from 2^57 on,
  `duration += 16` no longer changes it, so for such durations the
  source's interval never stops, whereas the model's run (and
  `Lifecycle.BarFor`'s `Finite` result) is always finite.
- The style sheet injected when the module loads: presentation only.
- JavaScript coercion of arbitrary values (strings, `null`, booleans,
  objects with `valueOf`): an argument is given as the number it coerces
  to, or NaN.
- Missing `settings` or `data` objects, and callbacks that are truthy but
  not functions or that throw: these raise `TypeError`s or propagate
  exceptions in the source; the model takes settings as a record and
  callbacks as present or absent.
- `NotifierModel.Notifier.Show`, `Lifecycle.Present`: callbacks are
  assumed not to call back into the notifier. In the source, precall runs
  (notifier.js:111-112) before `#builder` reads the position through
  `getPosition()` (notifier.js:159), so a precall that calls
  `setPosition` moves this very notification and leaves its value
  stored; the model places the node by the position held before precall.
- `Lifecycle.Run`, `Lifecycle.BarFor` and `DurationBar.RunDurationBar`
  read the settings once, at show time; the source's closures re-read
  `settings.postcall` at each removal (notifier.js:120, 130) and
  `settings.duration` on each bar tick (notifier.js:136, 138), so a
  caller that mutates its settings object after the show is not modelled.
- `Lifecycle.Run`: a trigger list may hold close clicks after the node is
  detached; in a browser only a script-dispatched click on the detached
  close button can do that, and the source then calls `node.remove()`
  (a no-op) and postcall again, as the model records.
