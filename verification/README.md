# WindowsStateTriggers: comparison and trigger-state model

A Dafny model of the decision logic inside three XAML state triggers of the
WindowsStateTriggers library:

- `CompareStateTrigger` (modules `Values`, `Evaluator`, `CompareStateTrigger`):
  `CompareValues` decides the relationship of two loosely typed `object`
  values. It applies a reference-identity short-circuit for an `Equal`
  request, then the null rules, then one-way type coercion toward the
  `IComparable` side, then maps a three-way compare to `LessThan`, `Equal`
  or `GreaterThan`. Anything else is `NotComparable`. `UpdateTrigger`
  reports whether that relationship is the requested `Comparison`. It is
  rerun whenever `Value`, `CompareTo` or `Comparison` changes.
- `InputTypeTrigger` (module `InputTypeTrigger`): moving the press handler
  from the old target element to the new one, the press handler, and the
  `IsActive` setter.
- `AdaptiveTrigger` (module `AdaptiveTrigger`): the resize handler, the two
  minimum-changed handlers and the `IsActive` setter.
- The `IsActive` setter both triggers share (module `TriggerValue`). It
  stores the value and raises `IsActiveChanged` only on an actual change.

Values are a tagged type. `Value = Null | Ref(Obj)`, and an `Obj` carries an
allocation identity, a runtime type tag, an `IComparable` flag and a
payload. Reference equality (`v1 == v2` on `object`) is equality of `Value`.
Two boxes with equal contents differ by their identity.
`Convert.ChangeType` and `IComparable.CompareTo` are uninterpreted. They
are the two function fields of a `Runtime` record passed to every
evaluation. Conversion is partial. A conversion that throws is not caught
by the source, so it becomes the error outcome `Evaluation.Threw`. It is
never `NotComparable`.

Framework calls become data. The dependency-property setters are plain
functions that store the property and rerun the recompute, only on an
actual change, as the framework calls a change callback only then. Calls to
`SetTriggerValue` and `SetActive` are recorded as output traces.
`IsActiveChanged` notifications are counted. Window resizes, pointer
presses and the current window's bounds are inputs.

Three behaviours of the code are worth stating plainly:
- A failed `Convert.ChangeType` is not caught. The exception escapes
  `UpdateTrigger`, and the trigger value is left as it was.
- A change to one minimum of `AdaptiveTrigger` checks only that dimension
  (see Findings).
- The identity test decides only an `Equal` request. Any other request
  about the same non-null reference skips coercion, and is decided by
  `CompareTo` if the type is `IComparable` and is `NotComparable`
  otherwise. Two nulls are `NotComparable`.

One consequence of the code shows up in the model. Two nulls are
`NotComparable` for every request other than `Equal`. So with both values
null, a change of `Comparison` makes the trigger active for `Equal` and
also for `NotComparable`. The trigger is also not recomputed at
construction: it starts inactive even though its defaults (two nulls,
`Equal`) would match, and setting a property to its default value leaves it
inactive.

## Model

| member | source | states |
|---|---|---|
| Evaluator.Sign | src/WindowsStateTriggers/CompareStateTrigger.cs:90-93 | a negative, zero or positive compare result maps to LessThan, Equal or GreaterThan (each an if-and-only-if); never NotComparable |
| Evaluator.CompareValues | src/WindowsStateTriggers/CompareStateTrigger.cs:62-98 | the same reference or two nulls are Equal when Equal is requested; a null on exactly one side is NotComparable; two nulls are NotComparable for any other request; same-typed values are ordered by the sign of CompareTo if IComparable, otherwise NotComparable; differently typed values, neither IComparable, are NotComparable; an exception arises only between non-null values of different types, and its source is the value converted toward the IComparable side |
| Evaluator.LeftComparableConvertsRight | src/WindowsStateTriggers/CompareStateTrigger.cs:74-94 | when the left value is IComparable and the types differ, the right value is converted to the left's type: a failed conversion is an error, and a successful one is ordered only if its type now matches |
| Evaluator.RightComparableConvertsLeft | src/WindowsStateTriggers/CompareStateTrigger.cs:80-94 | when only the right value is IComparable, the left value is converted to the right's type, and the converted value is ordered only if its type now matches and it is IComparable (in .NET the second condition follows from the first, since IComparable belongs to the type) |
| Evaluator.CoercionIgnoresOtherDirection | src/WindowsStateTriggers/CompareStateTrigger.cs:74-84 | coercion goes one way only: converting the left value is never consulted when the left value is IComparable |
| Evaluator.OrderedOutcomesExclusive | src/WindowsStateTriggers/CompareStateTrigger.cs:86-94 | two distinct same-typed IComparable values give exactly one of LessThan, Equal and GreaterThan, whatever is requested, and never NotComparable |
| CompareStateTrigger.UpdateTrigger | src/WindowsStateTriggers/CompareStateTrigger.cs:16-20 | on a successful evaluation one value is appended to the trigger's reports, and the trigger is active iff the actual relationship is the requested one; on a thrown conversion nothing is reported and the trigger is unchanged |
| CompareStateTrigger.SetValue | src/WindowsStateTriggers/CompareStateTrigger.cs:22-36 | setting Value stores it and keeps the other two properties; the same reference leaves the trigger as it was, a different one recomputes against the new value, and an error escapes exactly when that recompute's conversion throws |
| CompareStateTrigger.SetCompareTo | src/WindowsStateTriggers/CompareStateTrigger.cs:38-48 | setting CompareTo stores it and keeps the other two properties; the same reference leaves the trigger as it was, a different one recomputes against the new value, and an error escapes exactly when that recompute's conversion throws |
| CompareStateTrigger.SetComparison | src/WindowsStateTriggers/CompareStateTrigger.cs:50-60 | setting Comparison stores it and keeps both values; an unchanged request leaves the trigger as it was, a changed one recomputes against it, and an error escapes exactly when that recompute's conversion throws |
| CompareStateTrigger.RunRecomputesEverySetting | src/WindowsStateTriggers/CompareStateTrigger.cs:16-60 | over any sequence of property assignments, SetTriggerValue is called once per assignment that changes its property and whose comparison does not throw; while no recompute throws, the latest report agrees with the current properties |
| CompareStateTrigger.UnchangedSettingIsIgnored | src/WindowsStateTriggers/CompareStateTrigger.cs:22-60 | assigning a property the value it already has runs no callback: no report, no error, nothing changes |
| CompareStateTrigger.NullsMatchEqualAndNotComparable | src/WindowsStateTriggers/CompareStateTrigger.cs:66-97 | with both values null, a change of Comparison never throws and makes the trigger active iff Equal or NotComparable is requested; an unchanged one leaves the trigger as it was |
| CompareStateTrigger.SameReferenceIsActive | src/WindowsStateTriggers/CompareStateTrigger.cs:66-69 | under Equal, changing Value to the CompareTo reference makes the trigger active, whether or not it is IComparable; setting it when it is already that reference leaves the trigger as it was |
| CompareStateTrigger.OneNullOnlyNotComparable | src/WindowsStateTriggers/CompareStateTrigger.cs:71-97 | with exactly one value null, a change of Comparison never throws and makes the trigger active iff NotComparable is requested; an unchanged one leaves the trigger as it was |
| CompareStateTrigger.DefaultStartsInactive | src/WindowsStateTriggers/CompareStateTrigger.cs:59-60 | Comparison defaults to Equal; the defaults would match, but the trigger starts inactive because nothing recomputes at construction, and setting any property to its default changes nothing |
| TriggerValue.Assign | src/WindowsStateTriggers/AdaptiveTrigger.cs:71-82 | the IsActive setter stores the new value; it raises one notification on an actual change and changes nothing on a redundant assignment |
| TriggerValue.AssignAllCountsFlips | src/WindowsStateTriggers/AdaptiveTrigger.cs:74-81 | over any sequence of assignments the flag holds the last value, and the notification count grows by exactly the number of actual flips |
| TriggerValue.RepeatedAssignRaisesAtMostOnce | src/WindowsStateTriggers/AdaptiveTrigger.cs:76-80 | assigning one value any number of times raises at most one notification, and none if the flag already held it |
| InputTypeTrigger.Detach | src/WindowsStateTriggers/InputTypeTrigger.cs:57-60 | removing the handler from an element takes away one attachment if there is one and leaves every other element alone |
| InputTypeTrigger.Attach | src/WindowsStateTriggers/InputTypeTrigger.cs:62-65 | adding the handler to an element adds exactly one attachment and leaves every other element alone |
| InputTypeTrigger.SetIsActive | src/WindowsStateTriggers/InputTypeTrigger.cs:81-93 | on an actual change the setter stores the value, calls SetActive once with it and raises IsActiveChanged once; otherwise it is a no-op |
| InputTypeTrigger.SetTargetElement | src/WindowsStateTriggers/InputTypeTrigger.cs:53-66 | retargeting removes one attachment from the old element, adds one to the new element, leaves every other element and the IsActive flag unchanged |
| InputTypeTrigger.SetPointerType | src/WindowsStateTriggers/InputTypeTrigger.cs:25-35 | setting PointerType stores it and recomputes nothing |
| InputTypeTrigger.Deliver | src/WindowsStateTriggers/InputTypeTrigger.cs:68-71 | running the press handler once or more leaves IsActive equal to whether the device matches PointerType, with at most one notification and one SetActive call |
| InputTypeTrigger.PointerPressed | src/WindowsStateTriggers/InputTypeTrigger.cs:68-71 | a press on an element the handler is attached to sets IsActive to whether the device matches PointerType; a press on any other element changes nothing |
| InputTypeTrigger.RunKeepsConsistent | src/WindowsStateTriggers/InputTypeTrigger.cs:53-93 | over any sequence of retargets, pointer-type changes and presses, the handler stays attached exactly once to the current target and nowhere else, and SetActive calls match IsActiveChanged notifications one for one |
| InputTypeTrigger.InitialConsistent | src/WindowsStateTriggers/InputTypeTrigger.cs:35 | PointerType defaults to Pen, IsActive starts false, and no handler is attached |
| InputTypeTrigger.PressOnTargetDecides | src/WindowsStateTriggers/InputTypeTrigger.cs:68-71 | after a press on the current target, IsActive iff the pressing device is the configured PointerType |
| InputTypeTrigger.RetargetSilencesOldElement | src/WindowsStateTriggers/InputTypeTrigger.cs:56-60 | after the target moves away from an element, presses on that element change nothing |
| InputTypeTrigger.RetargetToSameIsNoOp | src/WindowsStateTriggers/InputTypeTrigger.cs:53-66 | setting TargetElement to the element it already holds leaves a consistent trigger exactly as it was, as the program runs no callback then |
| InputTypeTrigger.TouchScenario | src/WindowsStateTriggers/InputTypeTrigger.cs:68-71 | with PointerType Touch, a pen press leaves the trigger inactive and a touch press activates it with one SetActive call |
| AdaptiveTrigger.Constructed | src/WindowsStateTriggers/AdaptiveTrigger.cs:65 | a new trigger starts inactive with no notification raised |
| AdaptiveTrigger.SizeChanged | src/WindowsStateTriggers/AdaptiveTrigger.cs:40-43 | after a resize, IsActive iff the new height and width both meet their minimums; one notification iff that flips the flag |
| AdaptiveTrigger.SetMinHeight | src/WindowsStateTriggers/AdaptiveTrigger.cs:45-52 | an unchanged minimum height leaves the trigger as it was; a changed one, with a current window, makes IsActive iff the window height meets it (width ignored), with one notification iff that flips the flag; with no window the flag is unchanged |
| AdaptiveTrigger.SetMinWidth | src/WindowsStateTriggers/AdaptiveTrigger.cs:54-61 | an unchanged minimum width leaves the trigger as it was; a changed one, with a current window, makes IsActive iff the window width meets it (height ignored), with one notification iff that flips the flag; with no window the flag is unchanged |
| AdaptiveTrigger.MinHeightIgnoresWidth | src/WindowsStateTriggers/AdaptiveTrigger.cs:50 | the outcome of a minimum-height change does not depend on the minimum width or the window width |
| AdaptiveTrigger.MinWidthIgnoresHeight | src/WindowsStateTriggers/AdaptiveTrigger.cs:59 | the outcome of a minimum-width change does not depend on the minimum height or the window height |
| AdaptiveTrigger.ResizesAreAssignments | src/WindowsStateTriggers/AdaptiveTrigger.cs:40-43 | a run of resizes is the run of IsActive assignments of whether each size fits, and leaves the minimums alone |
| AdaptiveTrigger.ResizesRaiseOncePerFlip | src/WindowsStateTriggers/AdaptiveTrigger.cs:74-81 | after a run of resizes IsActive says whether the last size fits, and IsActiveChanged was raised once per actual flip |
| AdaptiveTrigger.RepeatedResizeRaisesAtMostOnce | src/WindowsStateTriggers/AdaptiveTrigger.cs:76-79 | repeating one resize any number of times raises at most one notification |
| AdaptiveTrigger.ResizeScenario | src/WindowsStateTriggers/AdaptiveTrigger.cs:40-43 | with minimums 400 wide and 300 high, resizing to 500 x 350 activates, to 390 x 350 deactivates, and repeating that resize raises nothing |
| AdaptiveTrigger.UnchangedMinimumKeepsFlag | src/WindowsStateTriggers/AdaptiveTrigger.cs:45-52 | setting the minimum height to its current value recomputes nothing, so an inactive flag decided by a resize from both dimensions stays inactive |
| AdaptiveTrigger.MinHeightChangeIgnoresMinWidth | src/WindowsStateTriggers/AdaptiveTrigger.cs:45-52 | a minimum-height change can activate the trigger while the window is narrower than the minimum width |
| AdaptiveTrigger.MinWidthChangeIgnoresMinHeight | src/WindowsStateTriggers/AdaptiveTrigger.cs:54-61 | a minimum-width change can activate the trigger while the window is shorter than the minimum height |
| AdaptiveTrigger.SetMinHeightBoth | src/WindowsStateTriggers/AdaptiveTrigger.cs:45-52 | corrected: an unchanged minimum leaves the trigger as it was; a changed one, with a current window, makes IsActive iff the window meets both the new minimum height and the minimum width |
| AdaptiveTrigger.SetMinWidthBoth | src/WindowsStateTriggers/AdaptiveTrigger.cs:54-61 | corrected: an unchanged minimum leaves the trigger as it was; a changed one, with a current window, makes IsActive iff the window meets both the new minimum width and the minimum height |
| AdaptiveTrigger.RunBothKeepsTracking | src/WindowsStateTriggers/AdaptiveTrigger.cs:40-61 | corrected: once IsActive agrees with whether the current window meets both minimums, it keeps agreeing through any sequence of resizes and minimum changes |
| AdaptiveTrigger.RunBothTracksWindow | src/WindowsStateTriggers/AdaptiveTrigger.cs:40-61 | corrected: after a resize and any events that follow it, IsActive iff the current window meets both minimums |

## Left out

- The dependency-property system is left out: registration and `GetValue`/`SetValue`. The rule that a change callback fires only when the value actually changes is kept by the property setters of `CompareStateTrigger` and by `AdaptiveTrigger.SetMinHeight` and `AdaptiveTrigger.SetMinWidth`, which return the trigger unchanged when the property keeps its value. `InputTypeTrigger.SetTargetElement` with the current element detaches and reattaches the handler, which leaves a consistent trigger unchanged (`InputTypeTrigger.RetargetToSameIsNoOp`).
- CompareStateTrigger.SetValue and CompareStateTrigger.SetCompareTo treat a value as unchanged only when it is the same reference (or null again). If the framework also treats two distinct boxes with equal contents as unchanged, the model reruns `UpdateTrigger` where the program calls nothing, because that value-equality test is not part of this model.
- `Window.Current` and the weak-event subscription to `SizeChanged` set up in the `AdaptiveTrigger` constructor are framework plumbing. Resizes and the current bounds are inputs, and the subscription's lifetime is not modelled.
- Routed pointer events are inputs. Bubbling from child elements is not modelled: a press is given as the element it reaches.
- `StateTriggerBase.SetActive` and `SetTriggerValue` are framework calls. Only their arguments are recorded. The visual-state switching they cause is not modelled.
- The base framework `AdaptiveTrigger`'s own state logic and its default minimums are not modelled. `Constructed` takes the minimums as parameters.
- `Convert.ChangeType` (invariant-culture parsing and formatting) and each type's `IComparable.CompareTo` are uninterpreted parameters.
- A numeric string compared with a number (such as "5" with 5) is not worked through. The result depends on how `Convert.ChangeType` parses, and that is uninterpreted here.
- A `CompareTo` implementation that throws is not modelled. Comparison is a total function.
- Window sizes are `real`. Double semantics, including NaN, are not modelled.
- The `#if NET5_0` imports are not modelled.
- `TargetElement` is registered with type `string` and default `""`. This quirk is not modelled: a value that is not a `FrameworkElement` is `None`.
- The cast of the sender to the trigger type in the change callbacks is not modelled.
- The composite trigger that consumes `IsActive` is not part of this model.

## Findings

| source | as written | input that shows it | evidently intended | confidence | as-written member | corrected member |
|---|---|---|---|---|---|---|
| src/WindowsStateTriggers/AdaptiveTrigger.cs:50 | a MinWindowHeight change sets IsActive from the window height alone | minimums 400 wide and 300 high, a 300 x 200 window (inactive), then MinWindowHeight set to 100: IsActive becomes true although 300 < 400 | recheck both dimensions, as the resize handler does | medium, not executed | AdaptiveTrigger.MinHeightChangeIgnoresMinWidth | AdaptiveTrigger.SetMinHeightBoth |
| src/WindowsStateTriggers/AdaptiveTrigger.cs:59 | a MinWindowWidth change sets IsActive from the window width alone | minimums 400 wide and 300 high, a 500 x 200 window (inactive), then MinWindowWidth set to 100: IsActive becomes true although 200 < 300 | recheck both dimensions, as the resize handler does | medium, not executed | AdaptiveTrigger.MinWidthChangeIgnoresMinHeight | AdaptiveTrigger.SetMinWidthBoth |

`AdaptiveTrigger.RunBothTracksWindow` proves the intended property for the
corrected handlers. After a resize and any resizes and minimum changes that
follow it, `IsActive` is exactly whether the current window meets both
minimums. The as-written handlers `SetMinHeight` and `SetMinWidth` are kept
as the model of the source.
