/** `AdaptiveTrigger`: the framework's window-size trigger extended with an
    `IsActive` flag, recomputed when the window is resized and when either
    minimum is changed. */
module AdaptiveTrigger {
  import opened Values
  import opened TriggerValue

  /** A window size (or the current window's bounds). */
  datatype Size = Size(width: real, height: real)

  /** The two minimums and the `IsActive` flag. */
  datatype Adaptive = Adaptive(minHeight: real, minWidth: real, flag: ActiveFlag)

  /** A freshly constructed trigger with the given minimums: inactive,
      nothing raised. */
  function Constructed(minHeight: real, minWidth: real): (r: Adaptive)
    ensures r.minHeight == minHeight && r.minWidth == minWidth
    ensures !r.flag.isActive && r.flag.raised == 0
  {
    Adaptive(minHeight, minWidth, Inactive)
  }

  /** The window meets both minimums. */
  predicate Fits(t: Adaptive, s: Size)
  {
    s.height >= t.minHeight && s.width >= t.minWidth
  }

  /** `OnCoreWindowOnSizeChanged`: the new size is checked against both minimums. */
  function SizeChanged(t: Adaptive, s: Size): (r: Adaptive)
    ensures r.minHeight == t.minHeight && r.minWidth == t.minWidth
    ensures r.flag.isActive <==> s.height >= t.minHeight && s.width >= t.minWidth
    ensures r.flag.raised == t.flag.raised + (if t.flag.isActive == Fits(t, s) then 0 else 1)
  {
    t.(flag := Assign(t.flag, Fits(t, s)))
  }

  /** `OnMinWindowHeightPropertyChanged`: the framework calls it only when
      the minimum height actually changes. With a current window, only its
      height is checked against the new minimum; without one nothing is
      recomputed. */
  function SetMinHeight(t: Adaptive, h: real, window: Option<Size>): (r: Adaptive)
    ensures r.minHeight == h && r.minWidth == t.minWidth
    ensures h == t.minHeight ==> r == t
    ensures h != t.minHeight && window.Some? ==> (r.flag.isActive <==> window.value.height >= h)
    ensures h == t.minHeight || window.None? ==> r.flag == t.flag
    ensures r.flag.raised == t.flag.raised + (if h != t.minHeight && window.Some? && t.flag.isActive != (window.value.height >= h) then 1 else 0)
  {
    if h == t.minHeight then t
    else
      var t' := t.(minHeight := h);
      match window
      case None => t'
      case Some(bounds) => t'.(flag := Assign(t.flag, bounds.height >= h))
  }

  /** `OnMinWindowWidthPropertyChanged`: the framework calls it only when
      the minimum width actually changes. With a current window, only its
      width is checked against the new minimum; without one nothing is
      recomputed. */
  function SetMinWidth(t: Adaptive, w: real, window: Option<Size>): (r: Adaptive)
    ensures r.minWidth == w && r.minHeight == t.minHeight
    ensures w == t.minWidth ==> r == t
    ensures w != t.minWidth && window.Some? ==> (r.flag.isActive <==> window.value.width >= w)
    ensures w == t.minWidth || window.None? ==> r.flag == t.flag
    ensures r.flag.raised == t.flag.raised + (if w != t.minWidth && window.Some? && t.flag.isActive != (window.value.width >= w) then 1 else 0)
  {
    if w == t.minWidth then t
    else
      var t' := t.(minWidth := w);
      match window
      case None => t'
      case Some(bounds) => t'.(flag := Assign(t.flag, bounds.width >= w))
  }

  /** A change of the minimum height decides the flag from the window
      height alone: neither the minimum width nor the window width matter. */
  lemma MinHeightIgnoresWidth(t1: Adaptive, t2: Adaptive, h: real, b1: Size, b2: Size)
    requires t1.flag == t2.flag && t1.minHeight == t2.minHeight && b1.height == b2.height
    ensures SetMinHeight(t1, h, Some(b1)).flag == SetMinHeight(t2, h, Some(b2)).flag
  {
  }

  /** A change of the minimum width decides the flag from the window
      width alone: neither the minimum height nor the window height matter. */
  lemma MinWidthIgnoresHeight(t1: Adaptive, t2: Adaptive, w: real, b1: Size, b2: Size)
    requires t1.flag == t2.flag && t1.minWidth == t2.minWidth && b1.width == b2.width
    ensures SetMinWidth(t1, w, Some(b1)).flag == SetMinWidth(t2, w, Some(b2)).flag
  {
  }

  /** Setting a minimum to the value it already has recomputes nothing,
      so a flag a resize decided from both dimensions stands: minimums 400
      wide, 300 high, a 300 x 350 window, then the minimum height set to 300
      again. */
  lemma UnchangedMinimumKeepsFlag()
    ensures var t1 := SizeChanged(Constructed(300.0, 400.0), Size(300.0, 350.0));
            var t2 := SetMinHeight(t1, 300.0, Some(Size(300.0, 350.0)));
            !t1.flag.isActive && !t2.flag.isActive && t2 == t1
  {
  }

  /** The sizes of successive resizes, each checked against both minimums. */
  function Resizes(t: Adaptive, sizes: seq<Size>): Adaptive
    decreases |sizes|
  {
    if |sizes| == 0 then t else Resizes(SizeChanged(t, sizes[0]), sizes[1..])
  }

  /** What each resize asks the `IsActive` setter to store. */
  function FitsAll(t: Adaptive, sizes: seq<Size>): (r: seq<bool>)
    ensures |r| == |sizes|
    ensures forall i :: 0 <= i < |sizes| ==> r[i] == Fits(t, sizes[i])
    decreases |sizes|
  {
    if |sizes| == 0 then [] else [Fits(t, sizes[0])] + FitsAll(t, sizes[1..])
  }

  /** What each resize stores depends only on the minimums. */
  lemma FitsAllSameMinimums(t1: Adaptive, t2: Adaptive, sizes: seq<Size>)
    requires t1.minHeight == t2.minHeight && t1.minWidth == t2.minWidth
    ensures FitsAll(t1, sizes) == FitsAll(t2, sizes)
  {
  }

  /** A run of resizes is a run of `IsActive` assignments, one per size. */
  lemma {:induction false} ResizesAreAssignments(t: Adaptive, sizes: seq<Size>)
    ensures Resizes(t, sizes).minHeight == t.minHeight && Resizes(t, sizes).minWidth == t.minWidth
    ensures Resizes(t, sizes).flag == AssignAll(t.flag, FitsAll(t, sizes))
    decreases |sizes|
  {
    if |sizes| > 0 {
      var t' := SizeChanged(t, sizes[0]);
      var fs := FitsAll(t, sizes);
      ResizesAreAssignments(t', sizes[1..]);
      FitsAllSameMinimums(t', t, sizes[1..]);
      assert fs[1..] == FitsAll(t, sizes[1..]);
      assert AssignAll(t.flag, fs) == AssignAll(Assign(t.flag, fs[0]), fs[1..]);
    }
  }

  /** So after a run of resizes the flag says whether the last size fits
      both minimums, and `IsActiveChanged` was raised exactly once per
      actual flip. */
  lemma ResizesRaiseOncePerFlip(t: Adaptive, sizes: seq<Size>)
    ensures Resizes(t, sizes).flag.raised == t.flag.raised + Flips(t.flag.isActive, FitsAll(t, sizes))
    ensures |sizes| > 0 ==> Resizes(t, sizes).flag.isActive == Fits(t, sizes[|sizes| - 1])
  {
    ResizesAreAssignments(t, sizes);
    AssignAllCountsFlips(t.flag, FitsAll(t, sizes));
  }

  /** Repeating one resize any number of times raises at most one
      notification. */
  lemma RepeatedResizeRaisesAtMostOnce(t: Adaptive, s: Size, n: nat)
    ensures Resizes(t, Repeat(s, n)).flag.raised <= t.flag.raised + 1
  {
    ResizesAreAssignments(t, Repeat(s, n));
    assert FitsAll(t, Repeat(s, n)) == Repeat(Fits(t, s), n);
    RepeatedAssignRaisesAtMostOnce(t.flag, Fits(t, s), n);
  }

  /** With minimums 400 wide and 300 high, a resize to 500 x 350 activates
      the trigger, a resize to 390 x 350 deactivates it, and repeating that
      resize raises nothing more. */
  lemma ResizeScenario()
    ensures var t0 := Constructed(300.0, 400.0);
            var t1 := SizeChanged(t0, Size(500.0, 350.0));
            var t2 := SizeChanged(t1, Size(390.0, 350.0));
            var t3 := SizeChanged(t2, Size(390.0, 350.0));
            t1.flag == ActiveFlag(true, 1) && t2.flag == ActiveFlag(false, 2) && t3.flag == t2.flag
  {
  }

  /** Changes to the trigger, with the window bounds current at the time. */
  datatype Event = Resized(s: Size) | MinHeightSet(h: real) | MinWidthSet(w: real)

  /** The source's behaviour: a resize updates the window bounds and checks
      both minimums; a minimum change checks one dimension. */
  function Step(t: Adaptive, bounds: Size, ev: Event): (Adaptive, Size)
  {
    match ev
    case Resized(s) => (SizeChanged(t, s), s)
    case MinHeightSet(h) => (SetMinHeight(t, h, Some(bounds)), bounds)
    case MinWidthSet(w) => (SetMinWidth(t, w, Some(bounds)), bounds)
  }

  /** As written, changing one minimum can activate the trigger while the
      window misses the other: minimums 400 wide, 300 high, a 300 x 200
      window, then the minimum height drops to 100. */
  lemma MinHeightChangeIgnoresMinWidth()
    ensures var t0 := Constructed(300.0, 400.0);
            var b := Size(300.0, 200.0);
            var (t1, b1) := Step(t0, b, Resized(b));
            var (t2, b2) := Step(t1, b1, MinHeightSet(100.0));
            !t1.flag.isActive && t2.flag.isActive && !Fits(t2, b2)
  {
  }

  /** As written, the same happens the other way round: minimums 400 wide,
      300 high, a 500 x 200 window, then the minimum width drops to 100. */
  lemma MinWidthChangeIgnoresMinHeight()
    ensures var t0 := Constructed(300.0, 400.0);
            var b := Size(500.0, 200.0);
            var (t1, b1) := Step(t0, b, Resized(b));
            var (t2, b2) := Step(t1, b1, MinWidthSet(100.0));
            !t1.flag.isActive && t2.flag.isActive && !Fits(t2, b2)
  {
  }

  /** A minimum-height change that rechecks both dimensions (still only
      when the minimum actually changes). */
  function SetMinHeightBoth(t: Adaptive, h: real, window: Option<Size>): (r: Adaptive)
    ensures r.minHeight == h && r.minWidth == t.minWidth
    ensures h == t.minHeight ==> r == t
    ensures h != t.minHeight && window.Some? ==> (r.flag.isActive <==> window.value.height >= h && window.value.width >= t.minWidth)
    ensures h == t.minHeight || window.None? ==> r.flag == t.flag
  {
    if h == t.minHeight then t
    else
      var t' := t.(minHeight := h);
      match window
      case None => t'
      case Some(bounds) => t'.(flag := Assign(t.flag, Fits(t', bounds)))
  }

  /** A minimum-width change that rechecks both dimensions (still only
      when the minimum actually changes). */
  function SetMinWidthBoth(t: Adaptive, w: real, window: Option<Size>): (r: Adaptive)
    ensures r.minWidth == w && r.minHeight == t.minHeight
    ensures w == t.minWidth ==> r == t
    ensures w != t.minWidth && window.Some? ==> (r.flag.isActive <==> window.value.width >= w && window.value.height >= t.minHeight)
    ensures w == t.minWidth || window.None? ==> r.flag == t.flag
  {
    if w == t.minWidth then t
    else
      var t' := t.(minWidth := w);
      match window
      case None => t'
      case Some(bounds) => t'.(flag := Assign(t.flag, Fits(t', bounds)))
  }

  /** The corrected behaviour: every event checks both minimums. */
  function StepBoth(t: Adaptive, bounds: Size, ev: Event): (Adaptive, Size)
  {
    match ev
    case Resized(s) => (SizeChanged(t, s), s)
    case MinHeightSet(h) => (SetMinHeightBoth(t, h, Some(bounds)), bounds)
    case MinWidthSet(w) => (SetMinWidthBoth(t, w, Some(bounds)), bounds)
  }

  function RunBoth(t: Adaptive, bounds: Size, evs: seq<Event>): (Adaptive, Size)
    decreases |evs|
  {
    if |evs| == 0 then (t, bounds)
    else
      var (t', b') := StepBoth(t, bounds, evs[0]);
      RunBoth(t', b', evs[1..])
  }

  /** With the corrected recompute, once the flag agrees with the current
      window it keeps agreeing through any sequence of events. */
  lemma {:induction false} RunBothKeepsTracking(t: Adaptive, bounds: Size, evs: seq<Event>)
    requires Fits(t, bounds) == t.flag.isActive
    ensures Fits(RunBoth(t, bounds, evs).0, RunBoth(t, bounds, evs).1) == RunBoth(t, bounds, evs).0.flag.isActive
    decreases |evs|
  {
    if |evs| > 0 {
      var (t', b') := StepBoth(t, bounds, evs[0]);
      assert Fits(t', b') == t'.flag.isActive;
      RunBothKeepsTracking(t', b', evs[1..]);
    }
  }

  /** So with the corrected recompute, after a resize and any events that
      follow, the flag is exactly whether the current window meets both
      minimums. */
  lemma RunBothTracksWindow(t: Adaptive, bounds: Size, evs: seq<Event>)
    requires |evs| > 0 && evs[0].Resized?
    ensures Fits(RunBoth(t, bounds, evs).0, RunBoth(t, bounds, evs).1) == RunBoth(t, bounds, evs).0.flag.isActive
  {
    var (t', b') := StepBoth(t, bounds, evs[0]);
    RunBothKeepsTracking(t', b', evs[1..]);
  }
}
