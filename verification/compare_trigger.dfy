/** `CompareStateTrigger`: a state trigger whose value is whether the
    actual relationship between `Value` and `CompareTo` is the requested
    `Comparison`, recomputed whenever any of the three properties changes. */
module CompareStateTrigger {
  import opened Values
  import opened Evaluator

  /** The three properties and every value handed to the framework's
      `SetTriggerValue`, oldest first. */
  datatype CompareTrigger = CompareTrigger(value: Value, compareTo: Value, comparison: Comparison, reported: seq<bool>)

  /** A freshly constructed trigger: both values null, `Comparison` set to
      `Equal`, and nothing reported yet. */
  const Default := CompareTrigger(Null, Null, Equal, [])

  /** The trigger is active once its latest report was `true`; the
      framework starts every state trigger inactive. */
  predicate Active(t: CompareTrigger)
  {
    |t.reported| > 0 && t.reported[|t.reported| - 1]
  }

  /** The outcome of a setter: the trigger afterwards and the exception the
      setter let escape, if any. */
  datatype Step = Step(trigger: CompareTrigger, error: Option<ConversionError>)

  /** `UpdateTrigger`: evaluate the comparison and report whether it is the
      requested one; a conversion that throws escapes before anything is
      reported. */
  function UpdateTrigger(rt: Runtime, t: CompareTrigger): (r: Step)
    ensures r.trigger.value == t.value && r.trigger.compareTo == t.compareTo && r.trigger.comparison == t.comparison
    ensures r.error.None? <==> CompareValues(rt, t.value, t.compareTo, t.comparison).Compared?
    ensures r.error.None? ==> |r.trigger.reported| == |t.reported| + 1 && r.trigger.reported[..|t.reported|] == t.reported
    ensures r.error.None? ==> (Active(r.trigger) <==> CompareValues(rt, t.value, t.compareTo, t.comparison) == Compared(t.comparison))
    ensures r.error.Some? ==> r.trigger == t && CompareValues(rt, t.value, t.compareTo, t.comparison) == Threw(r.error.value)
  {
    match CompareValues(rt, t.value, t.compareTo, t.comparison)
    case Threw(e) => Step(t, Some(e))
    case Compared(actual) => Step(t.(reported := t.reported + [actual == t.comparison]), None)
  }

  /** Setting `Value`: the framework calls the change callback only when
      the new value differs from the stored one (reference equality for an
      `object` property), and the callback recomputes the trigger. */
  function SetValue(rt: Runtime, t: CompareTrigger, v: Value): (r: Step)
    ensures r.trigger.value == v && r.trigger.compareTo == t.compareTo && r.trigger.comparison == t.comparison
    ensures v == t.value ==> r == Step(t, None)
    ensures r.error.Some? <==> v != t.value && CompareValues(rt, v, t.compareTo, t.comparison).Threw?
    ensures v != t.value && r.error.None? ==> |r.trigger.reported| == |t.reported| + 1
    ensures v != t.value && r.error.None? ==> (Active(r.trigger) <==> CompareValues(rt, v, t.compareTo, t.comparison) == Compared(t.comparison))
    ensures r.error.Some? ==> r.trigger.reported == t.reported
  {
    if v == t.value then Step(t, None) else UpdateTrigger(rt, t.(value := v))
  }

  /** Setting `CompareTo`: recomputes the trigger only when the reference changes. */
  function SetCompareTo(rt: Runtime, t: CompareTrigger, v: Value): (r: Step)
    ensures r.trigger.value == t.value && r.trigger.compareTo == v && r.trigger.comparison == t.comparison
    ensures v == t.compareTo ==> r == Step(t, None)
    ensures r.error.Some? <==> v != t.compareTo && CompareValues(rt, t.value, v, t.comparison).Threw?
    ensures v != t.compareTo && r.error.None? ==> |r.trigger.reported| == |t.reported| + 1
    ensures v != t.compareTo && r.error.None? ==> (Active(r.trigger) <==> CompareValues(rt, t.value, v, t.comparison) == Compared(t.comparison))
    ensures r.error.Some? ==> r.trigger.reported == t.reported
  {
    if v == t.compareTo then Step(t, None) else UpdateTrigger(rt, t.(compareTo := v))
  }

  /** Setting `Comparison`: recomputes the trigger only when the requested
      comparison changes (enum values compare by value). */
  function SetComparison(rt: Runtime, t: CompareTrigger, c: Comparison): (r: Step)
    ensures r.trigger.value == t.value && r.trigger.compareTo == t.compareTo && r.trigger.comparison == c
    ensures c == t.comparison ==> r == Step(t, None)
    ensures r.error.Some? <==> c != t.comparison && CompareValues(rt, t.value, t.compareTo, c).Threw?
    ensures c != t.comparison && r.error.None? ==> |r.trigger.reported| == |t.reported| + 1
    ensures c != t.comparison && r.error.None? ==> (Active(r.trigger) <==> CompareValues(rt, t.value, t.compareTo, c) == Compared(c))
    ensures r.error.Some? ==> r.trigger.reported == t.reported
  {
    if c == t.comparison then Step(t, None) else UpdateTrigger(rt, t.(comparison := c))
  }

  /** A property assignment handed to the trigger. */
  datatype Setting = ValueSet(v: Value) | CompareToSet(v: Value) | ComparisonSet(c: Comparison)

  function Apply(rt: Runtime, t: CompareTrigger, s: Setting): Step
  {
    match s
    case ValueSet(v) => SetValue(rt, t, v)
    case CompareToSet(v) => SetCompareTo(rt, t, v)
    case ComparisonSet(c) => SetComparison(rt, t, c)
  }

  /** Whether the assignment gives its property a different value. */
  predicate Changes(t: CompareTrigger, s: Setting)
  {
    match s
    case ValueSet(v) => v != t.value
    case CompareToSet(v) => v != t.compareTo
    case ComparisonSet(c) => c != t.comparison
  }

  /** The properties after the assignment is stored, before any recompute. */
  function Store(t: CompareTrigger, s: Setting): CompareTrigger
  {
    match s
    case ValueSet(v) => t.(value := v)
    case CompareToSet(v) => t.(compareTo := v)
    case ComparisonSet(c) => t.(comparison := c)
  }

  /** The requested comparison is the actual one. */
  predicate Holds(rt: Runtime, t: CompareTrigger)
  {
    CompareValues(rt, t.value, t.compareTo, t.comparison) == Compared(t.comparison)
  }

  /** Evaluating the current properties throws. */
  predicate Throws(rt: Runtime, t: CompareTrigger)
  {
    CompareValues(rt, t.value, t.compareTo, t.comparison).Threw?
  }

  /** The last report, if any, agrees with the current properties. */
  predicate Current(rt: Runtime, t: CompareTrigger)
  {
    |t.reported| > 0 ==> (Active(t) <==> Holds(rt, t))
  }

  /** The trigger after a sequence of assignments; an assignment whose
      recompute throws still stores its property. */
  function Run(rt: Runtime, t: CompareTrigger, settings: seq<Setting>): CompareTrigger
    decreases |settings|
  {
    if |settings| == 0 then t else Run(rt, Apply(rt, t, settings[0]).trigger, settings[1..])
  }

  /** The number of assignments in `settings`, replayed from `t`, that
      change their property and whose recompute throws. */
  function Failures(rt: Runtime, t: CompareTrigger, settings: seq<Setting>): nat
    decreases |settings|
  {
    if |settings| == 0 then 0
    else (if Changes(t, settings[0]) && Throws(rt, Store(t, settings[0])) then 1 else 0)
         + Failures(rt, Apply(rt, t, settings[0]).trigger, settings[1..])
  }

  /** The number of assignments in `settings`, replayed from `t`, that
      report nothing: those that keep their property's value and those
      whose recompute throws. */
  function Quiet(rt: Runtime, t: CompareTrigger, settings: seq<Setting>): nat
    decreases |settings|
  {
    if |settings| == 0 then 0
    else (if !Changes(t, settings[0]) || Throws(rt, Store(t, settings[0])) then 1 else 0)
         + Quiet(rt, Apply(rt, t, settings[0]).trigger, settings[1..])
  }

  /** An assignment that keeps its property's value does nothing at all. */
  lemma UnchangedSettingIsIgnored(rt: Runtime, t: CompareTrigger, s: Setting)
    requires !Changes(t, s)
    ensures Apply(rt, t, s) == Step(t, None)
  {
  }

  /** Every assignment that changes a property recomputes: `SetTriggerValue`
      is called once per such assignment whose comparison does not throw.
      As long as no recompute throws, the latest report always agrees with
      the current properties. */
  lemma {:induction false} RunRecomputesEverySetting(rt: Runtime, t: CompareTrigger, settings: seq<Setting>)
    ensures |Run(rt, t, settings).reported| == |t.reported| + |settings| - Quiet(rt, t, settings)
    ensures Current(rt, t) && Failures(rt, t, settings) == 0 ==> Current(rt, Run(rt, t, settings))
    decreases |settings|
  {
    if |settings| > 0 {
      var step := Apply(rt, t, settings[0]);
      assert step.trigger == Store(t, settings[0]).(reported := step.trigger.reported);
      RunRecomputesEverySetting(rt, step.trigger, settings[1..]);
    }
  }

  /** Two null values are Equal by identity, so with both properties null
      a change of `Comparison` reports `true` for `Equal` and for
      `NotComparable` (the null rule answers every other request) and
      `false` for the orderings; an unchanged `Comparison` reports nothing. */
  lemma NullsMatchEqualAndNotComparable(rt: Runtime, t: CompareTrigger, c: Comparison)
    requires t.value.Null? && t.compareTo.Null?
    ensures SetComparison(rt, t, c).error.None?
    ensures c == t.comparison ==> SetComparison(rt, t, c).trigger == t
    ensures c != t.comparison ==> (Active(SetComparison(rt, t, c).trigger) <==> c == Equal || c == NotComparable)
  {
  }

  /** A value compared with itself under `Equal` is active whatever its
      type, even one that is not `IComparable`, once `Value` changes to it. */
  lemma SameReferenceIsActive(rt: Runtime, t: CompareTrigger, v: Value)
    requires t.compareTo == v && t.comparison == Equal
    ensures SetValue(rt, t, v).error.None?
    ensures t.value != v ==> Active(SetValue(rt, t, v).trigger)
    ensures t.value == v ==> SetValue(rt, t, v).trigger == t
  {
  }

  /** With exactly one property null, a change of `Comparison` makes the
      trigger active only for a `NotComparable` request. */
  lemma OneNullOnlyNotComparable(rt: Runtime, t: CompareTrigger, c: Comparison)
    requires t.value.Null? != t.compareTo.Null?
    ensures SetComparison(rt, t, c).error.None?
    ensures c == t.comparison ==> SetComparison(rt, t, c).trigger == t
    ensures c != t.comparison ==> (Active(SetComparison(rt, t, c).trigger) <==> c == NotComparable)
  {
  }

  /** The defaults are not recomputed at construction: two nulls compare
      Equal and `Comparison` defaults to `Equal`, yet the trigger starts
      inactive, and stays so when a property is set to the value it
      already has, until some property changes. */
  lemma DefaultStartsInactive(rt: Runtime)
    ensures Default.comparison == Equal
    ensures CompareValues(rt, Default.value, Default.compareTo, Default.comparison) == Compared(Default.comparison)
    ensures !Active(Default)
    ensures SetComparison(rt, Default, Equal) == Step(Default, None)
    ensures SetValue(rt, Default, Null) == Step(Default, None)
    ensures SetCompareTo(rt, Default, Null) == Step(Default, None)
  {
  }
}
