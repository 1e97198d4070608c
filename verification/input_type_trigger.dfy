/** `InputTypeTrigger`: active when the latest pointer press on the target
    element came from the configured kind of device. */
module InputTypeTrigger {
  import opened Values
  import opened TriggerValue

  /** `PointerDeviceType`. */
  datatype DeviceType = Touch | Pen | Mouse

  /** A UI element that raises `PointerPressed`. */
  datatype Element = Element(id: nat)

  /** The trigger: its `PointerType`, its `TargetElement` (a value that is
      not an element reads as none), how many times its press handler is
      attached to each element, its `IsActive` flag, and every value handed
      to the framework's `SetActive`, oldest first. */
  datatype InputTrigger = InputTrigger(
    pointerType: DeviceType,
    target: Option<Element>,
    handlers: map<Element, nat>,
    flag: ActiveFlag,
    setActive: seq<bool>)

  /** A freshly constructed trigger: `PointerType` is `Pen`, no target,
      no handler attached, inactive. */
  const Initial := InputTrigger(Pen, None, map[], Inactive, [])

  /** How many times the handler is attached to `e`. */
  function Handlers(t: InputTrigger, e: Element): nat
  {
    if e in t.handlers then t.handlers[e] else 0
  }

  /** `PointerPressed -= handler`: removes one attachment, or does nothing
      when the handler is not attached. */
  function Detach(handlers: map<Element, nat>, e: Element): (r: map<Element, nat>)
    ensures e in handlers && handlers[e] > 0 ==> e in r && r[e] == handlers[e] - 1
    ensures (e !in handlers || handlers[e] == 0) ==> (e !in r || r[e] == 0)
    ensures forall x :: x != e ==> (x in r <==> x in handlers) && (x in r ==> r[x] == handlers[x])
  {
    if e in handlers && handlers[e] > 0 then handlers[e := handlers[e] - 1] else handlers
  }

  /** `PointerPressed += handler`: adds one attachment. */
  function Attach(handlers: map<Element, nat>, e: Element): (r: map<Element, nat>)
    ensures e in r && r[e] == (if e in handlers then handlers[e] else 0) + 1
    ensures forall x :: x != e ==> (x in r <==> x in handlers) && (x in r ==> r[x] == handlers[x])
  {
    handlers[e := (if e in handlers then handlers[e] else 0) + 1]
  }

  /** The private `IsActive` setter: on an actual change it stores the
      value, calls `SetActive` once and raises `IsActiveChanged` once; it
      does nothing otherwise. */
  function SetIsActive(t: InputTrigger, v: bool): (r: InputTrigger)
    ensures r.flag.isActive == v
    ensures t.flag.isActive == v ==> r == t
    ensures t.flag.isActive != v ==> r.flag.raised == t.flag.raised + 1 && r.setActive == t.setActive + [v]
    ensures r.pointerType == t.pointerType && r.target == t.target && r.handlers == t.handlers
  {
    if t.flag.isActive != v then t.(flag := Assign(t.flag, v), setActive := t.setActive + [v]) else t
  }

  /** Setting `TargetElement` from `t.target` to `e`: detach the handler
      from the old element, then attach it to the new one. */
  function SetTargetElement(t: InputTrigger, e: Option<Element>): (r: InputTrigger)
    ensures r.target == e
    ensures r.pointerType == t.pointerType && r.flag == t.flag && r.setActive == t.setActive
    // the old element loses exactly one attachment, unless it is also the new one
    ensures t.target.Some? && e != t.target && Handlers(t, t.target.value) > 0 ==>
              Handlers(r, t.target.value) == Handlers(t, t.target.value) - 1
    // the new element gains exactly one attachment, unless it is also the old one
    ensures e.Some? && e != t.target ==> Handlers(r, e.value) == Handlers(t, e.value) + 1
    // every other element keeps its attachments
    ensures forall x :: Some(x) != t.target && Some(x) != e ==> Handlers(r, x) == Handlers(t, x)
  {
    var detached := if t.target.Some? then Detach(t.handlers, t.target.value) else t.handlers;
    var attached := if e.Some? then Attach(detached, e.value) else detached;
    t.(target := e, handlers := attached)
  }

  /** Setting `PointerType` only stores it; the flag waits for the next press. */
  function SetPointerType(t: InputTrigger, p: DeviceType): (r: InputTrigger)
    ensures r.pointerType == p && r.target == t.target && r.handlers == t.handlers
    ensures r.flag == t.flag && r.setActive == t.setActive
  {
    t.(pointerType := p)
  }

  /** The press handler run `n` times, once per attachment. */
  function Deliver(t: InputTrigger, device: DeviceType, n: nat): (r: InputTrigger)
    ensures n > 0 ==> r.flag.isActive == (device == t.pointerType)
    ensures n == 0 || t.flag.isActive == (device == t.pointerType) ==> r == t
    ensures r.flag.raised == t.flag.raised + (if n > 0 && t.flag.isActive != (device == t.pointerType) then 1 else 0)
    ensures n > 0 && t.flag.isActive != (device == t.pointerType) ==> r.setActive == t.setActive + [device == t.pointerType]
    ensures r.pointerType == t.pointerType && r.target == t.target && r.handlers == t.handlers
    decreases n
  {
    if n == 0 then t else Deliver(SetIsActive(t, device == t.pointerType), device, n - 1)
  }

  /** A press with a `device` reaching element `e`: every attachment of the
      handler to `e` runs it. */
  function PointerPressed(t: InputTrigger, e: Element, device: DeviceType): (r: InputTrigger)
    ensures Handlers(t, e) > 0 ==> r.flag.isActive == (device == t.pointerType)
    ensures Handlers(t, e) == 0 ==> r == t
    ensures r.flag.raised == t.flag.raised + (if Handlers(t, e) > 0 && t.flag.isActive != (device == t.pointerType) then 1 else 0)
    ensures r.pointerType == t.pointerType && r.target == t.target && r.handlers == t.handlers
  {
    Deliver(t, device, Handlers(t, e))
  }

  /** Everything that can happen to the trigger. */
  datatype Event = TargetSet(e: Option<Element>) | PointerTypeSet(p: DeviceType) | Pressed(on: Element, device: DeviceType)

  function Step(t: InputTrigger, ev: Event): InputTrigger
  {
    match ev
    case TargetSet(e) => SetTargetElement(t, e)
    case PointerTypeSet(p) => SetPointerType(t, p)
    case Pressed(on, device) => PointerPressed(t, on, device)
  }

  function Run(t: InputTrigger, evs: seq<Event>): InputTrigger
    decreases |evs|
  {
    if |evs| == 0 then t else Run(Step(t, evs[0]), evs[1..])
  }

  /** The handler is attached once to the current target and nowhere else,
      and `SetActive` was called exactly once per `IsActiveChanged`, last
      with the current value. */
  ghost predicate Consistent(t: InputTrigger)
  {
    && (forall x :: Handlers(t, x) == (if t.target == Some(x) then 1 else 0))
    && |t.setActive| == t.flag.raised
    && (|t.setActive| > 0 ==> t.setActive[|t.setActive| - 1] == t.flag.isActive)
    && (|t.setActive| == 0 ==> !t.flag.isActive)
  }

  /** Each event keeps the trigger consistent. */
  lemma StepKeepsConsistent(t: InputTrigger, ev: Event)
    requires Consistent(t)
    ensures Consistent(Step(t, ev))
  {
    match ev
    case TargetSet(e) =>
    case PointerTypeSet(p) =>
    case Pressed(on, device) =>
      if Handlers(t, on) > 0 {
        assert Handlers(t, on) == 1;
        assert Deliver(t, device, 1) == Deliver(SetIsActive(t, device == t.pointerType), device, 0);
      }
  }

  /** From construction, no sequence of events leaves a stale attachment
      behind, and `SetActive` and `IsActiveChanged` stay in step. */
  lemma {:induction false} RunKeepsConsistent(t: InputTrigger, evs: seq<Event>)
    requires Consistent(t)
    ensures Consistent(Run(t, evs))
    decreases |evs|
  {
    if |evs| > 0 {
      StepKeepsConsistent(t, evs[0]);
      RunKeepsConsistent(Step(t, evs[0]), evs[1..]);
    }
  }

  /** The freshly constructed trigger is consistent and inactive. */
  lemma InitialConsistent()
    ensures Consistent(Initial)
    ensures Initial.pointerType == Pen && !Initial.flag.isActive
  {
  }

  /** After a press on the current target, the trigger is active exactly
      when the press came from the configured device type. */
  lemma PressOnTargetDecides(t: InputTrigger, device: DeviceType)
    requires Consistent(t) && t.target.Some?
    ensures PointerPressed(t, t.target.value, device).flag.isActive == (device == t.pointerType)
  {
    assert Handlers(t, t.target.value) == 1;
  }

  /** Once the target moves from `a` to another element, presses on `a`
      no longer change anything. */
  lemma RetargetSilencesOldElement(t: InputTrigger, a: Element, e: Option<Element>, device: DeviceType)
    requires Consistent(t) && t.target == Some(a) && e != Some(a)
    ensures PointerPressed(SetTargetElement(t, e), a, device) == SetTargetElement(t, e)
  {
    assert Handlers(t, a) == 1;
  }

  /** Setting `TargetElement` to the element it already holds: the program
      runs no change callback, and the model's detach-then-attach leaves a
      consistent trigger exactly as it was. */
  lemma RetargetToSameIsNoOp(t: InputTrigger)
    requires Consistent(t)
    ensures SetTargetElement(t, t.target) == t
  {
  }

  /** With `PointerType` set to `Touch` and a target attached, a pen press
      leaves the trigger inactive and a touch press activates it, with one
      `SetActive(true)` call. */
  lemma TouchScenario(a: Element)
    ensures var t0 := SetTargetElement(SetPointerType(Initial, Touch), Some(a));
            var t1 := PointerPressed(t0, a, Pen);
            var t2 := PointerPressed(t1, a, Touch);
            !t1.flag.isActive && t2.flag.isActive && t2.setActive == [true] && t2.flag.raised == 1
  {
    var t0 := SetTargetElement(SetPointerType(Initial, Touch), Some(a));
    assert Handlers(t0, a) == 1;
  }
}
