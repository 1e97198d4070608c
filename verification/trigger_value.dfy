/** The `ITriggerValue` half shared by the input-type and window-size
    triggers: an `IsActive` flag whose private setter commits a new value
    and raises `IsActiveChanged` only when the value actually changes. */
module TriggerValue {

  /** The flag and the number of `IsActiveChanged` notifications raised so far. */
  datatype ActiveFlag = ActiveFlag(isActive: bool, raised: nat)

  /** A freshly constructed trigger: inactive, nothing raised. */
  const Inactive := ActiveFlag(false, 0)

  /** The `IsActive` setter. */
  function Assign(f: ActiveFlag, v: bool): (r: ActiveFlag)
    ensures r.isActive == v
    ensures f.isActive == v ==> r == f
    ensures f.isActive != v ==> r.raised == f.raised + 1
  {
    if f.isActive != v then ActiveFlag(v, f.raised + 1) else f
  }

  /** The setter applied to each value of `vs` in turn. */
  function AssignAll(f: ActiveFlag, vs: seq<bool>): ActiveFlag
    decreases |vs|
  {
    if |vs| == 0 then f else AssignAll(Assign(f, vs[0]), vs[1..])
  }

  /** The value the flag holds just before the `i`-th assignment of `vs`. */
  function Before(start: bool, vs: seq<bool>, i: nat): bool
    requires i <= |vs|
  {
    if i == 0 then start else vs[i - 1]
  }

  /** The number of positions of `vs` whose value differs from the one
      before it (`start` before the first): the actual flips. */
  function Flips(start: bool, vs: seq<bool>): nat
    decreases |vs|
  {
    if |vs| == 0 then 0
    else Flips(start, vs[..|vs| - 1]) + (if vs[|vs| - 1] != Before(start, vs, |vs| - 1) then 1 else 0)
  }

  /** A sequence of `n` copies of `v`. */
  function Repeat<T>(v: T, n: nat): (r: seq<T>)
    ensures |r| == n
    ensures forall i :: 0 <= i < n ==> r[i] == v
  {
    if n == 0 then [] else [v] + Repeat(v, n - 1)
  }

  /** Assigning one more value is one more setter call. */
  lemma {:induction false} AssignAllSnoc(f: ActiveFlag, vs: seq<bool>, v: bool)
    ensures AssignAll(f, vs + [v]) == Assign(AssignAll(f, vs), v)
    decreases |vs|
  {
    if |vs| == 0 {
      assert vs + [v] == [v];
      assert [v][1..] == [];
    } else {
      assert (vs + [v])[1..] == vs[1..] + [v];
      AssignAllSnoc(Assign(f, vs[0]), vs[1..], v);
    }
  }

  /** After any sequence of assignments the flag holds the last value
      assigned (or its old value when there was none), and
      `IsActiveChanged` was raised exactly once per actual flip. */
  lemma {:induction false} AssignAllCountsFlips(f: ActiveFlag, vs: seq<bool>)
    ensures AssignAll(f, vs).isActive == (if |vs| == 0 then f.isActive else vs[|vs| - 1])
    ensures AssignAll(f, vs).raised == f.raised + Flips(f.isActive, vs)
    decreases |vs|
  {
    if |vs| > 0 {
      var init := vs[..|vs| - 1];
      assert init + [vs[|vs| - 1]] == vs;
      AssignAllSnoc(f, init, vs[|vs| - 1]);
      AssignAllCountsFlips(f, init);
      assert Before(f.isActive, vs, |vs| - 1) == (if |init| == 0 then f.isActive else init[|init| - 1]);
    }
  }

  /** Assigning the same value any number of times raises at most one
      notification, and none when the flag already holds that value. */
  lemma {:induction false} RepeatedAssignRaisesAtMostOnce(f: ActiveFlag, v: bool, n: nat)
    ensures AssignAll(f, Repeat(v, n)).raised <= f.raised + 1
    ensures f.isActive == v ==> AssignAll(f, Repeat(v, n)) == f
    decreases n
  {
    if n > 0 {
      var rest := Repeat(v, n - 1);
      assert Repeat(v, n)[1..] == rest;
      var g := Assign(f, v);
      RepeatedAssignRaisesAtMostOnce(g, v, n - 1);
    }
  }
}
