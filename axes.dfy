/**
 * Axis limits of one clock: each axis spans the column's minimum and maximum
 * (NaN skipped) widened on both sides by a buffer of 20% of the range, or by
 * 0.5 when that is undefined or not positive. Real arithmetic stands for the
 * floating point of the source.
 */
module Axes {
  import opened Wrappers

  predicate Defined(vs: seq<Option<real>>) {
    exists i :: 0 <= i < |vs| && vs[i].Some?
  }

  /** Series.min() skipping NaN; None (NaN) when no value is defined. */
  function MinOf(vs: seq<Option<real>>): (r: Option<real>)
    ensures r.None? <==> !Defined(vs)
    ensures r.Some? ==> exists i :: 0 <= i < |vs| && vs[i] == r
    ensures r.Some? ==> forall i :: 0 <= i < |vs| && vs[i].Some? ==> r.value <= vs[i].value
  {
    if vs == [] then None
    else
      var rest := MinOf(vs[1..]);
      assert forall i :: 1 <= i < |vs| ==> vs[i] == vs[1..][i - 1];
      if vs[0].None? then rest
      else if rest.None? || vs[0].value <= rest.value then vs[0]
      else rest
  }

  /** Series.max() skipping NaN; None (NaN) when no value is defined. */
  function MaxOf(vs: seq<Option<real>>): (r: Option<real>)
    ensures r.None? <==> !Defined(vs)
    ensures r.Some? ==> exists i :: 0 <= i < |vs| && vs[i] == r
    ensures r.Some? ==> forall i :: 0 <= i < |vs| && vs[i].Some? ==> vs[i].value <= r.value
  {
    if vs == [] then None
    else
      var rest := MaxOf(vs[1..]);
      assert forall i :: 1 <= i < |vs| ==> vs[i] == vs[1..][i - 1];
      if vs[0].None? then rest
      else if rest.None? || vs[0].value >= rest.value then vs[0]
      else rest
  }

  const Fallback: real := 0.5

  /** 0.2 * (max - min), replaced by 0.5 when NaN or not positive. */
  function Buffer(vs: seq<Option<real>>): (b: real)
    ensures b > 0.0
  {
    var lo, hi := MinOf(vs), MaxOf(vs);
    if lo.Some? && hi.Some? && 0.2 * (hi.value - lo.value) > 0.0
    then 0.2 * (hi.value - lo.value)
    else Fallback
  }

  /** All defined values coincide (also true when none is defined). */
  predicate Flat(vs: seq<Option<real>>) {
    forall i, j :: 0 <= i < |vs| && 0 <= j < |vs| && vs[i].Some? && vs[j].Some? ==> vs[i] == vs[j]
  }

  /** A flat column (one repeated value, or none at all) takes the fallback buffer. */
  lemma FlatBuffer(vs: seq<Option<real>>)
    requires Flat(vs)
    ensures Buffer(vs) == Fallback
  {
  }

  /** A column with two different values takes a fifth of its spread as buffer. */
  lemma SpreadBuffer(vs: seq<Option<real>>)
    requires !Flat(vs)
    ensures Defined(vs) && Buffer(vs) == 0.2 * (MaxOf(vs).value - MinOf(vs).value)
  {
  }

  /** (min - buffer, max + buffer); None where the source's limits would be NaN. */
  function Limits(vs: seq<Option<real>>): (r: Option<(real, real)>)
    ensures r.None? <==> !Defined(vs)
    ensures r.Some? ==> forall i :: 0 <= i < |vs| && vs[i].Some? ==> r.value.0 < vs[i].value < r.value.1
    ensures r.Some? ==> MinOf(vs).value - r.value.0 == r.value.1 - MaxOf(vs).value == Buffer(vs)
  {
    var lo, hi := MinOf(vs), MaxOf(vs);
    if lo.None? || hi.None? then None
    else Some((lo.value - Buffer(vs), hi.value + Buffer(vs)))
  }
}
