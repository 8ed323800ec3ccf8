/**
 The sounding profile and the level filter applied before the hodograph is
 drawn (courses/python-workshop-master/failing_notebooks/skewt.py, lines
 76-77): the levels whose pressure is at least 100 mbar are
 kept, and the same boolean mask selects the u, v and wind-speed values.
 The fetched pressures are taken to be in millibar already.
 */
module Hodograph {

  /** One upper-air observation: six index-aligned columns, one entry per level. */
  datatype Sounding = Sounding(
    pressure: seq<real>,
    temperature: seq<real>,
    dewpoint: seq<real>,
    u: seq<real>,
    v: seq<real>,
    speed: seq<real>)
  {
    /** The columns the hodograph reads have one entry per pressure level. */
    predicate WindsAligned()
    {
      |u| == |pressure| && |v| == |pressure| && |speed| == |pressure|
    }
  }

  /** The wind components and speeds handed to the colour-mapped hodograph line. */
  datatype Trace = Trace(u: seq<real>, v: seq<real>, speed: seq<real>)

  /** The lowest pressure, in mbar, drawn on the hodograph. */
  const HodographFloor: real := 100.0

  /** `p >= 100 * units.mbar`, element by element. */
  function LevelMask(pressure: seq<real>): (mask: seq<bool>)
    ensures |mask| == |pressure|
    ensures forall i :: 0 <= i < |pressure| ==> (mask[i] <==> HodographFloor <= pressure[i])
  {
    if |pressure| == 0 then []
    else [HodographFloor <= pressure[0]] + LevelMask(pressure[1..])
  }

  /** Number of `true` entries in `mask[lo..]`. */
  function TrueCount(mask: seq<bool>, lo: nat): (n: nat)
    requires lo <= |mask|
    decreases |mask| - lo
  {
    if lo == |mask| then 0 else (if mask[lo] then 1 else 0) + TrueCount(mask, lo + 1)
  }

  /** Boolean-mask indexing `xs[mask]` restricted to positions `lo..`: the entries whose mask is set, in order. */
  function SelectFrom<T>(xs: seq<T>, mask: seq<bool>, lo: nat): (r: seq<T>)
    requires |xs| == |mask| && lo <= |mask|
    ensures |r| == TrueCount(mask, lo) <= |xs| - lo
    decreases |mask| - lo
  {
    if lo == |mask| then []
    else (if mask[lo] then [xs[lo]] else []) + SelectFrom(xs, mask, lo + 1)
  }

  /** NumPy's `xs[mask]` for a boolean mask of the same length. */
  function Select<T>(xs: seq<T>, mask: seq<bool>): (r: seq<T>)
    requires |xs| == |mask|
    ensures |r| <= |xs|
  {
    SelectFrom(xs, mask, 0)
  }

  /** The positions in `lo..` whose mask is set, ascending: the independent description of what a mask keeps. */
  function KeptFrom(mask: seq<bool>, lo: nat): (ks: seq<nat>)
    requires lo <= |mask|
    ensures |ks| == TrueCount(mask, lo)
    ensures forall k :: 0 <= k < |ks| ==> lo <= ks[k] < |mask| && mask[ks[k]]
    ensures forall k, l :: 0 <= k < l < |ks| ==> ks[k] < ks[l]
    ensures forall i :: lo <= i < |mask| && mask[i] ==> i in ks
    decreases |mask| - lo
  {
    if lo == |mask| then []
    else
      var rest := KeptFrom(mask, lo + 1);
      if mask[lo] then [lo] + rest else rest
  }

  /** Entry `k` of the selection is the input entry at the `k`-th kept position. */
  lemma {:induction false} SelectFromAt<T>(xs: seq<T>, mask: seq<bool>, lo: nat)
    requires |xs| == |mask| && lo <= |mask|
    ensures |SelectFrom(xs, mask, lo)| == |KeptFrom(mask, lo)|
    ensures forall k :: 0 <= k < |KeptFrom(mask, lo)| ==>
      SelectFrom(xs, mask, lo)[k] == xs[KeptFrom(mask, lo)[k]]
    decreases |mask| - lo
  {
    if lo < |mask| {
      SelectFromAt(xs, mask, lo + 1);
      var rest, kept := SelectFrom(xs, mask, lo + 1), KeptFrom(mask, lo + 1);
      if mask[lo] {
        assert SelectFrom(xs, mask, lo) == [xs[lo]] + rest;
        assert KeptFrom(mask, lo) == [lo] + kept;
        forall k | 1 <= k < |kept| + 1
          ensures SelectFrom(xs, mask, lo)[k] == xs[KeptFrom(mask, lo)[k]]
        {
          assert SelectFrom(xs, mask, lo)[k] == rest[k - 1];
        }
      } else {
        assert SelectFrom(xs, mask, lo) == rest;
        assert KeptFrom(mask, lo) == kept;
      }
    }
  }

  /** The levels the hodograph draws: ascending positions of exactly the levels whose pressure is at least 100 mbar. */
  function HodographLevels(pressure: seq<real>): (ks: seq<nat>)
    ensures forall k :: 0 <= k < |ks| ==> ks[k] < |pressure| && HodographFloor <= pressure[ks[k]]
    ensures forall i :: 0 <= i < |pressure| && HodographFloor <= pressure[i] ==> i in ks
    ensures forall k, l :: 0 <= k < l < |ks| ==> ks[k] < ks[l]
  {
    KeptFrom(LevelMask(pressure), 0)
  }

  /** Lines 76-77: build the mask from the pressures and apply it to u, v and the wind speed. */
  function HodographTrace(s: Sounding): (t: Trace)
    requires s.WindsAligned()
    ensures |t.u| == |t.v| == |t.speed| == |HodographLevels(s.pressure)| <= |s.pressure|
    ensures forall k :: 0 <= k < |t.u| ==>
      var i := HodographLevels(s.pressure)[k];
      t.u[k] == s.u[i] && t.v[k] == s.v[i] && t.speed[k] == s.speed[i]
  {
    var mask := LevelMask(s.pressure);
    SelectFromAt(s.u, mask, 0);
    SelectFromAt(s.v, mask, 0);
    SelectFromAt(s.speed, mask, 0);
    Trace(Select(s.u, mask), Select(s.v, mask), Select(s.speed, mask))
  }

  /** A mask that keeps everything from `lo` on keeps the suffix unchanged. */
  lemma {:induction false} SelectFromAllSet<T>(xs: seq<T>, mask: seq<bool>, lo: nat)
    requires |xs| == |mask| && lo <= |mask|
    requires forall i :: lo <= i < |mask| ==> mask[i]
    ensures SelectFrom(xs, mask, lo) == xs[lo..]
    decreases |mask| - lo
  {
    if lo < |mask| {
      SelectFromAllSet(xs, mask, lo + 1);
      assert xs[lo..] == [xs[lo]] + xs[lo + 1..];
    }
  }

  /** A mask that keeps nothing from `lo` on selects nothing. */
  lemma {:induction false} SelectFromNoneSet<T>(xs: seq<T>, mask: seq<bool>, lo: nat)
    requires |xs| == |mask| && lo <= |mask|
    requires forall i :: lo <= i < |mask| ==> !mask[i]
    ensures SelectFrom(xs, mask, lo) == []
    decreases |mask| - lo
  {
    if lo < |mask| {
      SelectFromNoneSet(xs, mask, lo + 1);
    }
  }

  /** When every level's pressure is at least 100 mbar, the hodograph draws the winds unchanged. */
  lemma AllLevelsKept(s: Sounding)
    requires s.WindsAligned()
    requires forall i :: 0 <= i < |s.pressure| ==> HodographFloor <= s.pressure[i]
    ensures HodographTrace(s) == Trace(s.u, s.v, s.speed)
  {
    var mask := LevelMask(s.pressure);
    SelectFromAllSet(s.u, mask, 0);
    SelectFromAllSet(s.v, mask, 0);
    SelectFromAllSet(s.speed, mask, 0);
  }

  /** When every level is above the 100 mbar surface (pressure below 100), the hodograph is empty. */
  lemma NoLevelsKept(s: Sounding)
    requires s.WindsAligned()
    requires forall i :: 0 <= i < |s.pressure| ==> s.pressure[i] < HodographFloor
    ensures HodographTrace(s) == Trace([], [], [])
  {
    var mask := LevelMask(s.pressure);
    SelectFromNoneSet(s.u, mask, 0);
    SelectFromNoneSet(s.v, mask, 0);
    SelectFromNoneSet(s.speed, mask, 0);
  }

  /** The boundary: a level at exactly 100 mbar is drawn, one at 99 mbar is not. */
  lemma BoundaryLevel(s: Sounding)
    requires s.WindsAligned() && s.pressure == [100.0, 99.0]
    ensures HodographTrace(s) == Trace([s.u[0]], [s.v[0]], [s.speed[0]])
  {
    var mask := LevelMask(s.pressure);
    assert mask == [true, false];
    assert KeptFrom(mask, 1) == [];
    assert HodographLevels(s.pressure) == [0];
  }
}
