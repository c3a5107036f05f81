/** Half-open integer intervals with optional ends, and canonical sets of them. */
module Intervals {
  import opened Basics
  import opened Sorting

  datatype Interval = Interval(lo: Option<int>, hi: Option<int>) {
    predicate IsEmpty() {
      lo.Some? && hi.Some? && lo.value >= hi.value
    }

    predicate Contains(v: int) {
      (lo.Some? ==> lo.value <= v) && (hi.Some? ==> v < hi.value)
    }

    predicate IsUniverse() {
      lo.None? && hi.None?
    }

    predicate IsSingleton() {
      lo.Some? && hi.Some? && hi.value == lo.value + 1
    }
  }

  /** Intersection of two single intervals. */
  function IntersectOne(a: Interval, b: Interval): (r: Interval)
    ensures forall v :: r.Contains(v) <==> a.Contains(v) && b.Contains(v)
  {
    var lo := if a.lo.Some? && b.lo.Some? then Some(if a.lo.value < b.lo.value then b.lo.value else a.lo.value)
              else if a.lo.Some? then a.lo else b.lo;
    var hi := if a.hi.Some? && b.hi.Some? then Some(if b.hi.value < a.hi.value then b.hi.value else a.hi.value)
              else if a.hi.Some? then a.hi else b.hi;
    var r := Interval(lo, hi);
    if r.IsEmpty() then Interval(Some(0), Some(0)) else r
  }

  /** Some interval of the list contains `v`. */
  ghost predicate Has(s: seq<Interval>, v: int) {
    exists i :: 0 <= i < |s| && s[i].Contains(v)
  }

  /** All of `a` lies below all of `b`, which does not begin where `a` ends. */
  ghost predicate IsLeftOf(a: Interval, b: Interval) {
    a.hi.Some? && b.lo.Some? && a.hi.value < b.lo.value
  }

  /** No empty interval, and a gap between any two: the only shape a set of integers can have. */
  ghost predicate Canonical(s: seq<Interval>) {
    && (forall i :: 0 <= i < |s| ==> !s[i].IsEmpty())
    && (forall i, j :: 0 <= i < j < |s| ==> IsLeftOf(s[i], s[j]))
  }

  type IntervalSet = s: seq<Interval> | Canonical(s) witness []

  lemma Inhabited(i: Interval) returns (v: int)
    requires !i.IsEmpty()
    ensures i.Contains(v)
  {
    v := if i.lo.Some? then i.lo.value else if i.hi.Some? then i.hi.value - 1 else 0;
  }

  lemma HasAppend(s: seq<Interval>, i: Interval, v: int)
    ensures Has(s + [i], v) <==> Has(s, v) || i.Contains(v)
  {
    if Has(s, v) {
      var k :| 0 <= k < |s| && s[k].Contains(v);
      assert (s + [i])[k].Contains(v);
    }
    if i.Contains(v) {
      assert (s + [i])[|s|].Contains(v);
    }
  }

  lemma HasConcat(s: seq<Interval>, t: seq<Interval>, v: int)
    ensures Has(s + t, v) <==> Has(s, v) || Has(t, v)
  {
    if Has(s, v) {
      var k :| 0 <= k < |s| && s[k].Contains(v);
      assert (s + t)[k].Contains(v);
    }
    if Has(t, v) {
      var k :| 0 <= k < |t| && t[k].Contains(v);
      assert (s + t)[|s| + k].Contains(v);
    }
  }

  lemma HasSame(s: seq<Interval>, t: seq<Interval>, v: int)
    requires forall i :: i in s ==> i in t
    ensures Has(s, v) ==> Has(t, v)
  {
    if Has(s, v) {
      var k :| 0 <= k < |s| && s[k].Contains(v);
      assert s[k] in t;
      var j :| 0 <= j < |t| && t[j] == s[k];
    }
  }

  // ----- normalisation -----

  predicate StartsBefore(a: Interval, b: Interval) {
    if a.lo.None? then b.lo.Some?
    else b.lo.Some? && a.lo.value < b.lo.value
  }

  function RemoveEmpty(s: seq<Interval>): (r: seq<Interval>)
    ensures forall i :: i in r <==> i in s && !i.IsEmpty()
  {
    if s == [] then []
    else if s[0].IsEmpty() then RemoveEmpty(s[1..])
    else [s[0]] + RemoveEmpty(s[1..])
  }

  lemma RemovingEmptyKeeps(s: seq<Interval>, v: int)
    ensures Has(RemoveEmpty(s), v) <==> Has(s, v)
  {
    HasSame(RemoveEmpty(s), s, v);
    if Has(s, v) {
      var k :| 0 <= k < |s| && s[k].Contains(v);
      assert s[k] in RemoveEmpty(s);
      var j :| 0 <= j < |RemoveEmpty(s)| && RemoveEmpty(s)[j] == s[k];
    }
  }

  predicate CanMerge(top: Interval, cur: Interval) {
    top.hi.None? || cur.lo.None? || cur.lo.value <= top.hi.value
  }

  function Merged(top: Interval, cur: Interval): Interval {
    Interval(if top.lo.None? || cur.lo.None? then None else top.lo,
             if top.hi.None? || cur.hi.None? then None
             else Some(if top.hi.value < cur.hi.value then cur.hi.value else top.hi.value))
  }

  lemma MergedContains(top: Interval, cur: Interval, v: int)
    requires CanMerge(top, cur) && !StartsBefore(cur, top) && !top.IsEmpty()
    ensures Merged(top, cur).Contains(v) <==> top.Contains(v) || cur.Contains(v)
    ensures !Merged(top, cur).IsEmpty() && !StartsBefore(Merged(top, cur), top) && !StartsBefore(top, Merged(top, cur))
  {
  }

  /** `merged` is canonical, stands for the same integers as `s`, and starts its last interval
    no later than any interval still to come. */
  ghost predicate Normal(merged: seq<Interval>, s: seq<Interval>) {
    Canonical(merged) && forall v :: Has(merged, v) <==> Has(s, v)
  }

  lemma NormalNext(merged: seq<Interval>, s: seq<Interval>, cur: Interval)
    requires |merged| > 0 && Normal(merged, s) && !cur.IsEmpty() && !StartsBefore(cur, merged[|merged| - 1])
    ensures var n := |merged| - 1;
            var r := if CanMerge(merged[n], cur) then merged[n := Merged(merged[n], cur)] else merged + [cur];
            Normal(r, s + [cur]) && !StartsBefore(cur, r[|r| - 1])
  {
    var n := |merged| - 1;
    var top, init := merged[n], merged[..n];
    if CanMerge(top, cur) {
      MergedContains(top, cur, 0);
      forall v ensures Has(merged[n := Merged(top, cur)], v) <==> Has(s + [cur], v)
      {
        assert merged == init + [top] && merged[n := Merged(top, cur)] == init + [Merged(top, cur)];
        HasAppend(init, top, v);
        HasAppend(init, Merged(top, cur), v);
        HasAppend(s, cur, v);
        MergedContains(top, cur, v);
      }
    } else {
      forall v ensures Has(merged + [cur], v) <==> Has(s + [cur], v)
      {
        HasAppend(merged, cur, v);
        HasAppend(s, cur, v);
      }
    }
  }

  lemma StartsBeforeIsComparison()
    ensures Comparison(StartsBefore)
  {
  }

  lemma SortedKeeps(ivs: seq<Interval>) returns (s: seq<Interval>)
    ensures s == Sort(RemoveEmpty(ivs), StartsBefore) && SortedBy(StartsBefore, s)
    ensures forall i :: i in s ==> !i.IsEmpty()
    ensures forall v :: Has(s, v) <==> Has(ivs, v)
  {
    var kept := RemoveEmpty(ivs);
    s := Sort(kept, StartsBefore);
    StartsBeforeIsComparison();
    SortSorts(kept, StartsBefore);
    SameElements(kept, s);
    forall v ensures Has(s, v) <==> Has(ivs, v)
    {
      RemovingEmptyKeeps(ivs, v);
      HasSame(kept, s, v);
      HasSame(s, kept, v);
    }
  }

  lemma NormalFirst(i: Interval)
    requires !i.IsEmpty()
    ensures Normal([i], [i])
  {
  }

  method Normalize(ivs: seq<Interval>) returns (r: IntervalSet)
    ensures forall v :: Has(r, v) <==> Has(ivs, v)
  {
    hide Has, Canonical, Normal, Sort, RemoveEmpty, Merged, CanMerge;
    var kept := RemoveEmpty(ivs);
    var s := Sort(kept, StartsBefore);
    ghost var same := SortedKeeps(ivs);
    if s == [] {
      NothingIsCanonical();
      return [];
    }
    var merged := [s[0]];
    assert s[..1] == [s[0]];
    assert s[0] in s;
    NormalFirst(s[0]);
    for i := 1 to |s|
      invariant |merged| > 0 && Normal(merged, s[..i]) && !StartsBefore(s[i - 1], merged[|merged| - 1])
    {
      var top, cur := merged[|merged| - 1], s[i];
      assert s[i] in s && !StartsBefore(s[i], s[i - 1]);
      NormalNext(merged, s[..i], cur);
      assert s[..i + 1] == s[..i] + [cur];
      if CanMerge(top, cur) {
        merged := merged[|merged| - 1 := Merged(top, cur)];
      } else {
        merged := merged + [cur];
      }
    }
    assert s[..|s|] == s;
    NormalIsCanonical(merged, s);
    r := merged;
  }

  lemma NormalIsCanonical(merged: seq<Interval>, s: seq<Interval>)
    requires Normal(merged, s)
    ensures Canonical(merged) && forall v :: Has(merged, v) <==> Has(s, v)
  {
  }

  lemma NothingIsCanonical()
    ensures Canonical([])
  {
  }

  // ----- queries -----

  predicate IsUniverseSet(s: seq<Interval>) {
    |s| == 1 && s[0].IsUniverse()
  }

  predicate IsSingletonSet(s: seq<Interval>) {
    |s| == 1 && s[0].IsSingleton()
  }

  function LowerBound(s: seq<Interval>): Option<int> {
    if s == [] then None else s[0].lo
  }

  function UpperBound(s: seq<Interval>): Option<int> {
    if s == [] then None else s[|s| - 1].hi
  }

  function MakeUniverse(): (s: IntervalSet)
    ensures forall v :: Has(s, v)
  {
    var s := [Interval(None, None)];
    assert forall v :: s[0].Contains(v);
    s
  }

  function MakePoint(p: int): (s: IntervalSet)
    ensures forall v :: Has(s, v) <==> v == p
  {
    var s := [Interval(Some(p), Some(p + 1))];
    assert forall v :: s[0].Contains(v) <==> v == p;
    s
  }

  method Contains(s: IntervalSet, v: int) returns (r: bool)
    ensures r <==> Has(s, v)
  {
    for i := 0 to |s|
      invariant forall k :: 0 <= k < i ==> !s[k].Contains(v)
    {
      if s[i].Contains(v) {
        return true;
      }
    }
    return false;
  }

  /** The bounds of a canonical set are exact: every element obeys them and they cannot be tightened. */
  lemma BoundsAreTight(s: IntervalSet)
    requires s != []
    ensures forall v :: Has(s, v) ==>
              (LowerBound(s).Some? ==> LowerBound(s).value <= v) && (UpperBound(s).Some? ==> v < UpperBound(s).value)
    ensures LowerBound(s).Some? ==> Has(s, LowerBound(s).value)
    ensures UpperBound(s).Some? ==> Has(s, UpperBound(s).value - 1)
  {
    var last := |s| - 1;
    forall v | Has(s, v)
      ensures (s[0].lo.Some? ==> s[0].lo.value <= v) && (s[last].hi.Some? ==> v < s[last].hi.value)
    {
      var k :| 0 <= k < |s| && s[k].Contains(v);
    }
    if s[0].lo.Some? { assert s[0].Contains(s[0].lo.value); }
    if s[last].hi.Some? { assert s[last].Contains(s[last].hi.value - 1); }
  }

  // ----- set algebra -----

  /** Two elements of the two lists that come before the two pointers. */
  ghost predicate Passed(a: seq<Interval>, b: seq<Interval>, i: nat, j: nat, v: int)
  {
    exists k, l :: 0 <= k < |a| && 0 <= l < |b| && (k < i || l < j) && a[k].Contains(v) && b[l].Contains(v)
  }

  method Intersect(a: IntervalSet, b: IntervalSet) returns (r: IntervalSet)
    ensures forall v :: Has(r, v) <==> Has(a, v) && Has(b, v)
  {
    if a == [] || b == [] {
      return [];
    }
    var result: seq<Interval> := [];
    var i, j := 0, 0;
    while i < |a| && j < |b|
      invariant 0 <= i <= |a| && 0 <= j <= |b|
      invariant forall v :: Has(result, v) <==> Passed(a, b, i, j, v)
      decreases |a| - i + |b| - j
    {
      var iv := IntersectOne(a[i], b[j]);
      var advanceA := a[i].hi.Some? && (b[j].hi.None? || a[i].hi.value <= b[j].hi.value);
      ghost var before := result;
      if !iv.IsEmpty() {
        result := result + [iv];
      }
      forall v ensures Has(result, v) <==> Passed(a, b, if advanceA then i + 1 else i, if advanceA then j else j + 1, v)
      {
        HasAppend(before, iv, v);
        if iv.IsEmpty() { assert !iv.Contains(v); }
        PassedNext(a, b, i, j, advanceA, v);
      }
      if advanceA {
        i := i + 1;
      } else {
        j := j + 1;
      }
    }
    r := Normalize(result);
    forall v ensures Has(r, v) <==> Has(a, v) && Has(b, v)
    {
      if Has(a, v) && Has(b, v) {
        var k: nat :| k < |a| && a[k].Contains(v);
        var l: nat :| l < |b| && b[l].Contains(v);
        assert k < i || l < j;
        assert Passed(a, b, i, j, v);
      }
    }
  }

  /** An element of a later interval lies beyond the end of an earlier one. */
  lemma LaterIsBeyond(s: IntervalSet, i: nat, k: nat, v: int)
    requires i < k < |s| && s[k].Contains(v)
    ensures s[i].hi.Some? && s[i].hi.value < v
  {
    assert s[i].hi.value < s[k].lo.value;
  }

  lemma PassedNext(a: IntervalSet, b: IntervalSet, i: nat, j: nat, advanceA: bool, v: int)
    requires i < |a| && j < |b|
    requires advanceA <==> a[i].hi.Some? && (b[j].hi.None? || a[i].hi.value <= b[j].hi.value)
    ensures Passed(a, b, if advanceA then i + 1 else i, if advanceA then j else j + 1, v)
            <==> Passed(a, b, i, j, v) || (a[i].Contains(v) && b[j].Contains(v))
  {
    if k: nat, l: nat :|
      && k < |a| && l < |b| && a[k].Contains(v) && b[l].Contains(v)
      && (if advanceA then k == i && j <= l else l == j && i <= k)
    {
      if j < l { LaterIsBeyond(b, j, l, v); }
      if i < k { LaterIsBeyond(a, i, k, v); }
    }
  }

  method Unite(a: IntervalSet, b: IntervalSet) returns (r: IntervalSet)
    ensures forall v :: Has(r, v) <==> Has(a, v) || Has(b, v)
  {
    var all: seq<Interval> := a + b;
    r := Normalize(all);
    forall v ensures Has(r, v) <==> Has(a, v) || Has(b, v)
    {
      HasConcat(a, b, v);
    }
  }

  method Complement(s: IntervalSet) returns (r: IntervalSet)
    ensures forall v :: Has(r, v) <==> !Has(s, v)
  {
    if s == [] {
      return MakeUniverse();
    }
    if IsUniverseSet(s) {
      assert forall v :: s[0].Contains(v);
      return [];
    }
    var result: seq<Interval> := [];
    var prevHi: Option<int> := None;
    for i := 0 to |s|
      invariant prevHi == if i == 0 then None else s[i - 1].hi
      invariant forall v :: Has(result, v) <==> i > 0 && !Has(s[..i], v) && (prevHi.None? || v < prevHi.value)
    {
      var iv := s[i];
      ghost var before := result;
      if iv.lo.Some? {
        var gap := Interval(prevHi, iv.lo);
        if !gap.IsEmpty() {
          result := result + [gap];
        }
      }
      forall v
        ensures Has(result, v) <==> !Has(s[..i + 1], v) && (iv.hi.None? || v < iv.hi.value)
      {
        GapNext(s, i, prevHi, before, result, v);
      }
      prevHi := iv.hi;
    }
    assert s[..|s|] == s;
    ghost var inner := result;
    if prevHi.Some? {
      result := result + [Interval(prevHi, None)];
    }
    r := Normalize(result);
    forall v ensures Has(r, v) <==> !Has(s, v)
    {
      HasAppend(inner, Interval(prevHi, None), v);
      if Has(s, v) {
        BoundsAreTight(s);
      }
    }
  }

  lemma GapNext(s: IntervalSet, i: nat, prevHi: Option<int>, before: seq<Interval>, result: seq<Interval>, v: int)
    requires i < |s| && prevHi == if i == 0 then None else s[i - 1].hi
    requires Has(before, v) <==> i > 0 && !Has(s[..i], v) && (prevHi.None? || v < prevHi.value)
    requires var gap := Interval(prevHi, s[i].lo);
             result == if s[i].lo.Some? && !gap.IsEmpty() then before + [gap] else before
    ensures Has(result, v) <==> !Has(s[..i + 1], v) && (s[i].hi.None? || v < s[i].hi.value)
  {
    var gap := Interval(prevHi, s[i].lo);
    assert s[..i + 1] == s[..i] + [s[i]];
    HasAppend(s[..i], s[i], v);
    HasAppend(before, gap, v);
    if Has(s[..i], v) {
      var k :| 0 <= k < i && s[..i][k].Contains(v);
      assert s[k].hi.value < s[i].lo.value;
      if k < i - 1 { assert s[k].hi.value < s[i - 1].lo.value; }
    }
  }

  method IsSubsetOf(a: IntervalSet, b: IntervalSet) returns (r: bool)
    ensures r <==> forall v :: Has(a, v) ==> Has(b, v)
  {
    var outside := Complement(b);
    var diff := Intersect(a, outside);
    r := diff == [];
    if diff != [] {
      var v := Inhabited(diff[0]);
      assert Has(diff, v);
    }
  }

  /** Structural equality decides equality of the sets. */
  lemma {:induction false} EqualityIsExact(a: IntervalSet, b: IntervalSet)
    ensures a == b <==> forall v :: Has(a, v) <==> Has(b, v)
    decreases |a|
  {
    if forall v :: Has(a, v) <==> Has(b, v) {
      if a == [] || b == [] {
        if a != [] { var v := Inhabited(a[0]); assert Has(a, v); }
        if b != [] { var v := Inhabited(b[0]); assert Has(b, v); }
      } else {
        FirstIsSame(a, b);
        forall v ensures Has(a[1..], v) <==> Has(b[1..], v)
        {
          TailHas(a, v);
          TailHas(b, v);
        }
        TailIsCanonical(a);
        TailIsCanonical(b);
        EqualityIsExact(a[1..], b[1..]);
        assert a == [a[0]] + a[1..] && b == [b[0]] + b[1..];
      }
    }
  }

  lemma TailIsCanonical(s: IntervalSet)
    requires s != []
    ensures Canonical(s[1..])
  {
    var t := s[1..];
    forall i | 0 <= i < |t| ensures !t[i].IsEmpty()
    {
      assert t[i] == s[i + 1];
    }
    forall i, j | 0 <= i < j < |t| ensures IsLeftOf(t[i], t[j])
    {
      assert t[i] == s[i + 1] && t[j] == s[j + 1] && IsLeftOf(s[i + 1], s[j + 1]);
    }
  }

  lemma TailHas(s: IntervalSet, v: int)
    requires s != []
    ensures Has(s[1..], v) <==> Has(s, v) && s[0].hi.Some? && v >= s[0].hi.value
  {
    if Has(s, v) {
      var k :| 0 <= k < |s| && s[k].Contains(v);
      if k > 0 { assert s[1..][k - 1].Contains(v); }
    }
    if Has(s[1..], v) {
      var k :| 0 <= k < |s[1..]| && s[1..][k].Contains(v);
      assert s[k + 1].Contains(v) && s[0].hi.value < s[k + 1].lo.value;
    }
  }

  lemma FirstIsSame(a: IntervalSet, b: IntervalSet)
    requires a != [] && b != [] && forall v :: Has(a, v) <==> Has(b, v)
    ensures a[0] == b[0]
  {
    StartsNoLater(a, b);
    StartsNoLater(b, a);
    EndsNoLater(a, b);
    EndsNoLater(b, a);
  }

  lemma StartsNoLater(a: IntervalSet, b: IntervalSet)
    requires a != [] && b != [] && forall v :: Has(a, v) ==> Has(b, v)
    ensures b[0].lo.Some? ==> a[0].lo.Some? && b[0].lo.value <= a[0].lo.value
  {
    BoundsAreTight(b);
    if b[0].lo.Some? {
      var low := b[0].lo.value - 1;
      var v := if a[0].lo.Some? then a[0].lo.value
               else if a[0].hi.Some? && a[0].hi.value - 1 < low then a[0].hi.value - 1 else low;
      assert a[0].Contains(v);
      assert Has(a, v);
    }
  }

  lemma EndsNoLater(a: IntervalSet, b: IntervalSet)
    requires a != [] && b != [] && a[0].lo == b[0].lo && forall v :: Has(a, v) ==> Has(b, v)
    ensures b[0].hi.Some? ==> a[0].hi.Some? && a[0].hi.value <= b[0].hi.value
  {
    if b[0].hi.Some? {
      GapAfterFirst(b);
      HeadIsIn(a, b[0].hi.value);
    }
  }

  lemma GapAfterFirst(s: IntervalSet)
    requires s != [] && s[0].hi.Some?
    ensures !Has(s, s[0].hi.value)
  {
  }

  lemma HeadIsIn(s: seq<Interval>, v: int)
    requires s != []
    ensures s[0].Contains(v) ==> Has(s, v)
  {
  }
}
