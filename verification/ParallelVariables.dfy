/** Parallel levels and their variables: what a variable is worth in a thread according to the thread-mask
  analysis, what it is worth in the generated code, and when the two agree.
 */
module ParallelVariables {
  import opened Arithmetic
  import opened Basics

  datatype Level = BLOCK | GROUPx4 | GROUP | THREAD | OTHER

  const THREADS_PER_WARPGROUP := 128
  const THREADS_PER_WARP := 32

  function ThreadsPerUnit(level: Level): nat {
    match level
    case GROUPx4 => THREADS_PER_WARPGROUP
    case GROUP => THREADS_PER_WARP
    case THREAD => 1
    case _ => 0
  }

  predicate IsThreadLevel(level: Level) {
    level.GROUPx4? || level.GROUP? || level.THREAD?
  }

  /** What stands before the body of a parallel. `boundValue` is the whole bound where it is valid, `bounds`
    the bounds of the dimensions; an inner None is a bound not known at compile time. */
  datatype Header = Header(id: nat, level: Level, enforced: bool, subs: seq<string>, bpv: Option<string>,
                           boundValue: Option<Option<int>>, bounds: seq<Option<int>>)

  // ----- what the analysis sees -----

  /** A parallel variable; its bound is -1 when unknown. */
  datatype PVInfo = PVInfo(name: string, level: Level, bound: int)

  datatype Entry = Entry(level: Level, pvs: seq<PVInfo>)

  predicate Declares(h: Header) {
    h.enforced && IsThreadLevel(h.level)
  }

  function Product(bounds: seq<Option<int>>): Option<int> {
    if bounds == [] then Some(1)
    else
      var front := Product(bounds[..|bounds| - 1]);
      var last := bounds[|bounds| - 1];
      if front.Some? && last.Some? then Some(front.value * last.value) else None
  }

  function TotalBound(h: Header): int {
    match h.boundValue
    case Some(v) => if v.Some? then v.value else -1
    case None =>
      var product := if h.bounds == [] then None else Product(h.bounds);
      if product.Some? then product.value else -1
  }

  function SubPV(h: Header, i: nat): PVInfo
    requires i < |h.subs|
  {
    PVInfo(h.subs[i], h.level, if i < |h.bounds| && h.bounds[i].Some? then h.bounds[i].value else -1)
  }

  function SubPVs(h: Header): (pvs: seq<PVInfo>)
    ensures |pvs| == |h.subs| && forall i :: 0 <= i < |pvs| ==> pvs[i] == SubPV(h, i)
  {
    seq(|h.subs|, i requires 0 <= i < |h.subs| => SubPV(h, i))
  }

  function WholePV(h: Header): seq<PVInfo> {
    if h.bpv.Some? then [PVInfo(h.bpv.value, h.level, TotalBound(h))] else []
  }

  function EntryOf(h: Header): (e: Entry)
    ensures e.level == h.level
  {
    Entry(h.level, if Declares(h) then SubPVs(h) + WholePV(h) else [])
  }

  function Entries(scope: seq<Header>): (stack: seq<Entry>)
    ensures |stack| == |scope| && forall k :: 0 <= k < |stack| ==> stack[k] == EntryOf(scope[k])
  {
    seq(|scope|, k requires 0 <= k < |scope| => EntryOf(scope[k]))
  }

  function FindPV(pvs: seq<PVInfo>, name: string): Option<PVInfo> {
    if pvs == [] then None else if pvs[0].name == name then Some(pvs[0]) else FindPV(pvs[1..], name)
  }

  /** The innermost declaration wins. */
  function LookupPV(stack: seq<Entry>, name: string): Option<PVInfo> {
    if stack == [] then None
    else
      var found := FindPV(stack[|stack| - 1].pvs, name);
      if found.Some? then found else LookupPV(stack[..|stack| - 1], name)
  }

  function PVValueForTid(pv: PVInfo, tid: nat): int {
    var stride := ThreadsPerUnit(pv.level);
    if stride <= 0 || pv.bound <= 0 then -1 else tid / stride % pv.bound
  }

  /** The levels below the block are those that have threads in a unit. */
  lemma ThreadLevelIffThreads(level: Level)
    ensures IsThreadLevel(level) <==> ThreadsPerUnit(level) > 0
  {
  }

  /** The product of known bounds multiplies along the list, and one unknown bound makes it unknown. */
  lemma {:induction false} ProductOfBoth(front: seq<Option<int>>, back: seq<Option<int>>)
    ensures Product(front + back) == if Product(front).Some? && Product(back).Some?
                                     then Some(Product(front).value * Product(back).value) else None
    decreases |back|
  {
    if back == [] {
      assert front + back == front;
    } else {
      var init := back[..|back| - 1];
      ProductOfBoth(front, init);
      assert (front + back)[..|front + back| - 1] == front + init;
      if Product(front).Some? && Product(back).Some? {
        var p, q, r := Product(front).value, Product(init).value, back[|back| - 1].value;
        assert (p * q) * r == p * (q * r);
      }
    }
  }

  lemma ProductOfOne(bound: Option<int>)
    ensures Product([bound]) == bound
  {
    assert [bound][..0] == [];
  }

  // ----- what the generated code computes -----

  /** A variable of the innermost header of a nest: one of its dimensions, or the whole. */
  datatype Variable = Sub(scope: seq<Header>, i: nat) | Whole(scope: seq<Header>)

  predicate IsVariable(v: Variable) {
    v.scope != [] && Declares(Innermost(v)) && if v.Sub? then v.i < |Innermost(v).subs| else Innermost(v).bpv.Some?
  }

  function Innermost(v: Variable): Header
    requires v.scope != []
  {
    v.scope[|v.scope| - 1]
  }

  /** What a name stands for in a nest of parallels. */
  function Denotes(scope: seq<Header>, name: string): (v: Option<Variable>)
    ensures v.Some? ==> IsVariable(v.value)
  {
    if scope == [] then None
    else
      var h := scope[|scope| - 1];
      var sub := IndexOf(h.subs, name);
      if Declares(h) && sub.Some? then Some(Sub(scope, sub.value))
      else if Declares(h) && h.bpv == Some(name) then Some(Whole(scope))
      else Denotes(scope[..|scope| - 1], name)
  }

  type Positive = n: nat | n > 0 witness 1

  /** Extents that are known only when the kernel is launched. */
  type Extents = (Header, nat) -> Positive

  function KnownBound(h: Header, i: nat): Option<int> {
    if i < |h.bounds| && h.bounds[i].Some? && h.bounds[i].value > 0 then h.bounds[i] else None
  }

  function Extent(h: Header, i: nat, extents: Extents): Positive {
    if KnownBound(h, i).Some? then KnownBound(h, i).value else extents(h, i)
  }

  /** The product of the extents of the dimensions from one on. */
  function Trailing(h: Header, i: nat, extents: Extents): (p: nat)
    ensures p > 0
    decreases |h.subs| - i
  {
    if i >= |h.subs| then 1
    else
      var inner := Trailing(h, i + 1, extents);
      assert Extent(h, i, extents) * inner > 0;
      Extent(h, i, extents) * inner
  }

  /** The lanes of the innermost enforced group around a parallel. */
  function LaneWidth(outer: seq<Header>): (w: Option<nat>)
    ensures w.Some? ==> w.value > 1
  {
    if outer == [] then None
    else
      var h := outer[|outer| - 1];
      if h.enforced && (h.level.GROUP? || h.level.GROUPx4?) then Some(ThreadsPerUnit(h.level))
      else LaneWidth(outer[..|outer| - 1])
  }

  /** The index among the units of a level: the group of a thread, or its lane within its group. */
  function FlatIndex(outer: seq<Header>, level: Level, tid: nat): nat
    requires IsThreadLevel(level)
  {
    match level
    case GROUPx4 => tid / THREADS_PER_WARPGROUP
    case GROUP => tid / THREADS_PER_WARP
    case _ => if LaneWidth(outer).Some? then tid % LaneWidth(outer).value else tid
  }

  function Outer(v: Variable): seq<Header>
    requires v.scope != []
  {
    v.scope[..|v.scope| - 1]
  }

  /** How many consecutive indices share a value of the variable. */
  function Spread(v: Variable, extents: Extents): (t: nat)
    requires IsVariable(v)
    ensures t > 0
  {
    if v.Sub? then Trailing(Innermost(v), v.i + 1, extents) else 1
  }

  function Range(v: Variable, extents: Extents): Positive
    requires IsVariable(v)
  {
    var h := Innermost(v);
    if v.Sub? then Extent(h, v.i, extents)
    else if TotalBound(h) > 0 then TotalBound(h) else extents(h, |h.subs|)
  }

  /** Dimensions are numbered row by row: the last one runs fastest. */
  function ValueIn(v: Variable, extents: Extents, tid: nat): nat
    requires IsVariable(v)
  {
    FlatIndex(Outer(v), Innermost(v).level, tid) / Spread(v, extents) % Range(v, extents)
  }

  /** 32 consecutive threads form a warp and 128 a warpgroup: both the analysis and the generated code number them
    in the order of the threads. */
  lemma UnitsAreConsecutive(outer: seq<Header>, name: string, bound: int, unit: nat, lane: nat)
    requires unit < bound
    ensures lane < 32 ==> FlatIndex(outer, GROUP, 32 * unit + lane) == unit
                          && PVValueForTid(PVInfo(name, GROUP, bound), 32 * unit + lane) == unit
    ensures lane < 128 ==> FlatIndex(outer, GROUPx4, 128 * unit + lane) == unit
                           && PVValueForTid(PVInfo(name, GROUPx4, bound), 128 * unit + lane) == unit
    ensures PVValueForTid(PVInfo(name, THREAD, bound), unit) == unit
    ensures outer == [] ==> FlatIndex(outer, THREAD, unit) == unit
  {
    Small(unit, bound);
    if lane < 32 { DivisionIs(32 * unit + lane, 32, unit, lane); }
    if lane < 128 { DivisionIs(128 * unit + lane, 128, unit, lane); }
  }

  // ----- looking up finds what the name stands for -----

  function InfoOf(v: Variable): PVInfo
    requires IsVariable(v)
  {
    var h := Innermost(v);
    if v.Sub? then SubPV(h, v.i) else PVInfo(h.bpv.value, h.level, TotalBound(h))
  }

  lemma {:induction false} FindsFirst(pvs: seq<PVInfo>, name: string, k: nat)
    requires k <= |pvs| && (k < |pvs| ==> pvs[k].name == name) && forall j :: 0 <= j < k ==> pvs[j].name != name
    ensures FindPV(pvs, name) == if k < |pvs| then Some(pvs[k]) else None
    decreases k
  {
    if k > 0 { FindsFirst(pvs[1..], name, k - 1); }
  }

  lemma EntryFinds(h: Header, name: string)
    requires Declares(h)
    ensures FindPV(EntryOf(h).pvs, name) ==
              var sub := IndexOf(h.subs, name);
              if sub.Some? then Some(SubPV(h, sub.value))
              else if h.bpv == Some(name) then Some(PVInfo(name, h.level, TotalBound(h))) else None
  {
    hide FindPV, TotalBound;
    var pvs, sub := EntryOf(h).pvs, IndexOf(h.subs, name);
    if sub.Some? {
      FindsFirst(pvs, name, sub.value);
    } else {
      FindsFirst(pvs, name, if h.bpv == Some(name) then |h.subs| else |pvs|);
    }
  }

  /** The stack of entries gives for every name the declaration it stands for. */
  lemma {:induction false} LookupFinds(scope: seq<Header>, name: string)
    ensures var v := Denotes(scope, name);
            LookupPV(Entries(scope), name) == if v.Some? then Some(InfoOf(v.value)) else None
    decreases |scope|
  {
    hide FindPV, TotalBound;
    if scope != [] {
      var h, front := scope[|scope| - 1], scope[..|scope| - 1];
      assert Entries(scope)[..|scope| - 1] == Entries(front);
      LookupFinds(front, name);
      if Declares(h) { EntryFinds(h, name); } else { FindsFirst([], name, 0); }
    }
  }

  // ----- when the analysis has the right value -----

  /** The lanes of a group do not start again in the middle of the variable's range. */
  predicate LanesFit(v: Variable, dim: int)
    requires IsVariable(v)
  {
    var w := LaneWidth(Outer(v));
    Innermost(v).level.THREAD? && w.Some? ==> dim <= w.value || InfoOf(v).bound <= 0 || w.value % InfoOf(v).bound == 0
  }

  /** Either the variable has only one value to take in the block, or no dimension runs faster. */
  predicate IsFlat(v: Variable, extents: Extents, dim: int)
    requires IsVariable(v)
  {
    || InfoOf(v).bound == 1
    || dim <= ThreadsPerUnit(Innermost(v).level)
    || (Spread(v, extents) == 1 && LanesFit(v, dim))
  }

  ghost predicate RightInAllThreads(v: Variable, extents: Extents, dim: int)
    requires IsVariable(v)
  {
    forall tid: nat :: tid < dim ==> PVValueForTid(InfoOf(v), tid) == ValueIn(v, extents, tid)
  }

  lemma RemainderIgnores(x: nat, k: nat, b: nat)
    requires b > 0
    ensures Remainder(Times(k, b) + x, b) == Remainder(x, b)
  {
    hide Times, Quotient, Remainder;
    Division(x, b);
    Distribute(k, Quotient(x, b), b);
    DivisionIs(Times(k, b) + x, b, k + Quotient(x, b), Remainder(x, b));
  }

  lemma RemainderOfLane(tid: nat, w: nat, b: nat)
    requires w > 0 && b > 0 && Remainder(w, b) == 0
    ensures Remainder(Remainder(tid, w), b) == Remainder(tid, b)
  {
    hide Times, Quotient, Remainder;
    var q := Quotient(w, b);
    Division(w, b);
    Division(tid, w);
    Associate(Quotient(tid, w), q, b);
    RemainderIgnores(Remainder(tid, w), Times(Quotient(tid, w), q), b);
  }

  lemma FlatIsRight(v: Variable, extents: Extents, dim: int, tid: nat)
    requires IsVariable(v) && InfoOf(v).bound > 0 && IsFlat(v, extents, dim) && tid < dim
    ensures PVValueForTid(InfoOf(v), tid) == ValueIn(v, extents, tid)
  {
    hide Trailing, LaneWidth, Product;
    var h, b, t := Innermost(v), InfoOf(v).bound, Spread(v, extents);
    assert Range(v, extents) == b;
    var flat := FlatIndex(Outer(v), h.level, tid);
    if b == 1 {
      assert flat / t % 1 == 0 && tid / ThreadsPerUnit(h.level) % 1 == 0;
    } else if dim <= ThreadsPerUnit(h.level) {
      Small(tid, ThreadsPerUnit(h.level));
      assert flat == 0;
      Small(0, t);
    } else {
      assert flat / 1 == flat;
      if h.level.THREAD? && LaneWidth(Outer(v)).Some? {
        var w := LaneWidth(Outer(v)).value;
        if dim <= w { Small(tid, w); } else { RemainderOfLane(tid, w, b); }
      }
    }
  }

  /** A thread in which the analysis has the wrong value. */
  lemma WrongThread(v: Variable, extents: Extents, dim: int) returns (tid: nat)
    requires IsVariable(v) && InfoOf(v).bound > 0 && !IsFlat(v, extents, dim)
    ensures tid < dim && PVValueForTid(InfoOf(v), tid) != ValueIn(v, extents, tid)
  {
    hide Trailing, LaneWidth, Product;
    var h, b, t := Innermost(v), InfoOf(v).bound, Spread(v, extents);
    assert Range(v, extents) == b;
    var unit := ThreadsPerUnit(h.level);
    if t > 1 {
      tid := unit;
      assert unit / unit == 1;
      assert FlatIndex(Outer(v), h.level, unit) == 1;
      Small(1, t);
      Small(1, b);
      Small(0, b);
    } else {
      var w := LaneWidth(Outer(v)).value;
      tid := w;
      assert w % w == 0 && w / 1 == w;
      Small(0, b);
    }
  }

  /** The analysis has the value of a bounded variable right in every thread exactly when the variable is
    flat: for a dimension of several, when the inner extents multiply to 1 or its own is 1. */
  lemma RightIffFlat(v: Variable, extents: Extents, dim: int)
    requires IsVariable(v) && InfoOf(v).bound > 0
    ensures RightInAllThreads(v, extents, dim) <==> IsFlat(v, extents, dim)
  {
    if IsFlat(v, extents, dim) {
      forall tid: nat | tid < dim ensures PVValueForTid(InfoOf(v), tid) == ValueIn(v, extents, tid) {
        FlatIsRight(v, extents, dim, tid);
      }
    } else {
      var tid := WrongThread(v, extents, dim);
    }
  }

  // ----- the dimensions together -----

  /** The index that the values of the dimensions from one on spell, row by row. */
  function Spelled(scope: seq<Header>, i: nat, extents: Extents, tid: nat): nat
    requires scope != [] && Declares(scope[|scope| - 1]) && i <= |scope[|scope| - 1].subs|
    decreases |scope[|scope| - 1].subs| - i
  {
    var h := scope[|scope| - 1];
    if i == |h.subs| then 0
    else ValueIn(Sub(scope, i), extents, tid) * Trailing(h, i + 1, extents) + Spelled(scope, i + 1, extents, tid)
  }

  lemma Digit(x: nat, e: nat, t: nat)
    requires e > 0 && t > 0
    ensures Remainder(x, Times(e, t)) == Times(Remainder(Quotient(x, t), e), t) + Remainder(x, t)
  {
    hide Times, Quotient, Remainder;
    var q := Quotient(x, t);
    Division(x, t);
    Division(q, e);
    Distribute(Times(Quotient(q, e), e), Remainder(q, e), t);
    Associate(Quotient(q, e), e, t);
    Gap(Remainder(q, e), e, t);
    DivisionIs(x, Times(e, t), Quotient(q, e), Times(Remainder(q, e), t) + Remainder(x, t));
  }

  /** The dimensions spell the index of the thread, wrapped at the number of all their combinations. */
  lemma {:induction false} DimensionsSpellIndex(scope: seq<Header>, i: nat, extents: Extents, tid: nat)
    requires scope != [] && Declares(scope[|scope| - 1]) && i <= |scope[|scope| - 1].subs|
    ensures var h := scope[|scope| - 1];
            Spelled(scope, i, extents, tid) == FlatIndex(scope[..|scope| - 1], h.level, tid) % Trailing(h, i, extents)
    decreases |scope[|scope| - 1].subs| - i
  {
    hide FlatIndex, Extent;
    var h := scope[|scope| - 1];
    if i < |h.subs| {
      DimensionsSpellIndex(scope, i + 1, extents, tid);
      Digit(FlatIndex(scope[..|scope| - 1], h.level, tid), Extent(h, i, extents), Trailing(h, i + 1, extents));
    }
  }
}
