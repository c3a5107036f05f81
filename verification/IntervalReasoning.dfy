/** Interval arithmetic, evaluation of symbolic expressions and predicates over intervals, and
  projection of a predicate onto one symbol, each against all concrete assignments.
 */
module IntervalReasoning {
  import opened Basics
  import opened Intervals

  // ----- arithmetic on sets -----

  function AddOne(a: Interval, b: Interval): Interval {
    Interval(if a.lo.Some? && b.lo.Some? then Some(a.lo.value + b.lo.value) else None,
             if a.hi.Some? && b.hi.Some? then Some(a.hi.value + b.hi.value - 1) else None)
  }

  /** Every element of the sum of two nonempty intervals is a sum of elements. */
  lemma SumSplits(a: Interval, b: Interval, v: int) returns (x: int)
    requires !a.IsEmpty() && !b.IsEmpty()
    ensures AddOne(a, b).Contains(v) ==> a.Contains(x) && b.Contains(v - x)
  {
    if b.lo.Some? {
      x := v - b.lo.value;
      if a.hi.Some? && a.hi.value <= x { x := a.hi.value - 1; }
    } else if a.lo.Some? {
      x := a.lo.value;
      if b.hi.Some? && b.hi.value <= v - x { x := v - b.hi.value + 1; }
    } else {
      x := if b.hi.Some? then v - b.hi.value + 1 else v;
      if a.hi.Some? && a.hi.value <= x { x := a.hi.value - 1; }
    }
  }

  function NegOne(a: Interval): (r: Interval)
    ensures forall v :: r.Contains(v) <==> a.Contains(-v)
  {
    Interval(if a.hi.Some? then Some(-a.hi.value + 1) else None,
             if a.lo.Some? then Some(-a.lo.value + 1) else None)
  }

  function SubOne(a: Interval, b: Interval): Interval {
    Interval(if a.lo.Some? && b.hi.Some? then Some(a.lo.value - b.hi.value + 1) else None,
             if a.hi.Some? && b.lo.Some? then Some(a.hi.value - b.lo.value) else None)
  }

  function MulOne(a: Interval, b: Interval): Interval {
    Interval(if a.lo.Some? && b.lo.Some? then Some(a.lo.value * b.lo.value) else None,
             if a.hi.Some? && b.hi.Some? then Some((a.hi.value - 1) * (b.hi.value - 1) + 1) else None)
  }

  lemma MulOneCovers(a: Interval, b: Interval, y: int, z: int)
    requires a.Contains(y) && b.Contains(z)
    requires a.lo.Some? && b.lo.Some? && a.lo.value >= 0 && b.lo.value >= 0
    ensures MulOne(a, b).Contains(y * z)
  {
    ProductMonotone(a.lo.value, y, b.lo.value, z);
    if a.hi.Some? && b.hi.Some? {
      ProductMonotone(y, a.hi.value - 1, z, b.hi.value - 1);
    }
  }

  lemma ProductMonotone(a: int, b: int, c: int, d: int)
    requires 0 <= a <= b && 0 <= c <= d
    ensures a * c <= b * d
  {
    assert a * c <= b * c by { assert (b - a) * c >= 0; }
    assert b * c <= b * d by { assert b * (d - c) >= 0; }
  }

  /** Some pair before `(i, j)` in row order satisfies `p`. */
  ghost predicate SomePair(a: seq<Interval>, b: seq<Interval>, op: (Interval, Interval) -> Interval, i: nat, j: nat,
                           v: int)
  {
    exists k, l :: 0 <= k < |a| && 0 <= l < |b| && (k < i || (k == i && l < j)) && op(a[k], b[l]).Contains(v)
  }

  /** The intervals of `op` over all pairs. */
  method Pairwise(a: seq<Interval>, b: seq<Interval>, op: (Interval, Interval) -> Interval) returns (r: IntervalSet)
    ensures forall v :: Has(r, v) <==> SomePair(a, b, op, |a|, 0, v)
  {
    var result: seq<Interval> := [];
    for i := 0 to |a|
      invariant forall v :: Has(result, v) <==> SomePair(a, b, op, i, 0, v)
    {
      for j := 0 to |b|
        invariant forall v :: Has(result, v) <==> SomePair(a, b, op, i, j, v)
      {
        forall v ensures Has(result + [op(a[i], b[j])], v) <==> SomePair(a, b, op, i, j + 1, v)
        {
          HasAppend(result, op(a[i], b[j]), v);
        }
        result := result + [op(a[i], b[j])];
      }
      assert forall v :: SomePair(a, b, op, i, |b|, v) <==> SomePair(a, b, op, i + 1, 0, v);
    }
    r := Normalize(result);
  }

  ghost predicate IsSum(a: seq<Interval>, b: seq<Interval>, v: int) {
    exists x, y :: Has(a, x) && Has(b, y) && v == x + y
  }

  ghost predicate IsDifference(a: seq<Interval>, b: seq<Interval>, v: int) {
    exists x, y :: Has(a, x) && Has(b, y) && v == x - y
  }

  lemma PairHasSum(a: IntervalSet, b: IntervalSet, k: nat, l: nat, v: int)
    requires k < |a| && l < |b| && AddOne(a[k], b[l]).Contains(v)
    ensures IsSum(a, b, v)
  {
    var x := SumSplits(a[k], b[l], v);
    assert Has(a, x) && Has(b, v - x) && v == x + (v - x);
  }

  lemma SumHasPair(a: IntervalSet, b: IntervalSet, x: int, y: int)
    requires Has(a, x) && Has(b, y)
    ensures SomePair(a, b, AddOne, |a|, 0, x + y)
  {
    var k :| 0 <= k < |a| && a[k].Contains(x);
    var l :| 0 <= l < |b| && b[l].Contains(y);
    assert AddOne(a[k], b[l]).Contains(x + y);
  }

  lemma PairHasDifference(a: IntervalSet, b: IntervalSet, k: nat, l: nat, v: int)
    requires k < |a| && l < |b| && SubOne(a[k], b[l]).Contains(v)
    ensures IsDifference(a, b, v)
  {
    var x := SumSplits(a[k], NegOne(b[l]), v);
    assert SubOne(a[k], b[l]) == AddOne(a[k], NegOne(b[l]));
    assert NegOne(b[l]).Contains(v - x);
    assert Has(a, x) && Has(b, x - v) && v == x - (x - v);
  }

  lemma DifferenceHasPair(a: IntervalSet, b: IntervalSet, x: int, y: int)
    requires Has(a, x) && Has(b, y)
    ensures SomePair(a, b, SubOne, |a|, 0, x - y)
  {
    var k :| 0 <= k < |a| && a[k].Contains(x);
    var l :| 0 <= l < |b| && b[l].Contains(y);
    assert SubOne(a[k], b[l]).Contains(x - y);
  }

  method IntervalAdd(a: IntervalSet, b: IntervalSet) returns (r: IntervalSet)
    ensures forall v :: Has(r, v) <==> IsSum(a, b, v)
  {
    if a == [] || b == [] {
      return [];
    }
    r := Pairwise(a, b, AddOne);
    forall v ensures Has(r, v) <==> IsSum(a, b, v)
    {
      if SomePair(a, b, AddOne, |a|, 0, v) {
        var k: nat, l: nat :| k < |a| && l < |b| && AddOne(a[k], b[l]).Contains(v);
        PairHasSum(a, b, k, l, v);
      }
      if x, y :| Has(a, x) && Has(b, y) && v == x + y { SumHasPair(a, b, x, y); }
    }
  }

  method IntervalSub(a: IntervalSet, b: IntervalSet) returns (r: IntervalSet)
    ensures forall v :: Has(r, v) <==> IsDifference(a, b, v)
  {
    if a == [] || b == [] {
      return [];
    }
    r := Pairwise(a, b, SubOne);
    forall v ensures Has(r, v) <==> IsDifference(a, b, v)
    {
      if SomePair(a, b, SubOne, |a|, 0, v) {
        var k: nat, l: nat :| k < |a| && l < |b| && SubOne(a[k], b[l]).Contains(v);
        PairHasDifference(a, b, k, l, v);
      }
      if x, y :| Has(a, x) && Has(b, y) && v == x - y { DifferenceHasPair(a, b, x, y); }
    }
  }

  method IntervalNeg(a: IntervalSet) returns (r: IntervalSet)
    ensures forall v :: Has(r, v) <==> Has(a, -v)
  {
    if a == [] {
      return [];
    }
    var result: seq<Interval> := [];
    for i := 0 to |a|
      invariant forall v :: Has(result, v) <==> Has(a[..i], -v)
    {
      forall v ensures Has(result + [NegOne(a[i])], v) <==> Has(a[..i + 1], -v)
      {
        HasAppend(result, NegOne(a[i]), v);
        assert a[..i + 1] == a[..i] + [a[i]];
        HasAppend(a[..i], a[i], -v);
      }
      result := result + [NegOne(a[i])];
    }
    assert a[..|a|] == a;
    r := Normalize(result);
  }

  predicate ProvablyGE(s: seq<Interval>, v: int) {
    s == [] || (LowerBound(s).Some? && LowerBound(s).value >= v)
  }

  /** One interval holds only zero and the other has no upper end. */
  predicate IsZeroTimesUnbounded(i: Interval, j: Interval) {
    (i == Interval(Some(0), Some(1)) && j.hi.None?) || (j == Interval(Some(0), Some(1)) && i.hi.None?)
  }

  ghost predicate ReachedFromAbove(i: Interval, j: Interval, v: int) {
    exists x, y :: i.Contains(x) && j.Contains(y) && v <= x * y
  }

  /** A product of one interval's elements with another's lies at or below `v`, and one at or above it unless
    zero is multiplied with something unbounded. */
  ghost predicate IsEnclosed(i: Interval, j: Interval, v: int) {
    && (exists x, y :: i.Contains(x) && j.Contains(y) && x * y <= v)
    && (!IsZeroTimesUnbounded(i, j) ==> ReachedFromAbove(i, j, v))
  }

  ghost predicate IsEnclosedBySome(a: seq<Interval>, b: seq<Interval>, v: int) {
    exists k, l :: 0 <= k < |a| && 0 <= l < |b| && IsEnclosed(a[k], b[l], v)
  }

  lemma EndsAreProducts(i: Interval, j: Interval, v: int)
    requires !i.IsEmpty() && !j.IsEmpty() && MulOne(i, j).Contains(v)
    requires i.lo.Some? && j.lo.Some? && i.lo.value >= 0 && j.lo.value >= 0
    ensures IsEnclosed(i, j, v)
  {
    assert i.Contains(i.lo.value) && j.Contains(j.lo.value);
    if i.hi.Some? && j.hi.Some? {
      assert i.Contains(i.hi.value - 1) && j.Contains(j.hi.value - 1);
    } else if !IsZeroTimesUnbounded(i, j) {
      if j.hi.None? { GrowsWithout(i, j, v); } else { GrowsWithout(j, i, v); }
    }
  }

  /** Multiples of a positive element by elements without bound exceed everything. */
  lemma GrowsWithout(i: Interval, j: Interval, v: int)
    requires !i.IsEmpty() && j.hi.None? && i != Interval(Some(0), Some(1))
    requires i.lo.Some? && j.lo.Some? && i.lo.value >= 0 && j.lo.value >= 0
    ensures ReachedFromAbove(i, j, v) && ReachedFromAbove(j, i, v)
  {
    var x := if i.lo.value > 0 then i.lo.value else 1;
    var y := if v > j.lo.value then v else j.lo.value;
    assert i.Contains(x) && j.Contains(y);
    ProductMonotone(1, x, y, y);
    assert x * y == y * x;
  }

  /** The exception is one: all products with zero are zero, and the result still has no upper end. */
  lemma ZeroTimesUnboundedIsLoose(i: Interval, j: Interval, v: int)
    requires IsZeroTimesUnbounded(i, j) && i.lo.Some? && j.lo.Some? && v > 0
    ensures MulOne(i, j).Contains(v) && !ReachedFromAbove(i, j, v)
  {
    forall x, y | i.Contains(x) && j.Contains(y) ensures x * y == 0 {
      assert x == 0 || y == 0;
    }
  }

  // ----- products of sets of integers -----

  ghost predicate IsRange(a: iset<int>, lo: int, hi: int) {
    lo <= hi && forall z :: lo <= z <= hi ==> z in a
  }

  /** Zero stands alone in one set, and the other goes on without end from an element. */
  ghost predicate ZeroTimesRay(a: iset<int>, x: int, b: iset<int>, y: int) {
    x == 0 && 1 !in a && forall z :: z >= y ==> z in b
  }

  /** What the product of two sets holds: everything if an element may be negative, and otherwise what lies between
    the products of the ends of a range in one and a range in the other. */
  ghost predicate IsProduct(a: iset<int>, b: iset<int>, v: int) {
    && (exists x :: x in a) && (exists y :: y in b)
    && (|| (exists x :: x in a && x < 0) || (exists y :: y in b && y < 0)
        || exists x, x', y, y' :: IsBetween(a, b, v, x, x', y, y'))
  }

  ghost predicate IsBetween(a: iset<int>, b: iset<int>, v: int, x: int, x': int, y: int, y': int) {
    && IsRange(a, x, x') && IsRange(b, y, y') && x * y <= v
    && (v <= x' * y' || ZeroTimesRay(a, x, b, y) || ZeroTimesRay(b, y, a, x))
  }

  ghost function Elements(s: seq<Interval>): iset<int> {
    iset v | Has(s, v)
  }

  lemma SignOfBound(s: IntervalSet)
    requires s != []
    ensures ProvablyGE(s, 0) <==> forall v :: Has(s, v) ==> v >= 0
    ensures exists v :: v in Elements(s)
  {
    BoundsAreTight(s);
    var v := LowElement(s, -1);
    assert v in Elements(s);
  }

  /** What an interval ends before is in no other. */
  lemma EndIsMissing(s: IntervalSet, k: nat)
    requires k < |s| && s[k].hi.Some?
    ensures s[k].hi.value !in Elements(s)
  {
    var z := s[k].hi.value;
    forall l | 0 <= l < |s| ensures !s[l].Contains(z) {
      if l < k {
        assert IsLeftOf(s[l], s[k]) && !s[k].IsEmpty();
      } else if k < l {
        assert IsLeftOf(s[k], s[l]);
      }
    }
  }

  /** A range of elements lies in one interval. */
  lemma RangeInOne(s: IntervalSet, k: nat, lo: int, hi: int)
    requires k < |s| && s[k].Contains(lo) && IsRange(Elements(s), lo, hi)
    ensures s[k].Contains(hi)
  {
    if s[k].hi.Some? { EndIsMissing(s, k); }
  }

  lemma RayHasNoEnd(s: IntervalSet, k: nat, lo: int)
    requires k < |s| && s[k].Contains(lo) && forall z :: z >= lo ==> z in Elements(s)
    ensures s[k].hi.None?
  {
    if s[k].hi.Some? { EndIsMissing(s, k); }
  }

  lemma InOneInterval(s: IntervalSet, k: nat, lo: int, hi: int)
    requires k < |s| && s[k].Contains(lo) && s[k].Contains(hi) && lo <= hi
    ensures IsRange(Elements(s), lo, hi)
  {
    forall z | lo <= z <= hi ensures z in Elements(s) { assert s[k].Contains(z); }
  }

  lemma PairIsProduct(a: IntervalSet, b: IntervalSet, k: nat, l: nat, v: int)
    requires k < |a| && l < |b| && MulOne(a[k], b[l]).Contains(v) && ProvablyGE(a, 0) && ProvablyGE(b, 0)
    ensures IsProduct(Elements(a), Elements(b), v)
  {
    AllNonNegative(a, k);
    AllNonNegative(b, l);
    SignOfBound(a);
    SignOfBound(b);
    EndsAreProducts(a[k], b[l], v);
    var x, y := a[k].lo.value, b[l].lo.value;
    assert a[k].Contains(x) && b[l].Contains(y);
    if IsZeroTimesUnbounded(a[k], b[l]) {
      InOneInterval(a, k, x, x);
      InOneInterval(b, l, y, y);
      if a[k] == Interval(Some(0), Some(1)) && b[l].hi.None? {
        EndIsMissing(a, k);
        forall z | z >= y ensures z in Elements(b) { InOneInterval(b, l, y, z); }
      } else {
        EndIsMissing(b, l);
        forall z | z >= x ensures z in Elements(a) { InOneInterval(a, k, x, z); }
      }
      assert IsBetween(Elements(a), Elements(b), v, x, x, y, y);
    } else {
      var x', y' :| a[k].Contains(x') && b[l].Contains(y') && v <= x' * y';
      InOneInterval(a, k, x, x');
      InOneInterval(b, l, y, y');
      assert IsBetween(Elements(a), Elements(b), v, x, x', y, y');
    }
  }

  lemma ProductHasPair(a: IntervalSet, b: IntervalSet, v: int)
    requires IsProduct(Elements(a), Elements(b), v) && a != [] && b != [] && ProvablyGE(a, 0) && ProvablyGE(b, 0)
    ensures SomePair(a, b, MulOne, |a|, 0, v)
  {
    SignOfBound(a);
    SignOfBound(b);
    var x, x', y, y' :| IsBetween(Elements(a), Elements(b), v, x, x', y, y');
    assert x in Elements(a) && y in Elements(b);
    var k :| 0 <= k < |a| && a[k].Contains(x);
    var l :| 0 <= l < |b| && b[l].Contains(y);
    AllNonNegative(a, k);
    AllNonNegative(b, l);
    RangeInOne(a, k, x, x');
    RangeInOne(b, l, y, y');
    ProductMonotone(a[k].lo.value, x, b[l].lo.value, y);
    if ZeroTimesRay(Elements(a), x, Elements(b), y) {
      RayHasNoEnd(b, l, y);
    } else if ZeroTimesRay(Elements(b), y, Elements(a), x) {
      RayHasNoEnd(a, k, x);
    } else if a[k].hi.Some? && b[l].hi.Some? {
      ProductMonotone(x', a[k].hi.value - 1, y', b[l].hi.value - 1);
    }
    assert MulOne(a[k], b[l]).Contains(v);
  }

  /** Holds every product. Of operands that are not negative it holds nothing that does not lie between products
    of elements of two of their intervals, but for the products of zero with an unbounded interval, for which
    it has no upper end. */
  method IntervalMul(a: IntervalSet, b: IntervalSet) returns (r: IntervalSet)
    ensures forall x, y :: Has(a, x) && Has(b, y) ==> Has(r, x * y)
    ensures ProvablyGE(a, 0) && ProvablyGE(b, 0) ==> forall v :: Has(r, v) ==> IsEnclosedBySome(a, b, v)
    ensures ProvablyGE(a, 0) && ProvablyGE(b, 0) ==>
              forall k, l, v :: 0 <= k < |a| && 0 <= l < |b| && MulOne(a[k], b[l]).Contains(v) ==> Has(r, v)
    ensures forall v :: Has(r, v) <==> IsProduct(Elements(a), Elements(b), v)
  {
    hide IsBetween, Elements;
    if a == [] || b == [] {
      NoElements();
      return [];
    }
    SignOfBound(a);
    SignOfBound(b);
    if !ProvablyGE(a, 0) || !ProvablyGE(b, 0) {
      NegativeHasAll(a, b);
      return MakeUniverse();
    }
    r := Pairwise(a, b, MulOne);
    forall x, y | Has(a, x) && Has(b, y) ensures Has(r, x * y)
    {
      var k :| 0 <= k < |a| && a[k].Contains(x);
      var l :| 0 <= l < |b| && b[l].Contains(y);
      AllNonNegative(a, k);
      AllNonNegative(b, l);
      MulOneCovers(a[k], b[l], x, y);
      assert SomePair(a, b, MulOne, |a|, 0, x * y);
    }
    forall k, l, v | 0 <= k < |a| && 0 <= l < |b| && MulOne(a[k], b[l]).Contains(v) ensures Has(r, v)
    {
      assert SomePair(a, b, MulOne, |a|, 0, v);
    }
    forall v ensures Has(r, v) <==> IsProduct(Elements(a), Elements(b), v)
    {
      if SomePair(a, b, MulOne, |a|, 0, v) {
        var k: nat, l: nat :| k < |a| && l < |b| && MulOne(a[k], b[l]).Contains(v);
        PairIsProduct(a, b, k, l, v);
      }
      if IsProduct(Elements(a), Elements(b), v) { ProductHasPair(a, b, v); }
    }
    forall v | Has(r, v) ensures IsEnclosedBySome(a, b, v)
    {
      var k: nat, l: nat :| k < |a| && l < |b| && MulOne(a[k], b[l]).Contains(v);
      AllNonNegative(a, k);
      AllNonNegative(b, l);
      EndsAreProducts(a[k], b[l], v);
    }
  }

  lemma NoElements()
    ensures Elements([]) == iset{}
  {
  }

  lemma NegativeHasAll(a: IntervalSet, b: IntervalSet)
    requires a != [] && b != [] && !(ProvablyGE(a, 0) && ProvablyGE(b, 0))
    ensures forall v :: IsProduct(Elements(a), Elements(b), v)
  {
    SignOfBound(a);
    SignOfBound(b);
    if !ProvablyGE(a, 0) {
      var x :| Has(a, x) && x < 0;
      assert x in Elements(a);
    } else {
      var y :| Has(b, y) && y < 0;
      assert y in Elements(b);
    }
  }

  lemma AllNonNegative(s: IntervalSet, k: int)
    requires 0 <= k < |s| && ProvablyGE(s, 0)
    ensures s[k].lo.Some? && s[k].lo.value >= 0
  {
    if k > 0 {
      assert s[0].hi.value < s[k].lo.value && !s[0].IsEmpty();
    }
  }

  // ----- symbolic operands -----

  datatype OpCode =
    | ADD | SUBTRACT | MULTIPLY | DIVIDE | IRES | POWER
    | NOT | AND | OR
    | GT | LT | EQ | GE | LE | NE
    | OTHER

  predicate IsCompare(op: OpCode) {
    op == GT || op == LT || op == EQ || op == GE || op == LE || op == NE
  }

  /** An operand in normal form; `Null` is a missing one. */
  datatype Operand =
    | Null
    | Numeric(number: int)
    | Boolean(truth: bool)
    | Symbolic(name: string)
    | Unary(op: OpCode, operand: Operand)
    | Binary(op: OpCode, left: Operand, right: Operand)

  /** A concrete assignment: a value for every symbol, and for every operand interval reasoning
    does not look into. */
  datatype World = World(symbol: string -> int, opaqueValue: Operand -> int, opaqueTruth: Operand -> bool)

  function Value(e: Operand, w: World): int {
    match e
    case Numeric(n) => n
    case Symbolic(name) => w.symbol(name)
    case Binary(op, l, r) =>
      (match op
       case ADD => Value(l, w) + Value(r, w)
       case SUBTRACT => Value(l, w) - Value(r, w)
       case MULTIPLY => Value(l, w) * Value(r, w)
       case _ => w.opaqueValue(e))
    case Unary(op, x) => if op == SUBTRACT then -Value(x, w) else w.opaqueValue(e)
    case _ => w.opaqueValue(e)
  }

  predicate Compare(op: OpCode, x: int, y: int)
    requires IsCompare(op)
  {
    match op
    case LT => x < y
    case LE => x <= y
    case GT => x > y
    case GE => x >= y
    case EQ => x == y
    case NE => x != y
  }

  predicate Truth(p: Operand, w: World) {
    match p
    case Boolean(b) => b
    case Unary(op, x) => if op == NOT then !Truth(x, w) else w.opaqueTruth(p)
    case Binary(op, l, r) =>
      if op == AND then Truth(l, w) && Truth(r, w)
      else if op == OR then Truth(l, w) || Truth(r, w)
      else if IsCompare(op) then Compare(op, Value(l, w), Value(r, w))
      else w.opaqueTruth(p)
    case _ => w.opaqueTruth(p)
  }

  type ConstraintEnv = map<string, IntervalSet>

  ghost predicate Admits(env: ConstraintEnv, w: World) {
    forall name :: name in env ==> Has(env[name], w.symbol(name))
  }

  // ----- evaluation -----

  ghost function Values(e: Operand, env: ConstraintEnv): iset<int>
    decreases e, 1
  {
    iset v | Possible(e, env, v)
  }

  /** A value the expression can take when every occurrence of a symbol is chosen on its own, and products are
    rounded up to whole ranges. */
  ghost predicate Possible(e: Operand, env: ConstraintEnv, v: int)
    decreases e, 0
  {
    match e
    case Numeric(n) => v == n
    case Symbolic(name) => name in env ==> Has(env[name], v)
    case Binary(ADD, l, r) => exists x, y :: Possible(l, env, x) && Possible(r, env, y) && v == x + y
    case Binary(SUBTRACT, l, r) => exists x, y :: Possible(l, env, x) && Possible(r, env, y) && v == x - y
    case Binary(MULTIPLY, l, r) => IsProduct(Values(l, env), Values(r, env), v)
    case Unary(SUBTRACT, operand) => Possible(operand, env, -v)
    case _ => true
  }

  /** The interval of an expression contains its value in every admitted world, and holds nothing but values the
    expression can take. */
  method EvalExprInterval(e: Operand, env: ConstraintEnv) returns (r: IntervalSet)
    ensures forall w :: Admits(env, w) ==> Has(r, Value(e, w))
    ensures forall v :: Has(r, v) <==> Possible(e, env, v)
  {
    hide IsProduct, Elements;
    match e
    case Numeric(n) => r := MakePoint(n);
    case Symbolic(name) => r := if name in env then env[name] else MakeUniverse();
    case Binary(op, left, right) =>
      var lhs := EvalExprInterval(left, env);
      var rhs := EvalExprInterval(right, env);
      match op {
        case ADD => r := IntervalAdd(lhs, rhs);
        case SUBTRACT => r := IntervalSub(lhs, rhs);
        case MULTIPLY =>
          r := IntervalMul(lhs, rhs);
          SameElements(lhs, left, env);
          SameElements(rhs, right, env);
        case _ => r := MakeUniverse();
      }
    case Unary(op, operand) =>
      if op == SUBTRACT {
        var inner := EvalExprInterval(operand, env);
        r := IntervalNeg(inner);
      } else {
        r := MakeUniverse();
      }
    case _ => r := MakeUniverse();
  }

  lemma SameElements(s: IntervalSet, e: Operand, env: ConstraintEnv)
    requires forall v :: Has(s, v) <==> Possible(e, env, v)
    ensures Elements(s) == Values(e, env)
  {
    hide Possible, Has;
  }

  /** Some elements of the two sets compare this way. */
  ghost predicate Happens(op: OpCode, lhs: seq<Interval>, rhs: seq<Interval>, result: bool)
    requires IsCompare(op)
  {
    exists x, y :: Has(lhs, x) && Has(rhs, y) && Compare(op, x, y) == result
  }

  lemma HighElement(s: IntervalSet, least: int) returns (v: int)
    requires s != []
    ensures Has(s, v) && if UpperBound(s).Some? then v == UpperBound(s).value - 1 else v >= least
  {
    BoundsAreTight(s);
    var top := s[|s| - 1];
    v := if top.hi.Some? then top.hi.value - 1
         else if top.lo.Some? && top.lo.value > least then top.lo.value else least;
    assert UpperBound(s).None? ==> top.Contains(v);
  }

  lemma LowElement(s: IntervalSet, most: int) returns (v: int)
    requires s != []
    ensures Has(s, v) && if LowerBound(s).Some? then v == LowerBound(s).value else v <= most
  {
    BoundsAreTight(s);
    var bottom := s[0];
    v := if bottom.lo.Some? then bottom.lo.value
         else if bottom.hi.Some? && bottom.hi.value <= most then bottom.hi.value - 1 else most;
    assert LowerBound(s).None? ==> bottom.Contains(v);
  }

  /** Unless the bounds forbid it, an element of `a` lies at least `d` above one of `b`. */
  lemma FarApart(a: IntervalSet, b: IntervalSet, d: int) returns (x: int, y: int)
    requires a != [] && b != []
    requires !(UpperBound(a).Some? && LowerBound(b).Some? && UpperBound(a).value <= LowerBound(b).value + d)
    ensures Has(a, x) && Has(b, y) && x - y >= d
  {
    if UpperBound(a).Some? {
      x := HighElement(a, 0);
      y := LowElement(b, x - d);
    } else {
      y := LowElement(b, 0);
      x := HighElement(a, y + d);
    }
  }

  lemma BothHappen(op: OpCode, lhs: IntervalSet, rhs: IntervalSet)
    requires op == LT || op == LE || op == GT || op == GE
    requires lhs != [] && rhs != []
    requires var d := if op == LT || op == GE then 0 else 1;
             && !(UpperBound(lhs).Some? && LowerBound(rhs).Some? && UpperBound(lhs).value <= LowerBound(rhs).value + d)
             && !(UpperBound(rhs).Some? && LowerBound(lhs).Some?
                  && UpperBound(rhs).value <= LowerBound(lhs).value + 1 - d)
    ensures Happens(op, lhs, rhs, true) && Happens(op, lhs, rhs, false)
  {
    var d := if op == LT || op == GE then 0 else 1;
    var x, y := FarApart(lhs, rhs, d);
    var y', x' := FarApart(rhs, lhs, 1 - d);
    assert Compare(op, x, y) != Compare(op, x', y');
  }

  /** Comparing two nonempty sets by their bounds decides exactly when all their elements agree. */
  method CompareSets(op: OpCode, lhs: IntervalSet, rhs: IntervalSet) returns (r: Option<bool>)
    requires IsCompare(op) && lhs != [] && rhs != []
    ensures r == Some(true) <==> !Happens(op, lhs, rhs, false)
    ensures r == Some(false) <==> !Happens(op, lhs, rhs, true)
  {
    var ll, lu, rl, ru := LowerBound(lhs), UpperBound(lhs), LowerBound(rhs), UpperBound(rhs);
    BoundsAreTight(lhs);
    BoundsAreTight(rhs);
    SomethingHappens(op, lhs, rhs);
    r := None;
    match op {
      case LT =>
        if lu.Some? && rl.Some? && lu.value <= rl.value { r := Some(true); }
        else if ll.Some? && ru.Some? && ll.value + 1 >= ru.value { r := Some(false); }
      case LE =>
        if lu.Some? && rl.Some? && lu.value <= rl.value + 1 { r := Some(true); }
        else if ll.Some? && ru.Some? && ll.value >= ru.value { r := Some(false); }
      case GT =>
        if ll.Some? && ru.Some? && ll.value >= ru.value { r := Some(true); }
        else if lu.Some? && rl.Some? && lu.value <= rl.value + 1 { r := Some(false); }
      case GE =>
        if ll.Some? && ru.Some? && ll.value + 1 >= ru.value { r := Some(true); }
        else if lu.Some? && rl.Some? && lu.value <= rl.value { r := Some(false); }
      case EQ =>
        r := CompareEqual(lhs, rhs);
      case NE =>
        var equal := CompareEqual(lhs, rhs);
        r := if equal.Some? then Some(!equal.value) else None;
        EqualAndUnequal(lhs, rhs);
    }
    if r.None? && op != EQ && op != NE {
      BothHappen(op, lhs, rhs);
    }
  }

  lemma SomethingHappens(op: OpCode, lhs: IntervalSet, rhs: IntervalSet)
    requires IsCompare(op) && lhs != [] && rhs != []
    ensures Happens(op, lhs, rhs, true) || Happens(op, lhs, rhs, false)
  {
    var x := LowElement(lhs, 0);
    var y := LowElement(rhs, 0);
    assert Happens(op, lhs, rhs, Compare(op, x, y));
  }

  lemma EqualAndUnequal(lhs: IntervalSet, rhs: IntervalSet)
    ensures Happens(NE, lhs, rhs, true) <==> Happens(EQ, lhs, rhs, false)
    ensures Happens(NE, lhs, rhs, false) <==> Happens(EQ, lhs, rhs, true)
  {
    forall x, y ensures Compare(NE, x, y) == !Compare(EQ, x, y) {}
  }

  lemma TwoElements(s: IntervalSet) returns (v: int, w: int)
    requires s != [] && !IsSingletonSet(s)
    ensures Has(s, v) && Has(s, w) && v != w
  {
    if LowerBound(s).Some? {
      v := LowElement(s, 0);
      w := SecondElement(s);
    } else {
      v := HighElement(s, 0);
      w := LowElement(s, v - 1);
    }
  }

  method CompareEqual(lhs: IntervalSet, rhs: IntervalSet) returns (r: Option<bool>)
    requires lhs != [] && rhs != []
    ensures r == Some(true) <==> !Happens(EQ, lhs, rhs, false)
    ensures r == Some(false) <==> !Happens(EQ, lhs, rhs, true)
  {
    SomethingHappens(EQ, lhs, rhs);
    if IsSingletonSet(lhs) && IsSingletonSet(rhs) && lhs[0].lo == rhs[0].lo {
      return Some(true);
    }
    var common := Intersect(lhs, rhs);
    r := if common == [] then Some(false) else None;
    if common == [] {
      forall x, y | Has(lhs, x) && Has(rhs, y) ensures x != y
      {
        assert !Has(common, x);
      }
    } else {
      var z := LowElement(common, 0);
      assert Compare(EQ, z, z) && Happens(EQ, lhs, rhs, true);
      SomeDiffer(lhs, rhs);
    }
  }

  lemma SomeDiffer(lhs: IntervalSet, rhs: IntervalSet)
    requires lhs != [] && rhs != []
    requires !(IsSingletonSet(lhs) && IsSingletonSet(rhs) && lhs[0].lo == rhs[0].lo)
    ensures Happens(EQ, lhs, rhs, false)
  {
    var x := LowElement(lhs, 0);
    var y := LowElement(rhs, 0);
    if !IsSingletonSet(lhs) {
      var v, w := TwoElements(lhs);
      assert !Compare(EQ, v, y) || !Compare(EQ, w, y);
    } else if !IsSingletonSet(rhs) {
      var v, w := TwoElements(rhs);
      assert !Compare(EQ, x, v) || !Compare(EQ, x, w);
    } else {
      assert !Compare(EQ, x, y);
    }
  }

  /** Some possible values of two expressions compare this way. */
  ghost predicate CanCompare(op: OpCode, l: Operand, r: Operand, env: ConstraintEnv, result: bool)
    requires IsCompare(op)
  {
    exists x, y :: Possible(l, env, x) && Possible(r, env, y) && Compare(op, x, y) == result
  }

  /** The predicate can have this truth value when every occurrence of a symbol is chosen on its own. */
  ghost predicate MayBe(p: Operand, env: ConstraintEnv, b: bool) {
    match p
    case Boolean(t) => t == b
    case Unary(op, x) => op == NOT ==> MayBe(x, env, !b)
    case Binary(op, l, r) =>
      if op == AND || op == OR then
        if b == (op == AND) then MayBe(l, env, b) && MayBe(r, env, b) else MayBe(l, env, b) || MayBe(r, env, b)
      else IsCompare(op) ==> CanCompare(op, l, r, env, b)
    case _ => true
  }

  /** What is compared has some possible value. */
  ghost predicate HasValues(p: Operand, env: ConstraintEnv) {
    match p
    case Unary(op, x) => op == NOT ==> HasValues(x, env)
    case Binary(op, l, r) =>
      if op == AND || op == OR then HasValues(l, env) && HasValues(r, env)
      else IsCompare(op) ==>
        && (exists x :: Possible(l, env, x)) && (exists y :: Possible(r, env, y))
    case _ => true
  }

  /** The answer that evaluation gives: nothing is said about a comparison of something without values, and otherwise
    all values must compare alike. */
  ghost predicate Answers(p: Operand, env: ConstraintEnv, b: bool) {
    match p
    case Boolean(t) => t == b
    case Unary(op, x) => op == NOT && Answers(x, env, !b)
    case Binary(op, l, r) =>
      if op == AND || op == OR then
        if b == (op == AND) then Answers(l, env, b) && Answers(r, env, b) else Answers(l, env, b) || Answers(r, env, b)
      else
        && IsCompare(op) && HasValues(p, env) && !CanCompare(op, l, r, env, !b)
    case _ => false
  }

  /** Where everything that is compared has values there is an answer exactly when the truth values the predicate can
    have agree. */
  lemma {:induction false} AnswersIffAgree(p: Operand, env: ConstraintEnv, b: bool)
    requires HasValues(p, env)
    ensures Answers(p, env, b) <==> !MayBe(p, env, !b)
  {
    match p
    case Unary(op, x) => if op == NOT { AnswersIffAgree(x, env, !b); }
    case Binary(op, l, r) =>
      if op == AND || op == OR {
        AnswersIffAgree(l, env, b);
        AnswersIffAgree(r, env, b);
      }
    case _ =>
  }

  lemma {:induction false} NoTwoAnswers(p: Operand, env: ConstraintEnv)
    ensures !(Answers(p, env, true) && Answers(p, env, false))
  {
    match p
    case Unary(op, x) => if op == NOT { NoTwoAnswers(x, env); }
    case Binary(op, l, r) =>
      if op == AND || op == OR {
        NoTwoAnswers(l, env);
        NoTwoAnswers(r, env);
      } else if IsCompare(op) && HasValues(p, env) {
        var x :| Possible(l, env, x);
        var y :| Possible(r, env, y);
        assert CanCompare(op, l, r, env, Compare(op, x, y));
      }
    case _ =>
  }

  /** The answer is the one specified, and is right in every admitted world. */
  method EvalPredInterval(p: Operand, env: ConstraintEnv) returns (r: Option<bool>)
    ensures r.Some? ==> forall w :: Admits(env, w) ==> Truth(p, w) == r.value
    ensures forall b :: r == Some(b) <==> Answers(p, env, b)
  {
    hide Possible;
    NoTwoAnswers(p, env);
    match p
    case Boolean(b) => r := Some(b);
    case Unary(op, operand) =>
      if op == NOT {
        var inner := EvalPredInterval(operand, env);
        r := if inner.Some? then Some(!inner.value) else None;
      } else {
        r := None;
      }
    case Binary(op, left, right) =>
      if op == AND {
        var a := EvalPredInterval(left, env);
        var b := EvalPredInterval(right, env);
        if a == Some(false) || b == Some(false) { r := Some(false); }
        else if a == Some(true) && b == Some(true) { r := Some(true); }
        else { r := None; }
      } else if op == OR {
        var a := EvalPredInterval(left, env);
        var b := EvalPredInterval(right, env);
        if a == Some(true) || b == Some(true) { r := Some(true); }
        else if a == Some(false) && b == Some(false) { r := Some(false); }
        else { r := None; }
      } else if !IsCompare(op) {
        r := None;
      } else {
        var lhs := EvalExprInterval(left, env);
        var rhs := EvalExprInterval(right, env);
        if lhs == [] || rhs == [] {
          r := None;
        } else {
          r := CompareSets(op, lhs, rhs);
          assert forall b :: CanCompare(op, left, right, env, b) <==> Happens(op, lhs, rhs, b);
          SignOfBound(lhs);
          SignOfBound(rhs);
        }
      }
    case _ => r := None;
  }

  // ----- products compared with numbers -----

  /** The values of an expression are the numbers from one to another, none of them negative. */
  ghost predicate Ranges(e: Operand, env: ConstraintEnv, lo: int, hi: int) {
    0 <= lo <= hi && forall v :: Possible(e, env, v) <==> lo <= v <= hi
  }

  lemma RangeValues(e: Operand, env: ConstraintEnv, lo: int, hi: int)
    requires Ranges(e, env, lo, hi)
    ensures forall v :: v in Values(e, env) <==> lo <= v <= hi
  {
  }

  /** The product of two such ranges is the range between the products of their ends. */
  lemma ProductOfRanges(l: Operand, r: Operand, env: ConstraintEnv, a: int, b: int, c: int, d: int)
    requires Ranges(l, env, a, b) && Ranges(r, env, c, d)
    ensures Ranges(Binary(MULTIPLY, l, r), env, a * c, b * d)
  {
    hide Possible;
    var xs, ys := Values(l, env), Values(r, env);
    RangeValues(l, env, a, b);
    RangeValues(r, env, c, d);
    ProductMonotone(a, b, c, d);
    ProductMonotone(0, a, 0, c);
    assert a in xs && c in ys;
    forall v ensures IsProduct(xs, ys, v) <==> a * c <= v <= b * d {
      if a * c <= v <= b * d { assert IsBetween(xs, ys, v, a, b, c, d); }
      forall x, x', y, y' | IsBetween(xs, ys, v, x, x', y, y') ensures a * c <= v <= b * d {
        assert x in xs && x' in xs && y in ys && y' in ys;
        ProductMonotone(a, x, c, y);
        ProductMonotone(x', b, y', d);
        assert b + 1 !in xs && d + 1 !in ys;
      }
    }
    ProductIsPossible(l, r, env);
  }

  lemma ProductIsPossible(l: Operand, r: Operand, env: ConstraintEnv)
    ensures forall v :: Possible(Binary(MULTIPLY, l, r), env, v) <==> IsProduct(Values(l, env), Values(r, env), v)
  {
    hide IsProduct;
  }

  /** Such a product compared with a number gets an answer exactly if the products of the ends decide it. */
  lemma EndsDecideProduct(op: OpCode, l: Operand, r: Operand, n: int, env: ConstraintEnv, a: int, b: int, c: int,
                          d: int, t: bool)
    requires IsCompare(op) && Ranges(l, env, a, b) && Ranges(r, env, c, d)
    ensures Answers(Binary(op, Binary(MULTIPLY, l, r), Numeric(n)), env, t) <==>
              if op == EQ || op == NE then
                if t == (op == EQ) then a * c == n == b * d else n < a * c || b * d < n
              else Compare(op, a * c, n) == t && Compare(op, b * d, n) == t
  {
    hide Possible;
    var e := Binary(MULTIPLY, l, r);
    ProductOfRanges(l, r, env, a, b, c, d);
    NumberIsPossible(n, env);
    assert Possible(e, env, a * c) && Possible(Numeric(n), env, n);
    forall x ensures Possible(e, env, x) && Compare(op, x, n) != t ==> CanCompare(op, e, Numeric(n), env, !t) {}
    assert Possible(e, env, b * d);
    if a * c <= n <= b * d { assert Possible(e, env, n); }
  }

  lemma NumberIsPossible(n: int, env: ConstraintEnv)
    ensures forall v :: Possible(Numeric(n), env, v) <==> v == n
  {
  }

  // ----- projection onto one symbol -----

  /** `e` as the symbol plus a constant, when it has that form. */
  function DecomposeLinear(e: Operand, sym: string): (offset: Option<int>)
    ensures offset.Some? ==> forall w: World :: Value(e, w) == w.symbol(sym) + offset.value
  {
    match e
    case Symbolic(name) => if name == sym then Some(0) else None
    case Binary(ADD, l, r) =>
      if r.Numeric? && DecomposeLinear(l, sym).Some? then Some(DecomposeLinear(l, sym).value + r.number)
      else if l.Numeric? && DecomposeLinear(r, sym).Some? then Some(DecomposeLinear(r, sym).value + l.number)
      else None
    case Binary(SUBTRACT, l, r) =>
      if r.Numeric? && DecomposeLinear(l, sym).Some? then Some(DecomposeLinear(l, sym).value - r.number)
      else None
    case _ => None
  }

  /** One way an expression shifts a symbol by a number. */
  datatype Shift = AddRight(number: int) | AddLeft(number: int) | SubtractRight(number: int)

  /** The symbol with shifts applied to it one after another. */
  function Shifted(sym: string, shifts: seq<Shift>): Operand {
    if shifts == [] then Symbolic(sym)
    else
      var inner := Shifted(sym, shifts[..|shifts| - 1]);
      match shifts[|shifts| - 1]
      case AddRight(n) => Binary(ADD, inner, Numeric(n))
      case AddLeft(n) => Binary(ADD, Numeric(n), inner)
      case SubtractRight(n) => Binary(SUBTRACT, inner, Numeric(n))
  }

  function TotalShift(shifts: seq<Shift>): int {
    if shifts == [] then 0
    else
      var last := shifts[|shifts| - 1];
      TotalShift(shifts[..|shifts| - 1]) + if last.SubtractRight? then -last.number else last.number
  }

  lemma {:induction false} ShiftedDecomposes(sym: string, shifts: seq<Shift>)
    ensures DecomposeLinear(Shifted(sym, shifts), sym) == Some(TotalShift(shifts))
    decreases |shifts|
  {
    if shifts != [] { ShiftedDecomposes(sym, shifts[..|shifts| - 1]); }
  }

  lemma {:induction false} DecomposedIsShifted(e: Operand, sym: string) returns (shifts: seq<Shift>)
    requires DecomposeLinear(e, sym).Some?
    ensures e == Shifted(sym, shifts)
  {
    if e.Symbolic? {
      shifts := [];
    } else {
      var inner, last := e.left, AddRight(0);
      if e.op == SUBTRACT {
        last := SubtractRight(e.right.number);
      } else if e.right.Numeric? && DecomposeLinear(e.left, sym).Some? {
        last := AddRight(e.right.number);
      } else {
        inner, last := e.right, AddLeft(e.left.number);
      }
      var before := DecomposedIsShifted(inner, sym);
      shifts := before + [last];
      assert shifts[..|shifts| - 1] == before;
    }
  }

  /** Exactly the expressions that shift the symbol by numbers, again and again, are decomposed. */
  lemma DecomposesIffShifted(e: Operand, sym: string, offset: int)
    ensures DecomposeLinear(e, sym) == Some(offset) <==>
              exists shifts :: e == Shifted(sym, shifts) && TotalShift(shifts) == offset
  {
    if DecomposeLinear(e, sym) == Some(offset) {
      var shifts := DecomposedIsShifted(e, sym);
      ShiftedDecomposes(sym, shifts);
    }
    forall shifts | e == Shifted(sym, shifts) ensures DecomposeLinear(e, sym) == Some(TotalShift(shifts)) {
      ShiftedDecomposes(sym, shifts);
    }
  }

  /** The comparison seen from the other side. */
  function Mirror(op: OpCode): (r: OpCode)
    ensures IsCompare(op) ==> IsCompare(r) && forall x, y :: Compare(op, x, y) == Compare(r, y, x)
  {
    match op
    case LT => GT
    case LE => GE
    case GT => LT
    case GE => LE
    case _ => op
  }

  /** The constant that stands for the other side of a comparison: a number, or one end of the
    interval of a symbol. */
  function BoundOf(bound: Operand, symOnLeft: bool, env: ConstraintEnv): Option<int> {
    match bound
    case Numeric(n) => Some(n)
    case Symbolic(name) =>
      if name !in env then None
      else if symOnLeft then UpperBound(env[name]) else LowerBound(env[name])
    case _ => None
  }

  /** What one side of a comparison says about the symbol: an operation and a constant. */
  datatype Limit = Anything | Limit(op: OpCode, bound: int)

  function SideLimit(op: OpCode, side: Operand, bound: Operand, symOnLeft: bool, sym: string,
                     env: ConstraintEnv): (r: Limit)
    requires IsCompare(op)
    ensures r.Limit? ==> IsCompare(r.op)
  {
    var offset := DecomposeLinear(side, sym);
    var b := BoundOf(bound, symOnLeft, env);
    if offset.None? || b.None? then Anything
    else Limit(if symOnLeft then op else Mirror(op), b.value - offset.value)
  }

  /** The limit a comparison puts on the symbol; the left side is tried first. */
  function AtomLimit(p: Operand, sym: string, env: ConstraintEnv): (r: Limit)
    requires p.Binary? && IsCompare(p.op)
    ensures r.Limit? ==> IsCompare(r.op)
  {
    var left := SideLimit(p.op, p.left, p.right, true, sym, env);
    if left.Limit? then left else SideLimit(p.op, p.right, p.left, false, sym, env)
  }

  /** The last element of the set, if it has one: the set ends right behind it. */
  lemma LastElement(s: IntervalSet, top: int)
    requires Has(s, top) && forall y :: Has(s, y) ==> y <= top
    ensures UpperBound(s) == Some(top + 1)
  {
    var v := HighElement(s, top + 1);
  }

  lemma FirstElement(s: IntervalSet, bottom: int)
    requires Has(s, bottom) && forall y :: Has(s, y) ==> bottom <= y
    ensures LowerBound(s) == Some(bottom)
  {
    var v := LowElement(s, bottom - 1);
  }

  predicate Within(limit: Limit, v: int)
    requires limit.Limit? ==> IsCompare(limit.op)
  {
    limit.Anything? || Compare(limit.op, v, limit.bound)
  }

  method LimitSet(limit: Limit) returns (r: IntervalSet)
    requires limit.Limit? ==> IsCompare(limit.op)
    ensures forall v :: Has(r, v) <==> Within(limit, v)
  {
    if limit.Anything? {
      return MakeUniverse();
    }
    var a := limit.bound;
    match limit.op
    case LT => r := Single(Interval(None, Some(a)));
    case LE => r := Single(Interval(None, Some(a + 1)));
    case GT => r := Single(Interval(Some(a + 1), None));
    case GE => r := Single(Interval(Some(a), None));
    case EQ => r := MakePoint(a);
    case NE =>
      r := MakePoint(a);
      r := Complement(r);
  }

  function Single(i: Interval): (s: IntervalSet)
    ensures forall v :: Has(s, v) <==> i.Contains(v)
  {
    var s := if i.IsEmpty() then [] else [i];
    assert !i.IsEmpty() ==> s[0] == i;
    s
  }

  /** The projection of a predicate, as a set of integers. */
  ghost predicate InProjection(p: Operand, sym: string, env: ConstraintEnv, v: int)
  {
    match p
    case Boolean(b) => b
    case Unary(op, x) => op == NOT ==> !InProjection(x, sym, env, v)
    case Binary(op, l, r) =>
      if op == AND then InProjection(l, sym, env, v) && InProjection(r, sym, env, v)
      else if op == OR then InProjection(l, sym, env, v) || InProjection(r, sym, env, v)
      else if IsCompare(op) then Within(AtomLimit(p, sym, env), v)
      else true
    case _ => true
  }

  /** A comparison with another symbol limits the symbol by what is known of the other: from the left by the place
    behind its last value, from the right by its first value. */
  lemma SymbolLimits(op: OpCode, sym: string, name: string, env: ConstraintEnv, end: int, v: int)
    requires IsCompare(op) && sym != name && name in env && Has(env[name], end)
    ensures (forall y :: Has(env[name], y) ==> y <= end) ==>
              (InProjection(Binary(op, Symbolic(sym), Symbolic(name)), sym, env, v) <==> Compare(op, v, end + 1))
    ensures (forall y :: Has(env[name], y) ==> end <= y) ==>
              (InProjection(Binary(op, Symbolic(name), Symbolic(sym)), sym, env, v) <==> Compare(op, end, v))
  {
    hide Has, UpperBound, LowerBound;
    if forall y :: Has(env[name], y) ==> y <= end { LastElement(env[name], end); }
    if forall y :: Has(env[name], y) ==> end <= y { FirstElement(env[name], end); }
  }

  method ProjectConstraint(p: Operand, sym: string, env: ConstraintEnv) returns (r: IntervalSet)
    ensures forall v :: Has(r, v) <==> InProjection(p, sym, env, v)
    ensures IsExact(p, sym) ==> forall w: World :: Has(r, w.symbol(sym)) <==> Truth(p, w)
    ensures IsSound(p, sym, env) ==> forall w :: Admits(env, w) && Truth(p, w) ==> Has(r, w.symbol(sym))
  {
    match p {
      case Boolean(b) => r := if b then MakeUniverse() else [];
      case Unary(op, operand) =>
        if op == NOT {
          r := ProjectConstraint(operand, sym, env);
          r := Complement(r);
        } else {
          r := MakeUniverse();
        }
      case Binary(op, left, right) =>
        if op == AND {
          var a := ProjectConstraint(left, sym, env);
          var b := ProjectConstraint(right, sym, env);
          r := Intersect(a, b);
        } else if op == OR {
          var a := ProjectConstraint(left, sym, env);
          var b := ProjectConstraint(right, sym, env);
          r := Unite(a, b);
        } else if IsCompare(op) {
          r := LimitSet(AtomLimit(p, sym, env));
        } else {
          r := MakeUniverse();
        }
      case _ => r := MakeUniverse();
    }
    if IsExact(p, sym) {
      forall w: World ensures Has(r, w.symbol(sym)) <==> Truth(p, w) { ExactProjection(p, sym, env, w); }
    }
    if IsSound(p, sym, env) {
      forall w | Admits(env, w) && Truth(p, w) ensures Has(r, w.symbol(sym)) { SoundProjection(p, sym, env, w, true); }
    }
  }

  /** AND, OR and NOT over comparisons of `sym + k` with a number, on either side. */
  predicate IsExact(p: Operand, sym: string) {
    match p
    case Boolean(_) => true
    case Unary(op, x) => op == NOT && IsExact(x, sym)
    case Binary(op, l, r) =>
      if op == AND || op == OR then IsExact(l, sym) && IsExact(r, sym)
      else
        && IsCompare(op)
        && ((DecomposeLinear(l, sym).Some? && r.Numeric?) || (DecomposeLinear(r, sym).Some? && l.Numeric?))
    case _ => false
  }

  /** The limit comes from the left side of the comparison. */
  predicate LimitsLeft(p: Operand, sym: string, env: ConstraintEnv)
    requires p.Binary? && IsCompare(p.op)
  {
    SideLimit(p.op, p.left, p.right, true, sym, env).Limit?
  }

  /** The operand whose value or interval bounds the symbol. */
  function BoundSide(p: Operand, sym: string, env: ConstraintEnv): Operand
    requires p.Binary? && IsCompare(p.op)
  {
    if LimitsLeft(p, sym, env) then p.right else p.left
  }

  /** The bound of the comparison comes from the interval of a symbol. */
  predicate UsesSymbolicBound(p: Operand, sym: string, env: ConstraintEnv)
    requires p.Binary? && IsCompare(p.op)
  {
    AtomLimit(p, sym, env).Limit? && BoundSide(p, sym, env).Symbolic?
  }

  /** One end of an interval may stand for a symbol only under `<` and `<=`, or when it is its
    inclusive end and the interval holds one value. */
  predicate Trusted(p: Operand, sym: string, env: ConstraintEnv)
    requires p.Binary? && IsCompare(p.op)
  {
    UsesSymbolicBound(p, sym, env) ==>
      || p.op == LT || p.op == LE
      || (!LimitsLeft(p, sym, env) && IsSingletonSet(env[BoundSide(p, sym, env).name]))
  }

  /** The comparison that holds exactly where this one does not. */
  function Negated(op: OpCode): (r: OpCode)
    ensures IsCompare(op) ==> IsCompare(r) && forall x, y :: Compare(r, x, y) == !Compare(op, x, y)
  {
    match op
    case LT => GE
    case GE => LT
    case LE => GT
    case GT => LE
    case EQ => NE
    case NE => EQ
    case _ => op
  }

  function Opposite(p: Operand): (r: Operand)
    requires p.Binary? && IsCompare(p.op)
    ensures r.Binary? && IsCompare(r.op) && forall w :: Truth(r, w) == !Truth(p, w)
  {
    Binary(Negated(p.op), p.left, p.right)
  }

  /** Under an even number of negations a comparison must be trusted; under an odd number it must limit
    the symbol, and the opposite comparison must be trusted. */
  predicate SoundWhen(p: Operand, sym: string, env: ConstraintEnv, positive: bool) {
    match p
    case Boolean(_) => true
    case Unary(op, x) => if op == NOT then SoundWhen(x, sym, env, !positive) else positive
    case Binary(op, l, r) =>
      if op == AND || op == OR then SoundWhen(l, sym, env, positive) && SoundWhen(r, sym, env, positive)
      else if !IsCompare(op) then positive
      else if positive then Trusted(p, sym, env)
      else AtomLimit(p, sym, env).Limit? && Trusted(Opposite(p), sym, env)
    case _ => positive
  }

  predicate IsSound(p: Operand, sym: string, env: ConstraintEnv) {
    SoundWhen(p, sym, env, true)
  }

  /** The opposite comparison puts the opposite limit on the symbol, if any. */
  lemma OppositeLimit(p: Operand, sym: string, env: ConstraintEnv, v: int)
    requires p.Binary? && IsCompare(p.op)
    ensures AtomLimit(Opposite(p), sym, env).Limit? == AtomLimit(p, sym, env).Limit?
    ensures LimitsLeft(Opposite(p), sym, env) == LimitsLeft(p, sym, env)
    ensures AtomLimit(p, sym, env).Limit? ==>
              Within(AtomLimit(Opposite(p), sym, env), v) == !Within(AtomLimit(p, sym, env), v)
  {
  }

  lemma {:induction false} ExactIsSound(p: Operand, sym: string, env: ConstraintEnv, positive: bool)
    requires IsExact(p, sym)
    ensures SoundWhen(p, sym, env, positive)
  {
    match p
    case Unary(op, x) => ExactIsSound(x, sym, env, !positive);
    case Binary(op, l, r) =>
      if op == AND || op == OR {
        ExactIsSound(l, sym, env, positive);
        ExactIsSound(r, sym, env, positive);
      } else {
        OppositeLimit(p, sym, env, 0);
      }
    case _ =>
  }

  lemma {:induction false} ExactProjection(p: Operand, sym: string, env: ConstraintEnv, w: World)
    requires IsExact(p, sym)
    ensures InProjection(p, sym, env, w.symbol(sym)) <==> Truth(p, w)
  {
    match p
    case Unary(op, x) => ExactProjection(x, sym, env, w);
    case Binary(op, l, r) =>
      if op == AND || op == OR {
        ExactProjection(l, sym, env, w);
        ExactProjection(r, sym, env, w);
      } else {
        AtomMeaning(p, sym, env, w);
      }
    case _ =>
  }

  /** Against a number, a comparison says exactly what its limit says. */
  lemma AtomMeaning(p: Operand, sym: string, env: ConstraintEnv, w: World)
    requires p.Binary? && IsCompare(p.op)
    ensures SideLimit(p.op, p.left, p.right, true, sym, env).Limit? && p.right.Numeric? ==>
              (Within(AtomLimit(p, sym, env), w.symbol(sym)) <==> Truth(p, w))
    ensures SideLimit(p.op, p.left, p.right, true, sym, env).Anything?
            && SideLimit(p.op, p.right, p.left, false, sym, env).Limit?
            && p.left.Numeric? ==>
              (Within(AtomLimit(p, sym, env), w.symbol(sym)) <==> Truth(p, w))
  {
    var l, r := Value(p.left, w), Value(p.right, w);
    assert Compare(p.op, l, r) == Compare(Mirror(p.op), r, l);
  }

  lemma {:induction false} SoundProjection(p: Operand, sym: string, env: ConstraintEnv, w: World, positive: bool)
    requires SoundWhen(p, sym, env, positive) && Admits(env, w) && Truth(p, w) == positive
    ensures InProjection(p, sym, env, w.symbol(sym)) == positive
  {
    match p
    case Unary(op, x) => if op == NOT { SoundProjection(x, sym, env, w, !positive); }
    case Binary(op, l, r) =>
      if op == AND || op == OR {
        if Truth(l, w) == positive { SoundProjection(l, sym, env, w, positive); }
        if Truth(r, w) == positive { SoundProjection(r, sym, env, w, positive); }
      } else if IsCompare(op) && positive {
        SoundAtom(p, sym, env, w);
      } else if IsCompare(op) {
        SoundAtom(Opposite(p), sym, env, w);
        OppositeLimit(p, sym, env, w.symbol(sym));
      }
    case _ =>
  }

  lemma SoundAtom(p: Operand, sym: string, env: ConstraintEnv, w: World)
    requires p.Binary? && IsCompare(p.op) && Trusted(p, sym, env) && Admits(env, w) && Truth(p, w)
    ensures Within(AtomLimit(p, sym, env), w.symbol(sym))
  {
    AtomMeaning(p, sym, env, w);
    if UsesSymbolicBound(p, sym, env) {
      var name := BoundSide(p, sym, env).name;
      BoundsAreTight(env[name]);
      assert Has(env[name], w.symbol(name));
    }
  }

  // ----- where projection goes wrong -----

  function SomeElement(s: IntervalSet): (v: int)
    requires s != []
    ensures Has(s, v)
  {
    var v := if s[0].lo.Some? then s[0].lo.value else if s[0].hi.Some? then s[0].hi.value - 1 else 0;
    assert s[0].Contains(v);
    v
  }

  /** The world that gives two symbols chosen values and every other one some allowed value. */
  function Witness(env: ConstraintEnv, sym: string, v: int, other: string, y: int): (w: World)
    ensures w.symbol(other) == y && (sym != other ==> w.symbol(sym) == v)
  {
    World(name => if name == other then y else if name == sym then v
                  else if name in env && env[name] != [] then SomeElement(env[name]) else 0,
          _ => 0, _ => false)
  }

  lemma WitnessIsAdmitted(env: ConstraintEnv, sym: string, v: int, other: string, y: int)
    requires other in env && Has(env[other], y) && sym !in env && forall name :: name in env ==> env[name] != []
    ensures Admits(env, Witness(env, sym, v, other, y))
  {
  }

  /** A set with a least element and no single value has an element above it. */
  lemma SecondElement(s: IntervalSet) returns (v: int)
    requires s != [] && LowerBound(s).Some? && !IsSingletonSet(s)
    ensures Has(s, v) && v > LowerBound(s).value
  {
    if |s| > 1 {
      v := s[1].lo.value;
      assert s[1].Contains(v) && s[0].hi.value < v && !s[0].IsEmpty();
    } else {
      v := s[0].lo.value + 1;
      assert s[0].Contains(v);
    }
  }

  /** A comparison whose symbolic bound cannot be trusted is true in some admitted world whose
    value the projection excludes. */
  lemma UntrustedAtomLies(p: Operand, sym: string, env: ConstraintEnv) returns (w: World)
    requires p.Binary? && IsCompare(p.op) && !Trusted(p, sym, env)
    requires sym !in env && forall name :: name in env ==> env[name] != []
    ensures Admits(env, w) && Truth(p, w) && !InProjection(p, sym, env, w.symbol(sym))
  {
    if LimitsLeft(p, sym, env) {
      w := UntrustedUpperEnd(p, sym, env);
    } else {
      w := UntrustedLowerEnd(p, sym, env);
    }
  }

  lemma UntrustedUpperEnd(p: Operand, sym: string, env: ConstraintEnv) returns (w: World)
    requires p.Binary? && IsCompare(p.op) && !Trusted(p, sym, env) && LimitsLeft(p, sym, env)
    requires sym !in env && forall name :: name in env ==> env[name] != []
    ensures Admits(env, w) && Truth(p, w) && !InProjection(p, sym, env, w.symbol(sym))
  {
    hide Has;
    var name := p.right.name;
    BoundsAreTight(env[name]);
    var offset, top := DecomposeLinear(p.left, sym).value, UpperBound(env[name]).value;
    var v := if p.op == GT || p.op == NE then top else top - 1;
    w := Witness(env, sym, v - offset, name, top - 1);
    WitnessIsAdmitted(env, sym, v - offset, name, top - 1);
    assert Value(p.left, w) == v;
  }

  lemma UntrustedLowerEnd(p: Operand, sym: string, env: ConstraintEnv) returns (w: World)
    requires p.Binary? && IsCompare(p.op) && !Trusted(p, sym, env) && !LimitsLeft(p, sym, env)
    requires sym !in env && forall name :: name in env ==> env[name] != []
    ensures Admits(env, w) && Truth(p, w) && !InProjection(p, sym, env, w.symbol(sym))
  {
    hide Has;
    var name := p.left.name;
    var offset, low := DecomposeLinear(p.right, sym).value, LowerBound(env[name]).value;
    var y := SecondElement(env[name]);
    var v := if p.op == GT || p.op == NE then low else y;
    w := Witness(env, sym, v - offset, name, y);
    WitnessIsAdmitted(env, sym, v - offset, name, y);
    assert Value(p.right, w) == v;
  }

  /** The projection of a predicate keeps every admitted world that satisfies it. */
  ghost predicate KeepsSolutions(p: Operand, sym: string, env: ConstraintEnv) {
    forall w :: Admits(env, w) && Truth(p, w) ==> InProjection(p, sym, env, w.symbol(sym))
  }

  /** So trust is exactly the condition under which projecting a comparison is sound. */
  lemma AtomIsSoundIffTrusted(p: Operand, sym: string, env: ConstraintEnv)
    requires p.Binary? && IsCompare(p.op) && sym !in env && forall name :: name in env ==> env[name] != []
    ensures Trusted(p, sym, env) <==> KeepsSolutions(p, sym, env)
  {
    if Trusted(p, sym, env) {
      forall w | Admits(env, w) && Truth(p, w) ensures InProjection(p, sym, env, w.symbol(sym))
      {
        SoundAtom(p, sym, env, w);
      }
    } else {
      var w := UntrustedAtomLies(p, sym, env);
    }
  }

  /** A negated comparison that puts no limit on the symbol excludes every value of it. */
  lemma NegatedForeignAtomExcludesAll(p: Operand, sym: string, env: ConstraintEnv, v: int)
    requires p.Binary? && IsCompare(p.op) && AtomLimit(p, sym, env).Anything?
    ensures !InProjection(Unary(NOT, p), sym, env, v)
  {
    assert InProjection(p, sym, env, v);
  }

  /** Projecting a negated comparison is sound exactly when the opposite comparison can be trusted, if the
    comparison limits the symbol at all, and otherwise only when there is nothing to keep. */
  lemma NegatedAtomIsSoundIff(p: Operand, sym: string, env: ConstraintEnv)
    requires p.Binary? && IsCompare(p.op) && sym !in env && forall name :: name in env ==> env[name] != []
    ensures KeepsSolutions(Unary(NOT, p), sym, env) <==>
              if AtomLimit(p, sym, env).Limit? then Trusted(Opposite(p), sym, env)
              else forall w :: Admits(env, w) ==> Truth(p, w)
  {
    var not := Unary(NOT, p);
    if AtomLimit(p, sym, env).Limit? {
      AtomIsSoundIffTrusted(Opposite(p), sym, env);
      forall w | Admits(env, w)
        ensures InProjection(not, sym, env, w.symbol(sym)) == InProjection(Opposite(p), sym, env, w.symbol(sym))
      {
        OppositeLimit(p, sym, env, w.symbol(sym));
        assert InProjection(not, sym, env, w.symbol(sym)) == !InProjection(p, sym, env, w.symbol(sym));
      }
    } else {
      forall w: World ensures !InProjection(not, sym, env, w.symbol(sym)) {
        NegatedForeignAtomExcludesAll(p, sym, env, w.symbol(sym));
      }
    }
  }

  // ----- predicates in which nothing occurs twice -----

  /** The symbols an expression is made of, and the operands in it that are not looked into. */
  function Atoms(e: Operand): set<Operand> {
    match e
    case Numeric(_) => {}
    case Binary(op, l, r) => if op == ADD || op == SUBTRACT || op == MULTIPLY then Atoms(l) + Atoms(r) else {e}
    case Unary(op, x) => if op == SUBTRACT then Atoms(x) else {e}
    case _ => {e}
  }

  /** Without products, and with no atom twice. */
  predicate OccurOnce(e: Operand) {
    match e
    case Binary(op, l, r) =>
      op != MULTIPLY && (op == ADD || op == SUBTRACT ==> OccurOnce(l) && OccurOnce(r) && Atoms(l) !! Atoms(r))
    case Unary(op, x) => op == SUBTRACT ==> OccurOnce(x)
    case _ => true
  }

  function PredAtoms(p: Operand): set<Operand> {
    match p
    case Boolean(_) => {}
    case Unary(op, x) => if op == NOT then PredAtoms(x) else {p}
    case Binary(op, l, r) =>
      if op == AND || op == OR then PredAtoms(l) + PredAtoms(r)
      else if IsCompare(op) then Atoms(l) + Atoms(r)
      else {p}
    case _ => {p}
  }

  predicate PredOccurOnce(p: Operand) {
    match p
    case Unary(op, x) => op == NOT ==> PredOccurOnce(x)
    case Binary(op, l, r) =>
      if op == AND || op == OR then PredOccurOnce(l) && PredOccurOnce(r) && PredAtoms(l) !! PredAtoms(r)
      else IsCompare(op) ==> OccurOnce(l) && OccurOnce(r) && Atoms(l) !! Atoms(r)
    case _ => true
  }

  ghost predicate Agree(atoms: set<Operand>, w: World, w': World) {
    forall a :: a in atoms ==>
      && (a.Symbolic? ==> w.symbol(a.name) == w'.symbol(a.name))
      && w.opaqueValue(a) == w'.opaqueValue(a) && w.opaqueTruth(a) == w'.opaqueTruth(a)
  }

  lemma {:induction false} ValueOfAtoms(e: Operand, w: World, w': World)
    requires Agree(Atoms(e), w, w')
    ensures Value(e, w) == Value(e, w')
  {
    match e
    case Binary(op, l, r) =>
      if op == ADD || op == SUBTRACT || op == MULTIPLY {
        ValueOfAtoms(l, w, w');
        ValueOfAtoms(r, w, w');
      }
    case Unary(op, x) => if op == SUBTRACT { ValueOfAtoms(x, w, w'); }
    case _ =>
  }

  lemma {:induction false} TruthOfAtoms(p: Operand, w: World, w': World)
    requires Agree(PredAtoms(p), w, w')
    ensures Truth(p, w) == Truth(p, w')
  {
    match p
    case Binary(op, l, r) =>
      if op == AND || op == OR {
        TruthOfAtoms(l, w, w');
        TruthOfAtoms(r, w, w');
      } else if IsCompare(op) {
        ValueOfAtoms(l, w, w');
        ValueOfAtoms(r, w, w');
      }
    case Unary(op, x) => if op == NOT { TruthOfAtoms(x, w, w'); }
    case _ =>
  }

  /** One world on some atoms, another on the rest. */
  function Merge(atoms: set<Operand>, w: World, w': World): World {
    World(name => if Symbolic(name) in atoms then w.symbol(name) else w'.symbol(name),
          a => if a in atoms then w.opaqueValue(a) else w'.opaqueValue(a),
          a => if a in atoms then w.opaqueTruth(a) else w'.opaqueTruth(a))
  }

  lemma MergeAgrees(env: ConstraintEnv, atoms: set<Operand>, others: set<Operand>, w: World, w': World)
    requires Admits(env, w) && Admits(env, w') && atoms !! others
    ensures Admits(env, Merge(atoms, w, w'))
    ensures Agree(atoms, w, Merge(atoms, w, w')) && Agree(others, w', Merge(atoms, w, w'))
  {
  }

  ghost predicate NoneEmpty(env: ConstraintEnv) {
    forall name :: name in env ==> env[name] != []
  }

  /** An admitted world in which one symbol, and everything not looked into, has chosen values. */
  lemma ChosenWorld(env: ConstraintEnv, name: string, v: int, b: bool) returns (w: World)
    requires NoneEmpty(env) && (name in env ==> Has(env[name], v))
    ensures Admits(env, w) && w.symbol(name) == v && (forall a :: w.opaqueValue(a) == v && w.opaqueTruth(a) == b)
  {
    var symbol := (n: string) => if n == name then v else if n in env && env[n] != [] then SomeElement(env[n]) else 0;
    w := World(symbol, _ => v, _ => b);
  }

  /** A world that gives two expressions without common atoms the values two other worlds give them. */
  lemma BothAttained(l: Operand, r: Operand, env: ConstraintEnv, u: World, v: World) returns (w: World)
    requires Atoms(l) !! Atoms(r) && Admits(env, u) && Admits(env, v)
    ensures Admits(env, w) && Value(l, w) == Value(l, u) && Value(r, w) == Value(r, v)
  {
    w := Merge(Atoms(l), u, v);
    MergeAgrees(env, Atoms(l), Atoms(r), u, v);
    ValueOfAtoms(l, u, w);
    ValueOfAtoms(r, v, w);
  }

  lemma {:induction false} PossibleIsAttained(e: Operand, env: ConstraintEnv, v: int) returns (w: World)
    requires OccurOnce(e) && NoneEmpty(env) && Possible(e, env, v)
    ensures Admits(env, w) && Value(e, w) == v
  {
    if e.Binary? && (e.op == ADD || e.op == SUBTRACT) {
      var x, y :| Possible(e.left, env, x) && Possible(e.right, env, y) && v == if e.op == ADD then x + y else x - y;
      var u := PossibleIsAttained(e.left, env, x);
      var u' := PossibleIsAttained(e.right, env, y);
      w := BothAttained(e.left, e.right, env, u, u');
    } else if e.Unary? && e.op == SUBTRACT {
      w := PossibleIsAttained(e.operand, env, -v);
    } else if e.Symbolic? {
      w := ChosenWorld(env, e.name, v, false);
    } else {
      w := OpaqueWorld(env, v, false);
    }
  }

  lemma OpaqueWorld(env: ConstraintEnv, v: int, b: bool) returns (w: World)
    requires NoneEmpty(env)
    ensures Admits(env, w) && (forall a :: w.opaqueValue(a) == v && w.opaqueTruth(a) == b)
  {
    w := World(n => if n in env && env[n] != [] then SomeElement(env[n]) else 0, _ => v, _ => b);
  }

  lemma {:induction false} MayBeIsAttained(p: Operand, env: ConstraintEnv, b: bool) returns (w: World)
    requires PredOccurOnce(p) && NoneEmpty(env) && MayBe(p, env, b)
    ensures Admits(env, w) && Truth(p, w) == b
  {
    if p.Unary? && p.op == NOT {
      w := MayBeIsAttained(p.operand, env, !b);
    } else if p.Binary? && (p.op == AND || p.op == OR) {
      var l, r := p.left, p.right;
      if MayBe(l, env, b) && MayBe(r, env, b) {
        var u := MayBeIsAttained(l, env, b);
        var v := MayBeIsAttained(r, env, b);
        w := Merge(PredAtoms(l), u, v);
        MergeAgrees(env, PredAtoms(l), PredAtoms(r), u, v);
        TruthOfAtoms(l, u, w);
        TruthOfAtoms(r, v, w);
      } else if MayBe(l, env, b) {
        w := MayBeIsAttained(l, env, b);
      } else {
        w := MayBeIsAttained(r, env, b);
      }
    } else if p.Binary? && IsCompare(p.op) {
      var x, y :| Possible(p.left, env, x) && Possible(p.right, env, y) && Compare(p.op, x, y) == b;
      var u := PossibleIsAttained(p.left, env, x);
      var v := PossibleIsAttained(p.right, env, y);
      w := BothAttained(p.left, p.right, env, u, v);
    } else {
      w := OpaqueWorld(env, 0, b);
    }
  }

  lemma {:induction false} ValueIsPossible(e: Operand, env: ConstraintEnv, w: World)
    requires Admits(env, w)
    ensures Possible(e, env, Value(e, w))
  {
    match e
    case Binary(op, l, r) =>
      if op == ADD || op == SUBTRACT {
        ValueIsPossible(l, env, w);
        ValueIsPossible(r, env, w);
      } else if op == MULTIPLY {
        ValueIsPossible(l, env, w);
        ValueIsPossible(r, env, w);
        var x, y := Value(l, w), Value(r, w);
        assert x in Values(l, env) && y in Values(r, env);
        assert IsBetween(Values(l, env), Values(r, env), x * y, x, x, y, y);
      }
    case Unary(op, x) => if op == SUBTRACT { ValueIsPossible(x, env, w); }
    case _ =>
  }

  lemma {:induction false} TruthMayBe(p: Operand, env: ConstraintEnv, w: World)
    requires Admits(env, w)
    ensures MayBe(p, env, Truth(p, w))
  {
    match p
    case Binary(op, l, r) =>
      if op == AND || op == OR {
        TruthMayBe(l, env, w);
        TruthMayBe(r, env, w);
      } else if IsCompare(op) {
        ValueIsPossible(l, env, w);
        ValueIsPossible(r, env, w);
      }
    case Unary(op, x) => if op == NOT { TruthMayBe(x, env, w); }
    case _ =>
  }

  /** An answer is right in every admitted world. */
  lemma {:induction false} AnswerIsTrue(p: Operand, env: ConstraintEnv, b: bool, w: World)
    requires Admits(env, w) && Answers(p, env, b)
    ensures Truth(p, w) == b
  {
    hide Possible, Value;
    match p
    case Unary(op, x) => AnswerIsTrue(x, env, !b, w);
    case Binary(op, l, r) =>
      if op == AND || op == OR {
        if Answers(l, env, b) { AnswerIsTrue(l, env, b, w); }
        if Answers(r, env, b) { AnswerIsTrue(r, env, b, w); }
      } else {
        ValueIsPossible(l, env, w);
        ValueIsPossible(r, env, w);
      }
    case _ =>
  }

  lemma {:induction false} OnceHasValues(p: Operand, env: ConstraintEnv)
    requires PredOccurOnce(p) && NoneEmpty(env)
    ensures HasValues(p, env)
  {
    match p
    case Binary(op, l, r) =>
      if op == AND || op == OR {
        OnceHasValues(l, env);
        OnceHasValues(r, env);
      } else if IsCompare(op) {
        var w := OpaqueWorld(env, 0, false);
        ValueIsPossible(l, env, w);
        ValueIsPossible(r, env, w);
      }
    case Unary(op, x) => if op == NOT { OnceHasValues(x, env); }
    case _ =>
  }

  /** Where nothing occurs twice, the truth values a predicate can have with every occurrence chosen on its own
    are those it has in admitted worlds: evaluation over intervals then answers exactly when they all agree. */
  lemma MayBeIffAdmitted(p: Operand, env: ConstraintEnv, b: bool)
    requires PredOccurOnce(p) && NoneEmpty(env)
    ensures HasValues(p, env)
    ensures MayBe(p, env, b) <==> exists w :: Admits(env, w) && Truth(p, w) == b
  {
    OnceHasValues(p, env);
    if MayBe(p, env, b) {
      var w := MayBeIsAttained(p, env, b);
    }
    forall w | Admits(env, w) && Truth(p, w) == b ensures MayBe(p, env, b) {
      TruthMayBe(p, env, w);
    }
  }

  /** So for comparisons in which nothing occurs twice, projecting the negation is sound exactly when the opposite
    comparison can be trusted, or, where the comparison puts no limit on the symbol, when evaluation over
    intervals finds the comparison true. */
  lemma NegatedAtomIsDecided(p: Operand, sym: string, env: ConstraintEnv)
    requires p.Binary? && IsCompare(p.op) && PredOccurOnce(p) && sym !in env && NoneEmpty(env)
    ensures HasValues(p, env)
    ensures KeepsSolutions(Unary(NOT, p), sym, env) <==>
              if AtomLimit(p, sym, env).Limit? then Trusted(Opposite(p), sym, env) else !MayBe(p, env, false)
  {
    hide AtomLimit, Trusted, KeepsSolutions, MayBe, Truth, Opposite;
    NegatedAtomIsSoundIff(p, sym, env);
    MayBeIffAdmitted(p, env, false);
  }

  /** For instance, `NOT (y < 3)` projected onto another symbol loses the world in which `y` is 3. */
  lemma NegationLosesWorld()
    ensures !KeepsSolutions(Unary(NOT, Binary(LT, Symbolic("y"), Numeric(3))), "x", map[])
  {
    var p := Binary(LT, Symbolic("y"), Numeric(3));
    assert DecomposeLinear(p.left, "x").None? && DecomposeLinear(p.right, "x").None?;
    var w := World(_ => 3, _ => 0, _ => false);
    assert Admits(map[], w) && !Truth(p, w);
    NegatedAtomIsSoundIff(p, "x", map[]);
  }

  // ----- proving with declared bounds and a scope -----

  /** The comparison is between one symbol, shifted by numbers, and the other. */
  predicate IsBoundBy(p: Operand, sym: string, name: string)
    requires p.Binary? && IsCompare(p.op)
  {
    || (DecomposeLinear(p.left, sym).Some? && p.right == Symbolic(name))
    || (DecomposeLinear(p.right, sym).Some? && p.left == Symbolic(name))
  }

  /** A comparison is written with `<` or `<=`, or bounds no symbol by one taken before it. */
  predicate ComparesSafely(p: Operand, symbols: seq<string>)
    requires p.Binary? && IsCompare(p.op)
  {
    || p.op == LT || p.op == LE
    || forall i, j :: 0 <= j < i < |symbols| ==> !IsBoundBy(p, symbols[i], symbols[j])
  }

  /** Comparisons are safe, and under an odd number of negations compare each of the symbols, shifted by numbers,
    with a number. */
  predicate NarrowsSafely(p: Operand, symbols: seq<string>, positive: bool) {
    match p
    case Boolean(_) => true
    case Unary(op, x) => if op == NOT then NarrowsSafely(x, symbols, !positive) else positive
    case Binary(op, l, r) =>
      if op == AND || op == OR then NarrowsSafely(l, symbols, positive) && NarrowsSafely(r, symbols, positive)
      else if !IsCompare(op) then positive
      else if positive then ComparesSafely(p, symbols)
      else forall sym :: sym in symbols ==> IsExact(p, sym)
    case _ => positive
  }

  lemma {:induction false} SafeIsSound(p: Operand, i: nat, symbols: seq<string>, env: ConstraintEnv,
                                       positive: bool)
    requires NarrowsSafely(p, symbols, positive) && i < |symbols| && forall name :: name in env ==> name in symbols[..i]
    ensures SoundWhen(p, symbols[i], env, positive)
  {
    match p
    case Unary(op, x) => if op == NOT { SafeIsSound(x, i, symbols, env, !positive); }
    case Binary(op, l, r) =>
      if op == AND || op == OR {
        SafeIsSound(l, i, symbols, env, positive);
        SafeIsSound(r, i, symbols, env, positive);
      } else if IsCompare(op) && !positive {
        ExactIsSound(p, symbols[i], env, positive);
      } else if IsCompare(op) && UsesSymbolicBound(p, symbols[i], env) {
        var name := BoundSide(p, symbols[i], env).name;
        assert name in symbols[..i];
        var j :| 0 <= j < i && symbols[j] == name;
        assert IsBoundBy(p, symbols[i], symbols[j]);
      }
    case _ =>
  }

  /** The symbols with declared bounds lie within them, the upper one excluded. */
  ghost predicate InBounds(bounds: map<string, (int, int)>, w: World) {
    forall name :: name in bounds ==> bounds[name].0 <= w.symbol(name) < bounds[name].1
  }

  /** A world within the declared bounds in which the scope predicate holds. */
  ghost predicate InScope(bounds: map<string, (int, int)>, scope: Option<Operand>, w: World) {
    InBounds(bounds, w) && (scope.Some? ==> Truth(scope.value, w))
  }

  /** A symbol may take a value by its declared bounds and by the projected scope predicate. */
  ghost predicate Narrowed(bounds: map<string, (int, int)>, scope: Option<Operand>, name: string,
                           env: ConstraintEnv, v: int)
  {
    && (name in bounds ==> bounds[name].0 <= v < bounds[name].1)
    && (scope.Some? ==> InProjection(scope.value, name, env, v))
  }

  /** The environments in which the symbols are narrowed one after another. */
  ghost predicate AreNarrowed(bounds: map<string, (int, int)>, scope: Option<Operand>, symbols: seq<string>,
                              envs: seq<ConstraintEnv>)
  {
    && |envs| == |symbols| + 1 && envs[0] == map[]
    && forall i {:trigger symbols[i]} :: 0 <= i < |symbols| ==>
         && envs[i + 1].Keys == envs[i].Keys + {symbols[i]}
         && (forall name :: name in envs[i] && name != symbols[i] ==> envs[i + 1][name] == envs[i][name])
         && (forall v :: Has(envs[i + 1][symbols[i]], v) <==> Narrowed(bounds, scope, symbols[i], envs[i], v))
  }

  /** Every narrowing can be trusted. */
  ghost predicate AllSound(scope: Option<Operand>, symbols: seq<string>, envs: seq<ConstraintEnv>)
    requires |envs| == |symbols| + 1
  {
    scope.Some? ==> forall i :: 0 <= i < |symbols| ==> IsSound(scope.value, symbols[i], envs[i])
  }

  lemma OneNarrowed(bounds: map<string, (int, int)>, scope: Option<Operand>, symbols: seq<string>,
                    envs: seq<ConstraintEnv>, k: nat)
    requires AreNarrowed(bounds, scope, symbols, envs) && k <= |symbols|
    ensures |envs| == |symbols| + 1 && envs[0] == map[]
    ensures k < |symbols| ==> envs[k + 1].Keys == envs[k].Keys + {symbols[k]}
  {
    hide Narrowed, Has;
  }

  lemma {:induction false} NarrowedNames(bounds: map<string, (int, int)>, scope: Option<Operand>,
                                         symbols: seq<string>, envs: seq<ConstraintEnv>, i: nat)
    requires AreNarrowed(bounds, scope, symbols, envs) && i <= |symbols|
    ensures |envs| == |symbols| + 1 && forall name :: name in envs[i] ==> name in symbols[..i]
  {
    hide AreNarrowed;
    OneNarrowed(bounds, scope, symbols, envs, i);
    if i > 0 {
      var k := i - 1;
      NarrowedNames(bounds, scope, symbols, envs, k);
      OneNarrowed(bounds, scope, symbols, envs, k);
      assert symbols[..i] == symbols[..k] + [symbols[k]];
    }
  }

  lemma SafeIsAllSound(bounds: map<string, (int, int)>, scope: Option<Operand>, symbols: seq<string>,
                       envs: seq<ConstraintEnv>)
    requires AreNarrowed(bounds, scope, symbols, envs) && (scope.Some? ==> NarrowsSafely(scope.value, symbols, true))
    ensures AllSound(scope, symbols, envs)
  {
    hide Narrowed, NarrowsSafely, SoundWhen;
    if scope.Some? {
      forall i | 0 <= i < |symbols| ensures IsSound(scope.value, symbols[i], envs[i]) {
        NarrowedNames(bounds, scope, symbols, envs, i);
        SafeIsSound(scope.value, i, symbols, envs[i], true);
      }
    }
  }

  lemma OneAdmits(bounds: map<string, (int, int)>, scope: Option<Operand>, symbols: seq<string>,
                  envs: seq<ConstraintEnv>, w: World, k: nat)
    requires AreNarrowed(bounds, scope, symbols, envs) && k < |symbols| && Admits(envs[k], w)
    requires Narrowed(bounds, scope, symbols[k], envs[k], w.symbol(symbols[k]))
    ensures Admits(envs[k + 1], w)
  {
    hide Has, Narrowed;
    assert envs[k + 1].Keys == envs[k].Keys + {symbols[k]};
    assert Has(envs[k + 1][symbols[k]], w.symbol(symbols[k]));
  }

  /** Sound narrowing keeps every world in scope. */
  lemma {:induction false} NarrowingAdmits(bounds: map<string, (int, int)>, scope: Option<Operand>,
                                           symbols: seq<string>, envs: seq<ConstraintEnv>, w: World, n: nat)
    requires AreNarrowed(bounds, scope, symbols, envs) && AllSound(scope, symbols, envs)
    requires InScope(bounds, scope, w) && n <= |symbols|
    ensures Admits(envs[n], w)
    decreases n
  {
    hide Truth, InProjection, SoundWhen, Narrowed, AreNarrowed, InScope;
    OneNarrowed(bounds, scope, symbols, envs, n);
    if n > 0 {
      var k := n - 1;
      NarrowingAdmits(bounds, scope, symbols, envs, w, k);
      assert scope.Some? ==> IsSound(scope.value, symbols[k], envs[k]);
      ScopeIsNarrowed(bounds, scope, symbols[k], envs[k], w);
      OneAdmits(bounds, scope, symbols, envs, w, k);
    }
  }

  lemma ScopeIsNarrowed(bounds: map<string, (int, int)>, scope: Option<Operand>, name: string,
                        env: ConstraintEnv, w: World)
    requires InScope(bounds, scope, w) && Admits(env, w) && (scope.Some? ==> IsSound(scope.value, name, env))
    ensures Narrowed(bounds, scope, name, env, w.symbol(name))
  {
    if scope.Some? { SoundProjection(scope.value, name, env, w, true); }
  }

  /** Decides a predicate from declared bounds, each symbol narrowed by the scope predicate with the symbols
    before it known. Where every narrowing can be trusted, as it can with a scope predicate that narrows safely,
    an answer is right in every world in scope. */
  method TryProveWithIntervals(p: Operand, scope: Option<Operand>, symbols: seq<string>,
                               bounds: map<string, (int, int)>)
    returns (r: Option<bool>, ghost envs: seq<ConstraintEnv>)
    ensures symbols == [] ==> r.None?
    ensures |envs| == |symbols| + 1 && AreNarrowed(bounds, scope, symbols, envs)
    ensures symbols != [] ==> forall b :: r == Some(b) <==> Answers(p, envs[|symbols|], b)
    ensures AllSound(scope, symbols, envs) && r.Some? ==>
              forall w :: InScope(bounds, scope, w) ==> Truth(p, w) == r.value
    ensures scope.Some? && NarrowsSafely(scope.value, symbols, true) ==> AllSound(scope, symbols, envs)
  {
    hide Truth, InProjection, IsSound, MayBe, HasValues, NarrowsSafely;
    var env: ConstraintEnv := map[];
    envs := [env];
    for i := 0 to |symbols|
      invariant |envs| == i + 1 && envs[i] == env
      invariant AreNarrowed(bounds, scope, symbols[..i], envs)
    {
      var name := symbols[i];
      var values := MakeUniverse();
      if name in bounds {
        values := Single(Interval(Some(bounds[name].0), Some(bounds[name].1)));
      }
      if scope.Some? {
        var narrowed := ProjectConstraint(scope.value, name, env);
        values := Intersect(values, narrowed);
      }
      NarrowedFurther(bounds, scope, symbols, envs, i, values);
      env := env[name := values];
      envs := envs + [env];
    }
    assert symbols[..|symbols|] == symbols;
    if |symbols| == 0 {
      return None, envs;
    }
    r := EvalPredInterval(p, env);
    if scope.Some? && NarrowsSafely(scope.value, symbols, true) { SafeIsAllSound(bounds, scope, symbols, envs); }
    if AllSound(scope, symbols, envs) && r.Some? {
      forall w | InScope(bounds, scope, w) ensures Truth(p, w) == r.value {
        NarrowingAdmits(bounds, scope, symbols, envs, w, |symbols|);
      }
    }
  }

  lemma NarrowedFurther(bounds: map<string, (int, int)>, scope: Option<Operand>, symbols: seq<string>,
                        envs: seq<ConstraintEnv>, i: nat, values: IntervalSet)
    requires i < |symbols| && |envs| == i + 1 && AreNarrowed(bounds, scope, symbols[..i], envs)
    requires forall v :: Has(values, v) <==> Narrowed(bounds, scope, symbols[i], envs[i], v)
    ensures AreNarrowed(bounds, scope, symbols[..i + 1], envs + [envs[i][symbols[i] := values]])
  {
    hide Narrowed, Has;
    var more, next := symbols[..i + 1], envs + [envs[i][symbols[i] := values]];
    forall j | 0 <= j < |more|
      ensures next[j + 1].Keys == next[j].Keys + {more[j]}
      ensures forall name :: name in next[j] && name != more[j] ==> next[j + 1][name] == next[j][name]
      ensures forall v :: Has(next[j + 1][more[j]], v) <==> Narrowed(bounds, scope, more[j], next[j], v)
    {
      if j < i { assert more[j] == symbols[..i][j]; }
    }
  }

  // ----- when a scope misleads -----

  predicate AreDistinct(symbols: seq<string>) {
    forall i, j :: 0 <= j < i < |symbols| ==> symbols[i] != symbols[j]
  }

  /** A value of the symbol that satisfies the comparison while the other symbol is 1, and that no value past the
    ends of 0 and 1 admits. */
  function LostValue(p: Operand, sym: string, name: string): int
    requires p.Binary? && IsCompare(p.op) && IsBoundBy(p, sym, name)
  {
    var strict := p.op == GT || p.op == NE;
    if DecomposeLinear(p.left, sym).Some? && p.right == Symbolic(name) then
      (if strict then 2 else 1) - DecomposeLinear(p.left, sym).value
    else (if strict then 0 else 1) - DecomposeLinear(p.right, sym).value
  }

  function LostWorld(p: Operand, sym: string, name: string): World
    requires p.Binary? && IsCompare(p.op) && IsBoundBy(p, sym, name)
  {
    var lost := LostValue(p, sym, name);
    World(s => if s == sym then lost else 1, _ => 0, _ => false)
  }

  lemma OneSymbolOnly(e: Operand, sym: string, name: string)
    requires sym != name && DecomposeLinear(e, sym).Some?
    ensures DecomposeLinear(e, name).None?
  {
    var zero, one := World(_ => 0, _ => 0, _ => false), World(s => if s == sym then 1 else 0, _ => 0, _ => false);
    assert Value(e, one) == Value(e, zero) + 1;
  }

  /** Taken first, the other symbol is not narrowed by the comparison. */
  lemma FirstIsOpen(p: Operand, sym: string, name: string, env: ConstraintEnv)
    requires p.Binary? && IsCompare(p.op) && IsBoundBy(p, sym, name) && sym != name && sym !in env && name !in env
    ensures AtomLimit(p, name, env).Anything?
  {
    if DecomposeLinear(p.left, sym).Some? && p.right == Symbolic(name) {
      OneSymbolOnly(p.left, sym, name);
    } else {
      OneSymbolOnly(p.right, sym, name);
    }
  }

  /** Then one end of its interval limits the symbol, and shuts out a value that satisfies the comparison. */
  lemma ValueIsLost(p: Operand, sym: string, name: string, env: ConstraintEnv)
    requires p.Binary? && IsCompare(p.op) && p.op != LT && p.op != LE && IsBoundBy(p, sym, name) && sym != name
    requires name in env && sym !in env && UpperBound(env[name]) == Some(2) && LowerBound(env[name]) == Some(0)
    ensures Truth(p, LostWorld(p, sym, name)) && !InProjection(p, sym, env, LostValue(p, sym, name))
  {
    hide UpperBound, LowerBound;
    var w := LostWorld(p, sym, name);
    if DecomposeLinear(p.left, sym).Some? && p.right == Symbolic(name) {
      assert Value(p.left, w) == w.symbol(sym) + DecomposeLinear(p.left, sym).value;
    } else {
      assert Value(p.right, w) == w.symbol(sym) + DecomposeLinear(p.right, sym).value;
    }
  }

  lemma EndsAreTight(s: IntervalSet)
    requires forall v :: Has(s, v) <==> 0 <= v < 2
    ensures LowerBound(s) == Some(0) && UpperBound(s) == Some(2)
  {
    assert Has(s, 0) && Has(s, 1) && s != [];
    BoundsAreTight(s);
    if UpperBound(s).None? { var v := HighElement(s, 2); }
    if LowerBound(s).None? { var v := LowElement(s, -1); }
  }

  lemma {:induction false} NarrowedOnce(bounds: map<string, (int, int)>, scope: Option<Operand>, symbols: seq<string>,
                                        envs: seq<ConstraintEnv>, i: nat, k: nat)
    requires AreNarrowed(bounds, scope, symbols, envs) && AreDistinct(symbols) && i < k <= |symbols|
    ensures symbols[i] in envs[k] && envs[k][symbols[i]] == envs[i + 1][symbols[i]]
    ensures forall v :: Has(envs[k][symbols[i]], v) <==> Narrowed(bounds, scope, symbols[i], envs[i], v)
  {
    hide Narrowed, Has;
    if k == i + 1 {
      assert envs[i + 1].Keys == envs[i].Keys + {symbols[i]};
    } else {
      var last := k - 1;
      NarrowedOnce(bounds, scope, symbols, envs, i, last);
      assert envs[last + 1].Keys == envs[last].Keys + {symbols[last]};
    }
  }

  lemma NotYetNarrowed(bounds: map<string, (int, int)>, scope: Option<Operand>, symbols: seq<string>,
                       envs: seq<ConstraintEnv>, i: nat, k: nat)
    requires AreNarrowed(bounds, scope, symbols, envs) && AreDistinct(symbols) && k <= i < |symbols|
    ensures symbols[i] !in envs[k]
  {
    hide AreNarrowed;
    NarrowedNames(bounds, scope, symbols, envs, k);
  }

  lemma LostInEnd(p: Operand, symbols: seq<string>, i: nat, j: nat, envs: seq<ConstraintEnv>)
    requires p.Binary? && IsCompare(p.op) && p.op != LT && p.op != LE
    requires AreDistinct(symbols) && j < i < |symbols| && IsBoundBy(p, symbols[i], symbols[j])
    requires |envs| == |symbols| + 1 && AreNarrowed(map[symbols[j] := (0, 2)], Some(p), symbols, envs)
    ensures symbols[i] in envs[|symbols|]
    ensures Truth(p, LostWorld(p, symbols[i], symbols[j]))
    ensures !Has(envs[|symbols|][symbols[i]], LostValue(p, symbols[i], symbols[j]))
  {
    hide AreNarrowed, Has, Truth, LostValue, LostWorld, IsBoundBy, AtomLimit, Within;
    var bounds: map<string, (int, int)> := map[symbols[j] := (0, 2)];
    NotYetNarrowed(bounds, Some(p), symbols, envs, i, j);
    NotYetNarrowed(bounds, Some(p), symbols, envs, j, j);
    NotYetNarrowed(bounds, Some(p), symbols, envs, i, i);
    FirstIsOpen(p, symbols[i], symbols[j], envs[j]);
    NarrowedOnce(bounds, Some(p), symbols, envs, j, i);
    OpenIsWithinBounds(p, symbols[j], envs[j], envs[i][symbols[j]]);
    EndsAreTight(envs[i][symbols[j]]);
    ValueIsLost(p, symbols[i], symbols[j], envs[i]);
    NarrowedOnce(bounds, Some(p), symbols, envs, i, |symbols|);
  }

  lemma OpenIsWithinBounds(p: Operand, name: string, env: ConstraintEnv, s: IntervalSet)
    requires p.Binary? && IsCompare(p.op) && AtomLimit(p, name, env).Anything?
    requires forall v :: Has(s, v) <==> Narrowed(map[name := (0, 2)], Some(p), name, env, v)
    ensures forall v :: Has(s, v) <==> 0 <= v < 2
  {
    hide Has, AtomLimit;
  }

  lemma LimitHasValue(limit: Limit) returns (v: int)
    requires limit.Limit? ==> IsCompare(limit.op)
    ensures Within(limit, v)
  {
    v := if limit.Anything? then 0
         else if limit.op == LT then limit.bound - 1
         else if limit.op == GT || limit.op == NE then limit.bound + 1 else limit.bound;
  }

  ghost predicate IsLeft(env: ConstraintEnv, name: string) {
    name in env && exists v :: Has(env[name], v)
  }

  /** Something is left of the symbol that is bound. */
  lemma SomeIsKept(p: Operand, symbols: seq<string>, i: nat, j: nat, envs: seq<ConstraintEnv>)
    requires p.Binary? && IsCompare(p.op) && AreDistinct(symbols) && j < i < |symbols|
    requires |envs| == |symbols| + 1 && AreNarrowed(map[symbols[j] := (0, 2)], Some(p), symbols, envs)
    ensures IsLeft(envs[|symbols|], symbols[i])
  {
    hide AreNarrowed, Has, AtomLimit, Within;
    NarrowedOnce(map[symbols[j] := (0, 2)], Some(p), symbols, envs, i, |symbols|);
    var v := LimitHasValue(AtomLimit(p, symbols[i], envs[i]));
    assert Narrowed(map[symbols[j] := (0, 2)], Some(p), symbols[i], envs[i], v);
  }

  lemma SetOfLimit(limit: Limit) returns (s: IntervalSet)
    requires limit.Limit? ==> IsCompare(limit.op)
    ensures forall v :: Has(s, v) <==> Within(limit, v)
  {
    if limit.Anything? {
      s := MakeUniverse();
    } else {
      var a := limit.bound;
      match limit.op
      case LT => s := Single(Interval(None, Some(a)));
      case LE => s := Single(Interval(None, Some(a + 1)));
      case GT => s := Single(Interval(Some(a + 1), None));
      case GE => s := Single(Interval(Some(a), None));
      case EQ => s := Single(Interval(Some(a), Some(a + 1)));
      case NE =>
        var below, above := Interval(None, Some(a)), Interval(Some(a + 1), None);
        assert below.Contains(a - 1) && above.Contains(a + 1);
        s := [below, above];
        assert s[0] == below && s[1] == above;
    }
  }

  /** The symbols can be narrowed. */
  lemma CanBeNarrowed(p: Operand, symbols: seq<string>, i: nat, j: nat) returns (envs: seq<ConstraintEnv>)
    requires p.Binary? && IsCompare(p.op)
    requires AreDistinct(symbols) && j < i < |symbols| && IsBoundBy(p, symbols[i], symbols[j])
    ensures |envs| == |symbols| + 1 && AreNarrowed(map[symbols[j] := (0, 2)], Some(p), symbols, envs)
  {
    hide Has, IsBoundBy, AtomLimit, Within;
    var bounds: map<string, (int, int)> := map[symbols[j] := (0, 2)];
    envs := [map[]];
    for k := 0 to |symbols|
      invariant |envs| == k + 1 && AreNarrowed(bounds, Some(p), symbols[..k], envs)
    {
      var values := NextValues(p, symbols, i, j, envs, k);
      NarrowedFurther(bounds, Some(p), symbols, envs, k, values);
      envs := envs + [envs[k][symbols[k] := values]];
    }
    assert symbols[..|symbols|] == symbols;
  }

  lemma NextValues(p: Operand, symbols: seq<string>, i: nat, j: nat, envs: seq<ConstraintEnv>, k: nat)
    returns (values: IntervalSet)
    requires p.Binary? && IsCompare(p.op) && k < |symbols|
    requires AreDistinct(symbols) && j < i < |symbols| && IsBoundBy(p, symbols[i], symbols[j])
    requires |envs| == k + 1 && AreNarrowed(map[symbols[j] := (0, 2)], Some(p), symbols[..k], envs)
    ensures forall v :: Has(values, v) <==> Narrowed(map[symbols[j] := (0, 2)], Some(p), symbols[k], envs[k], v)
  {
    hide Has, IsBoundBy, AtomLimit, AreNarrowed;
    NarrowedNames(map[symbols[j] := (0, 2)], Some(p), symbols[..k], envs, k);
    if k == j {
      FirstIsOpen(p, symbols[i], symbols[j], envs[k]);
      values := Single(Interval(Some(0), Some(2)));
    } else {
      values := SetOfLimit(AtomLimit(p, symbols[k], envs[k]));
    }
  }

  /** The question whether all symbols have the values of a world. */
  function AllAre(symbols: seq<string>, w: World): Operand
    requires symbols != []
  {
    var first := Binary(EQ, Symbolic(symbols[0]), Numeric(w.symbol(symbols[0])));
    if |symbols| == 1 then first else Binary(AND, first, AllAre(symbols[1..], w))
  }

  lemma {:induction false} AllAreTrue(symbols: seq<string>, w: World)
    requires symbols != []
    ensures Truth(AllAre(symbols, w), w) && SymbolsIn(AllAre(symbols, w)) == set name | name in symbols
  {
    assert SymbolsIn(Binary(EQ, Symbolic(symbols[0]), Numeric(w.symbol(symbols[0])))) == {symbols[0]};
    if |symbols| > 1 {
      AllAreTrue(symbols[1..], w);
      assert symbols == [symbols[0]] + symbols[1..];
    }
  }

  /** It is found false where the value of one of them is missing, but something is left of it. */
  lemma {:induction false} AllAreFoundFalse(symbols: seq<string>, w: World, env: ConstraintEnv, name: string)
    requires name in symbols && IsLeft(env, name) && !Has(env[name], w.symbol(name))
    ensures Answers(AllAre(symbols, w), env, false)
  {
    hide Has;
    if symbols[0] == name {
      var v :| Has(env[name], v);
      assert Possible(Symbolic(name), env, v) && Possible(Numeric(w.symbol(name)), env, w.symbol(name));
      assert !CanCompare(EQ, Symbolic(name), Numeric(w.symbol(name)), env, true);
    } else {
      assert symbols == [symbols[0]] + symbols[1..];
      AllAreFoundFalse(symbols[1..], w, env, name);
    }
  }

  function SymbolsIn(e: Operand): set<string> {
    match e
    case Symbolic(name) => {name}
    case Unary(_, x) => SymbolsIn(x)
    case Binary(_, l, r) => SymbolsIn(l) + SymbolsIn(r)
    case _ => {}
  }

  /** The symbols of the question, in any order. */
  predicate IsOrderOf(symbols: seq<string>, question: Operand) {
    AreDistinct(symbols) && SymbolsIn(question) == set name | name in symbols
  }

  /** With the symbols narrowed in this order, the question gets this answer. */
  ghost predicate IsAnswer(bounds: map<string, (int, int)>, scope: Operand, symbols: seq<string>,
                           envs: seq<ConstraintEnv>, question: Operand, b: bool)
  {
    && |envs| == |symbols| + 1 && AreNarrowed(bounds, Some(scope), symbols, envs)
    && Answers(question, envs[|symbols|], b)
  }

  /** Whatever the declared bounds, questions about these symbols, taken in this order, are answered rightly. */
  ghost predicate AlwaysRight(scope: Operand, symbols: seq<string>) {
    forall bounds, envs, question, b, w
      | IsOrderOf(symbols, question) && IsAnswer(bounds, scope, symbols, envs, question, b)
        && InScope(bounds, Some(scope), w) :: Truth(question, w) == b
  }

  /** Under a comparison that is not safe, with the other symbol declared as 0 or 1, a question about all symbols
    is answered with false, though it is true in a world in scope. */
  lemma UnsafeScopeMisleads(p: Operand, symbols: seq<string>, i: nat, j: nat) returns (envs: seq<ConstraintEnv>)
    requires p.Binary? && IsCompare(p.op) && p.op != LT && p.op != LE
    requires AreDistinct(symbols) && j < i < |symbols| && IsBoundBy(p, symbols[i], symbols[j])
    ensures var bounds: map<string, (int, int)> := map[symbols[j] := (0, 2)];
            var w := LostWorld(p, symbols[i], symbols[j]);
            var question := AllAre(symbols, w);
            && IsOrderOf(symbols, question) && InScope(bounds, Some(p), w) && Truth(question, w)
            && IsAnswer(bounds, p, symbols, envs, question, false)
            && forall envs' :: |envs'| == |symbols| + 1 && AreNarrowed(bounds, Some(p), symbols, envs') ==>
                 IsAnswer(bounds, p, symbols, envs', question, false)
  {
    hide AreNarrowed, Has, IsBoundBy, LostValue, Answers, Truth, AllAre;
    var bounds: map<string, (int, int)> := map[symbols[j] := (0, 2)];
    var w := LostWorld(p, symbols[i], symbols[j]);
    envs := CanBeNarrowed(p, symbols, i, j);
    AllAreTrue(symbols, w);
    forall envs' | |envs'| == |symbols| + 1 && AreNarrowed(bounds, Some(p), symbols, envs')
      ensures Answers(AllAre(symbols, w), envs'[|symbols|], false) && Truth(p, w)
    {
      LostInEnd(p, symbols, i, j, envs');
      SomeIsKept(p, symbols, i, j, envs');
      assert symbols[i] in symbols && w.symbol(symbols[i]) == LostValue(p, symbols[i], symbols[j]);
      AllAreFoundFalse(symbols, w, envs'[|symbols|], symbols[i]);
    }
    assert InBounds(bounds, w);
  }

  /** So for one comparison as scope, being safe is exactly what makes all answers right. */
  lemma ComparisonScopeIsRightIff(p: Operand, symbols: seq<string>)
    requires p.Binary? && IsCompare(p.op) && AreDistinct(symbols)
    ensures AlwaysRight(p, symbols) <==> ComparesSafely(p, symbols)
  {
    hide AreNarrowed, IsBoundBy, InScope, Answers, Truth, AllSound, IsOrderOf, LostWorld, AllAre;
    if ComparesSafely(p, symbols) {
      forall bounds, envs, question, b, w
        | IsAnswer(bounds, p, symbols, envs, question, b) && InScope(bounds, Some(p), w)
        ensures Truth(question, w) == b
      {
        SafeIsAllSound(bounds, Some(p), symbols, envs);
        NarrowingAdmits(bounds, Some(p), symbols, envs, w, |symbols|);
        AnswerIsTrue(question, envs[|symbols|], b, w);
      }
    } else {
      var i, j :| 0 <= j < i < |symbols| && IsBoundBy(p, symbols[i], symbols[j]);
      var envs := UnsafeScopeMisleads(p, symbols, i, j);
    }
  }

  /** In every order: unless it is written with `<` or `<=`, the comparison is not between a symbol and another one
    shifted by numbers. */
  lemma RightInAnyOrderIff(p: Operand)
    requires p.Binary? && IsCompare(p.op)
    ensures (forall symbols :: AreDistinct(symbols) ==> AlwaysRight(p, symbols)) <==>
              p.op == LT || p.op == LE || forall x, n :: IsBoundBy(p, x, n) ==> x == n
  {
    hide AlwaysRight, IsBoundBy;
    forall symbols | AreDistinct(symbols) ensures AlwaysRight(p, symbols) <==> ComparesSafely(p, symbols) {
      ComparisonScopeIsRightIff(p, symbols);
    }
    if x, n :| IsBoundBy(p, x, n) && x != n {
      var symbols := [n, x];
      assert AreDistinct(symbols) && symbols[0] == n && symbols[1] == x;
      assert IsBoundBy(p, symbols[1], symbols[0]);
    }
  }

  /** For instance, with `n` declared as 0 or 1 and taken first, the scope `x >= n` makes `n == 1 && x == 1` false. */
  lemma ProvesTooMuch(x: string, n: string) returns (envs: seq<ConstraintEnv>, w: World)
    requires x != n
    ensures var p, bounds := Binary(GE, Symbolic(x), Symbolic(n)), map[n := (0, 2)];
            var question := Binary(AND, Binary(EQ, Symbolic(n), Numeric(1)), Binary(EQ, Symbolic(x), Numeric(1)));
            && IsOrderOf([n, x], question) && IsAnswer(bounds, p, [n, x], envs, question, false)
            && InScope(bounds, Some(p), w) && Truth(question, w)
  {
    hide AreNarrowed, Answers, InScope, Truth;
    var p, symbols := Binary(GE, Symbolic(x), Symbolic(n)), [n, x];
    assert symbols[0] == n && symbols[1] == x && IsBoundBy(p, symbols[1], symbols[0]);
    envs := UnsafeScopeMisleads(p, symbols, 1, 0);
    w := LostWorld(p, x, n);
    assert w.symbol(n) == 1 && w.symbol(x) == 1;
    assert symbols[1..] == [x];
    assert AllAre([x], w) == Binary(EQ, Symbolic(x), Numeric(1));
  }
}
