/** Which threads are active in each scope: predicates over parallel variables decided thread by
  thread, and the masks pushed and popped while a program is visited.
 */
module ActiveThreads {
  import opened Basics
  import opened ParallelVariables

  datatype Comparison = Eq | Ne | Lt | Le | Gt | Ge

  /** Operands; `folded` is the value known at compile time of any other expression. */
  datatype Term =
    | Identifier(name: string)
    | IntLiteral(value: int)
    | Reference(inner: Term)
    | Mod(left: Term, right: Term)
    | OtherTerm(id: nat, folded: Option<int>)

  datatype Pred =
    | Compare(op: Comparison, lhs: Term, rhs: Term)
    | And(l: Pred, r: Pred)
    | Or(l: Pred, r: Pred)
    | OtherPred(id: nat)

  datatype EvalResult = TRUE | FALSE | UNPREDICTABLE

  function FindPVInExpr(stack: seq<Entry>, e: Term): Option<string> {
    match e
    case Identifier(name) => if LookupPV(stack, name).Some? then Some(name) else None
    case Reference(inner) => FindPVInExpr(stack, inner)
    case _ => None
  }

  function ExtractConstant(e: Term): Option<int> {
    match e
    case IntLiteral(value) => Some(value)
    case Reference(inner) => ExtractConstant(inner)
    case OtherTerm(_, folded) => folded
    case _ => None
  }

  predicate EvalCompare(op: Comparison, lhs: int, rhs: int) {
    match op
    case Eq => lhs == rhs
    case Ne => lhs != rhs
    case Lt => lhs < rhs
    case Le => lhs <= rhs
    case Gt => lhs > rhs
    case Ge => lhs >= rhs
  }

  /** The comparison with its operands exchanged. */
  function Mirrored(op: Comparison): Comparison {
    match op
    case Lt => Gt
    case Le => Ge
    case Gt => Lt
    case Ge => Le
    case _ => op
  }

  function Decided(b: bool): EvalResult {
    if b then TRUE else FALSE
  }

  /** The value of a bounded parallel variable in a thread. */
  function KnownPV(stack: seq<Entry>, name: Option<string>, tid: nat): Option<int> {
    if name.None? then None
    else
      var pv := LookupPV(stack, name.value);
      if pv.Some? && pv.value.bound > 0 then Some(PVValueForTid(pv.value, tid)) else None
  }

  /** The remainder of C for a positive divisor. */
  function TruncatedMod(a: int, b: int): int
    requires b > 0
  {
    if a >= 0 then a % b else -((-a) % b)
  }

  /** The comparisons are those of the integers, all given by `<`. */
  lemma ComparisonsAreUsual(lhs: int, rhs: int)
    ensures EvalCompare(Lt, lhs, rhs) <==> rhs - lhs >= 1
    ensures EvalCompare(Eq, lhs, rhs) <==> !EvalCompare(Lt, lhs, rhs) && !EvalCompare(Lt, rhs, lhs)
    ensures EvalCompare(Ne, lhs, rhs) <==> !EvalCompare(Eq, lhs, rhs)
    ensures EvalCompare(Le, lhs, rhs) <==> EvalCompare(Lt, lhs, rhs) || EvalCompare(Eq, lhs, rhs)
    ensures EvalCompare(Ge, lhs, rhs) <==> !EvalCompare(Lt, lhs, rhs)
    ensures EvalCompare(Gt, lhs, rhs) <==> EvalCompare(Lt, rhs, lhs)
  {
  }

  /** What is left over by a division that rounds towards zero. */
  lemma ModIsRemainder(a: int, b: int) returns (q: int)
    requires b > 0
    ensures a == q * b + TruncatedMod(a, b)
    ensures -b < TruncatedMod(a, b) < b && (TruncatedMod(a, b) == 0 || (TruncatedMod(a, b) > 0 <==> a > 0))
  {
    if a >= 0 {
      q := a / b;
    } else {
      q := -((-a) / b);
      assert -a == (-q) * b + (-a) % b;
    }
  }

  function EvaluateComparison(stack: seq<Entry>, op: Comparison, lhs: Term, rhs: Term, tid: nat): EvalResult {
    var left := FindPVInExpr(stack, lhs);
    var pv := if left.Some? then left else FindPVInExpr(stack, rhs);
    var constant := if left.Some? then ExtractConstant(rhs) else ExtractConstant(lhs);
    var actual := if left.Some? then op else Mirrored(op);
    var value := KnownPV(stack, pv, tid);
    if constant.Some? && value.Some? then Decided(EvalCompare(actual, value.value, constant.value))
    else if lhs.Mod? then
      var base := KnownPV(stack, FindPVInExpr(stack, lhs.left), tid);
      var divisor, bound := ExtractConstant(lhs.right), ExtractConstant(rhs);
      if base.Some? && divisor.Some? && bound.Some? && divisor.value > 0 then
        Decided(EvalCompare(op, TruncatedMod(base.value, divisor.value), bound.value))
      else UNPREDICTABLE
    else UNPREDICTABLE
  }

  function EvaluateForTid(stack: seq<Entry>, p: Pred, tid: nat): EvalResult {
    match p
    case Compare(op, lhs, rhs) => EvaluateComparison(stack, op, lhs, rhs, tid)
    case And(l, r) =>
      var a, b := EvaluateForTid(stack, l, tid), EvaluateForTid(stack, r, tid);
      if a == FALSE || b == FALSE then FALSE else if a == TRUE && b == TRUE then TRUE else UNPREDICTABLE
    case Or(l, r) =>
      var a, b := EvaluateForTid(stack, l, tid), EvaluateForTid(stack, r, tid);
      if a == TRUE || b == TRUE then TRUE else if a == FALSE && b == FALSE then FALSE else UNPREDICTABLE
    case OtherPred(_) => UNPREDICTABLE
  }

  // ----- what a predicate means -----

  /** Values of everything the analysis cannot see. */
  datatype Env = Env(names: string -> int, terms: nat -> int, preds: nat -> bool, oddMod: (int, int) -> int,
                     extents: Extents)

  /** A parallel variable has the value the generated code gives it; other names have any value. */
  function Value(scope: seq<Header>, env: Env, e: Term, tid: nat): int {
    match e
    case Identifier(name) =>
      var v := Denotes(scope, name);
      if v.Some? then ValueIn(v.value, env.extents, tid) else env.names(name)
    case IntLiteral(value) => value
    case Reference(inner) => Value(scope, env, inner, tid)
    case Mod(l, r) =>
      var a, b := Value(scope, env, l, tid), Value(scope, env, r, tid);
      if b > 0 then TruncatedMod(a, b) else env.oddMod(a, b)
    case OtherTerm(id, folded) => if folded.Some? then folded.value else env.terms(id)
  }

  predicate Holds(scope: seq<Header>, env: Env, p: Pred, tid: nat) {
    match p
    case Compare(op, lhs, rhs) => EvalCompare(op, Value(scope, env, lhs, tid), Value(scope, env, rhs, tid))
    case And(l, r) => Holds(scope, env, l, tid) && Holds(scope, env, r, tid)
    case Or(l, r) => Holds(scope, env, l, tid) || Holds(scope, env, r, tid)
    case OtherPred(id) => env.preds(id)
  }

  /** Every bounded parallel variable in it is flat. */
  predicate FlatTerm(scope: seq<Header>, env: Env, e: Term, dim: int) {
    match e
    case Identifier(name) =>
      var v := Denotes(scope, name);
      v.Some? && InfoOf(v.value).bound > 0 ==> IsFlat(v.value, env.extents, dim)
    case Reference(inner) => FlatTerm(scope, env, inner, dim)
    case Mod(l, r) => FlatTerm(scope, env, l, dim) && FlatTerm(scope, env, r, dim)
    case _ => true
  }

  predicate FlatPred(scope: seq<Header>, env: Env, p: Pred, dim: int) {
    match p
    case Compare(_, lhs, rhs) => FlatTerm(scope, env, lhs, dim) && FlatTerm(scope, env, rhs, dim)
    case And(l, r) => FlatPred(scope, env, l, dim) && FlatPred(scope, env, r, dim)
    case Or(l, r) => FlatPred(scope, env, l, dim) && FlatPred(scope, env, r, dim)
    case OtherPred(_) => true
  }

  lemma {:induction false} ConstantIsValue(scope: seq<Header>, env: Env, e: Term, tid: nat)
    ensures ExtractConstant(e).Some? ==> Value(scope, env, e, tid) == ExtractConstant(e).value
    decreases e
  {
    if e.Reference? { ConstantIsValue(scope, env, e.inner, tid); }
  }

  lemma {:induction false} VariableIsValue(scope: seq<Header>, env: Env, e: Term, dim: int, tid: nat)
    requires FlatTerm(scope, env, e, dim) && tid < dim
    ensures var known := KnownPV(Entries(scope), FindPVInExpr(Entries(scope), e), tid);
            known.Some? ==> Value(scope, env, e, tid) == known.value
    decreases e
  {
    hide PVValueForTid, ValueIn, IsFlat, Entries, InfoOf, LookupPV, Denotes;
    match e {
      case Reference(inner) => VariableIsValue(scope, env, inner, dim, tid);
      case Identifier(name) =>
        LookupFinds(scope, name);
        var v := Denotes(scope, name);
        if v.Some? && InfoOf(v.value).bound > 0 { FlatIsRight(v.value, env.extents, dim, tid); }
      case _ =>
    }
  }

  lemma ComparisonAgrees(scope: seq<Header>, env: Env, op: Comparison, lhs: Term, rhs: Term, dim: int, tid: nat)
    requires FlatTerm(scope, env, lhs, dim) && FlatTerm(scope, env, rhs, dim) && tid < dim
    ensures var r := EvaluateComparison(Entries(scope), op, lhs, rhs, tid);
            r != UNPREDICTABLE ==>
              (r == TRUE <==> EvalCompare(op, Value(scope, env, lhs, tid), Value(scope, env, rhs, tid)))
  {
    hide KnownPV, FindPVInExpr, ExtractConstant, TruncatedMod, Entries, Denotes, ValueIn;
    ConstantIsValue(scope, env, lhs, tid);
    ConstantIsValue(scope, env, rhs, tid);
    VariableIsValue(scope, env, lhs, dim, tid);
    VariableIsValue(scope, env, rhs, dim, tid);
    if lhs.Mod? {
      VariableIsValue(scope, env, lhs.left, dim, tid);
      ConstantIsValue(scope, env, lhs.right, tid);
    }
  }

  /** A decided verdict is the truth in the generated code, whatever the unseen values are, for predicates
    over flat variables. */
  lemma {:induction false} VerdictAgrees(scope: seq<Header>, env: Env, p: Pred, dim: int, tid: nat)
    requires FlatPred(scope, env, p, dim) && tid < dim
    ensures var r := EvaluateForTid(Entries(scope), p, tid);
            r != UNPREDICTABLE ==> (r == TRUE <==> Holds(scope, env, p, tid))
    decreases p
  {
    hide EvaluateComparison, EvalCompare, Value, Entries, FlatTerm;
    match p
    case Compare(op, lhs, rhs) => ComparisonAgrees(scope, env, op, lhs, rhs, dim, tid);
    case And(l, r) =>
      VerdictAgrees(scope, env, l, dim, tid);
      VerdictAgrees(scope, env, r, dim, tid);
    case Or(l, r) =>
      VerdictAgrees(scope, env, l, dim, tid);
      VerdictAgrees(scope, env, r, dim, tid);
    case OtherPred(_) =>
  }

  /** The comparison of a named variable with a constant. */
  function NameEquals(name: string, c: int): Pred {
    Compare(Eq, Identifier(name), IntLiteral(c))
  }

  /** The verdict on `name == c` is the truth in every thread, for every constant. */
  ghost predicate EqualityIsRight(scope: seq<Header>, env: Env, name: string, dim: int) {
    forall c: int, tid: nat :: tid < dim ==>
      (EvaluateForTid(Entries(scope), NameEquals(name, c), tid) == TRUE <==>
        Holds(scope, env, NameEquals(name, c), tid))
  }

  lemma EqualityMeans(scope: seq<Header>, env: Env, name: string, v: Variable, c: int, tid: nat)
    requires Denotes(scope, name) == Some(v) && InfoOf(v).bound > 0
    ensures EvaluateForTid(Entries(scope), NameEquals(name, c), tid) == Decided(PVValueForTid(InfoOf(v), tid) == c)
    ensures Holds(scope, env, NameEquals(name, c), tid) <==> ValueIn(v, env.extents, tid) == c
  {
    hide PVValueForTid, ValueIn, Entries, Denotes, LookupPV, InfoOf;
    LookupFinds(scope, name);
    var stack := Entries(scope);
    assert FindPVInExpr(stack, Identifier(name)) == Some(name);
    assert KnownPV(stack, Some(name), tid) == Some(PVValueForTid(InfoOf(v), tid));
  }

  /** The mask analysis is right about a bounded variable exactly when the variable is flat. */
  lemma RightAboutVariableIffFlat(scope: seq<Header>, env: Env, name: string, v: Variable, dim: int)
    requires Denotes(scope, name) == Some(v) && InfoOf(v).bound > 0
    ensures EqualityIsRight(scope, env, name, dim) <==> IsFlat(v, env.extents, dim)
  {
    hide PVValueForTid, ValueIn, Entries, Denotes, LookupPV, InfoOf, IsFlat, EvaluateForTid, Holds, NameEquals;
    RightIffFlat(v, env.extents, dim);
    forall c: int, tid: nat
      ensures EvaluateForTid(Entries(scope), NameEquals(name, c), tid) == Decided(PVValueForTid(InfoOf(v), tid) == c)
      ensures Holds(scope, env, NameEquals(name, c), tid) <==> ValueIn(v, env.extents, tid) == c
    {
      EqualityMeans(scope, env, name, v, c, tid);
    }
    if EqualityIsRight(scope, env, name, dim) {
      forall tid: nat | tid < dim ensures PVValueForTid(InfoOf(v), tid) == ValueIn(v, env.extents, tid) {
        var c := ValueIn(v, env.extents, tid);
        assert Holds(scope, env, NameEquals(name, c), tid);
      }
    } else {
      var c: int, tid: nat :| tid < dim
        && (EvaluateForTid(Entries(scope), NameEquals(name, c), tid) == TRUE)
           != Holds(scope, env, NameEquals(name, c), tid);
      assert PVValueForTid(InfoOf(v), tid) != ValueIn(v, env.extents, tid);
    }
  }

  /** For instance, under `parallel {x, y} by [4, 8] : thread` thread 1 is taken to have `x == 1`,
    while the generated code gives it `x == 0`. */
  lemma FirstDimensionIsWrong(env: Env)
    ensures var scope := [Header(0, THREAD, true, ["x", "y"], Some("t"), Some(Some(32)), [Some(4), Some(8)])];
            && EvaluateForTid(Entries(scope), NameEquals("x", 1), 1) == TRUE
            && Holds(scope, env, NameEquals("x", 0), 1) && !Holds(scope, env, NameEquals("x", 1), 1)
  {
    var h := Header(0, THREAD, true, ["x", "y"], Some("t"), Some(Some(32)), [Some(4), Some(8)]);
    var scope := [h];
    var v := Sub(scope, 0);
    assert Denotes(scope, "x") == Some(v);
    assert Outer(v) == [];
    assert Trailing(h, 2, env.extents) == 1 && Trailing(h, 1, env.extents) == 8;
    assert ValueIn(v, env.extents, 1) == 0;
    EqualityMeans(scope, env, "x", v, 1, 1);
    EqualityMeans(scope, env, "x", v, 0, 1);
  }

  // ----- when there is a verdict -----

  /** A parallel variable of known bound, possibly behind references. */
  predicate IsBounded(scope: seq<Header>, e: Term) {
    match e
    case Identifier(name) => var v := Denotes(scope, name); v.Some? && InfoOf(v.value).bound > 0
    case Reference(inner) => IsBounded(scope, inner)
    case _ => false
  }

  /** A number known at compile time, possibly behind references. */
  predicate IsConstant(e: Term) {
    e.IntLiteral? || (e.Reference? && IsConstant(e.inner)) || (e.OtherTerm? && e.folded.Some?)
  }

  /** A bounded parallel variable, or its remainder by a positive constant, against a constant. */
  predicate IsPlain(scope: seq<Header>, env: Env, lhs: Term, rhs: Term, tid: nat) {
    || (IsBounded(scope, lhs) && IsConstant(rhs))
    || (IsBounded(scope, rhs) && IsConstant(lhs))
    || (lhs.Mod? && IsBounded(scope, lhs.left) && IsConstant(rhs)
        && IsConstant(lhs.right) && Value(scope, env, lhs.right, tid) > 0)
  }

  /** Plain comparisons settle a predicate: one false side is enough for AND, one true side for OR. */
  ghost predicate IsSettled(scope: seq<Header>, p: Pred, tid: nat, env: Env) {
    match p
    case Compare(_, lhs, rhs) => IsPlain(scope, env, lhs, rhs, tid)
    case And(l, r) =>
      var a, b := IsSettled(scope, l, tid, env), IsSettled(scope, r, tid, env);
      (a && b) || (a && !Holds(scope, env, l, tid)) || (b && !Holds(scope, env, r, tid))
    case Or(l, r) =>
      var a, b := IsSettled(scope, l, tid, env), IsSettled(scope, r, tid, env);
      (a && b) || (a && Holds(scope, env, l, tid)) || (b && Holds(scope, env, r, tid))
    case OtherPred(_) => false
  }

  lemma {:induction false} ConstantIsKnown(stack: seq<Entry>, e: Term)
    ensures IsConstant(e) <==> ExtractConstant(e).Some?
    ensures IsConstant(e) || e.Mod? ==> FindPVInExpr(stack, e).None?
    ensures e.Mod? ==> !IsConstant(e)
    decreases e
  {
    if e.Reference? { ConstantIsKnown(stack, e.inner); }
  }

  lemma {:induction false} BoundedIsKnown(scope: seq<Header>, e: Term, tid: nat)
    ensures IsBounded(scope, e) <==> KnownPV(Entries(scope), FindPVInExpr(Entries(scope), e), tid).Some?
    ensures IsBounded(scope, e) ==> FindPVInExpr(Entries(scope), e).Some?
    decreases e
  {
    hide PVValueForTid, Entries, InfoOf, LookupPV, Denotes;
    match e {
      case Reference(inner) => BoundedIsKnown(scope, inner, tid);
      case Identifier(name) => LookupFinds(scope, name);
      case _ =>
    }
  }

  /** There is a verdict exactly when plain comparisons settle the predicate. */
  lemma {:induction false} VerdictIffSettled(scope: seq<Header>, env: Env, p: Pred, dim: int, tid: nat)
    requires FlatPred(scope, env, p, dim) && tid < dim
    ensures EvaluateForTid(Entries(scope), p, tid) != UNPREDICTABLE <==> IsSettled(scope, p, tid, env)
    decreases p
  {
    hide EvalCompare, Value, EvaluateComparison, Entries, FlatTerm;
    match p
    case Compare(op, lhs, rhs) => PlainIsDecided(scope, env, op, lhs, rhs, tid);
    case And(l, r) =>
      VerdictIffSettled(scope, env, l, dim, tid);
      VerdictIffSettled(scope, env, r, dim, tid);
      VerdictAgrees(scope, env, l, dim, tid);
      VerdictAgrees(scope, env, r, dim, tid);
    case Or(l, r) =>
      VerdictIffSettled(scope, env, l, dim, tid);
      VerdictIffSettled(scope, env, r, dim, tid);
      VerdictAgrees(scope, env, l, dim, tid);
      VerdictAgrees(scope, env, r, dim, tid);
    case OtherPred(_) =>
  }

  lemma PlainIsDecided(scope: seq<Header>, env: Env, op: Comparison, lhs: Term, rhs: Term, tid: nat)
    ensures EvaluateComparison(Entries(scope), op, lhs, rhs, tid) != UNPREDICTABLE <==>
              IsPlain(scope, env, lhs, rhs, tid)
  {
    hide EvalCompare, Value, KnownPV, TruncatedMod, Entries, IsConstant, IsBounded, ExtractConstant, FindPVInExpr;
    ConstantIsKnown(Entries(scope), lhs);
    ConstantIsKnown(Entries(scope), rhs);
    BoundedIsKnown(scope, lhs, tid);
    BoundedIsKnown(scope, rhs, tid);
    NoNameNoValue(Entries(scope), tid);
    if lhs.Mod? {
      BoundedIsKnown(scope, lhs.left, tid);
      ConstantIsKnown(Entries(scope), lhs.right);
      ConstantIsValue(scope, env, lhs.right, tid);
    }
  }

  lemma NoNameNoValue(stack: seq<Entry>, tid: nat)
    ensures KnownPV(stack, None, tid).None?
  {
  }

  // ----- masks -----

  /** An enclosing predicate together with the parallels around the place where it stands. */
  datatype Cond = Cond(pred: Pred, scope: seq<Header>)

  ghost predicate AllHold(conds: seq<Cond>, env: Env, tid: nat) {
    forall k :: 0 <= k < |conds| ==> Holds(conds[k].scope, env, conds[k].pred, tid)
  }

  ghost predicate AllFlat(conds: seq<Cond>, env: Env, dim: int) {
    forall k :: 0 <= k < |conds| ==> FlatPred(conds[k].scope, env, conds[k].pred, dim)
  }

  predicate AllTrue(conds: seq<Cond>, tid: nat) {
    forall k :: 0 <= k < |conds| ==> EvaluateForTid(Entries(conds[k].scope), conds[k].pred, tid) == TRUE
  }

  /** One flag a thread, set exactly where all the predicates are found true; where their bounded
    variables are flat, that is exactly where they hold, whatever the unseen values are. */
  ghost predicate MaskIs(mask: seq<bool>, conds: seq<Cond>, dim: int) {
    && |mask| == dim
    && (forall tid: nat :: tid < |mask| ==> (mask[tid] <==> AllTrue(conds, tid)))
    && (forall tid: nat, env: Env :: tid < |mask| && AllFlat(conds, env, dim) ==>
          (mask[tid] <==> AllHold(conds, env, tid)))
  }

  predicate AllDecided(stack: seq<Entry>, p: Pred, dim: int) {
    forall tid: nat :: tid < dim ==> EvaluateForTid(stack, p, tid) != UNPREDICTABLE
  }

  lemma MaskExtends(mask: seq<bool>, parent: seq<bool>, conds: seq<Cond>, scope: seq<Header>, p: Pred, dim: int)
    requires |mask| == dim && AllDecided(Entries(scope), p, dim)
    requires conds != [] ==> MaskIs(parent, conds, dim)
    requires forall tid :: 0 <= tid < dim ==>
               (mask[tid] <==> EvaluateForTid(Entries(scope), p, tid) == TRUE && (conds != [] ==> parent[tid]))
    ensures MaskIs(mask, conds + [Cond(p, scope)], dim)
  {
    hide EvaluateForTid, Holds, FlatPred, Entries;
    var c := Cond(p, scope);
    var more := conds + [c];
    forall tid: nat | tid < dim ensures mask[tid] <==> AllTrue(more, tid)
    {
      TrueOfMore(conds, c, tid);
    }
    forall tid: nat, env: Env | tid < dim && AllFlat(more, env, dim) ensures mask[tid] <==> AllHold(more, env, tid)
    {
      FlatOfMore(conds, c, env, dim);
      VerdictAgrees(scope, env, p, dim, tid);
      AllOfMore(conds, c, env, tid);
    }
  }

  lemma TrueOfMore(conds: seq<Cond>, c: Cond, tid: nat)
    ensures AllTrue(conds + [c], tid) <==> AllTrue(conds, tid) && EvaluateForTid(Entries(c.scope), c.pred, tid) == TRUE
  {
    hide EvaluateForTid, Entries;
    var more := conds + [c];
    if AllTrue(more, tid) {
      assert EvaluateForTid(Entries(more[|conds|].scope), more[|conds|].pred, tid) == TRUE;
      forall k | 0 <= k < |conds| ensures EvaluateForTid(Entries(conds[k].scope), conds[k].pred, tid) == TRUE
      {
        assert more[k] == conds[k] && EvaluateForTid(Entries(more[k].scope), more[k].pred, tid) == TRUE;
      }
    }
  }

  lemma FlatOfMore(conds: seq<Cond>, c: Cond, env: Env, dim: int)
    requires AllFlat(conds + [c], env, dim)
    ensures AllFlat(conds, env, dim) && FlatPred(c.scope, env, c.pred, dim)
  {
    hide FlatPred;
    var more := conds + [c];
    assert FlatPred(more[|conds|].scope, env, more[|conds|].pred, dim);
    forall k | 0 <= k < |conds| ensures FlatPred(conds[k].scope, env, conds[k].pred, dim)
    {
      assert more[k] == conds[k] && FlatPred(more[k].scope, env, more[k].pred, dim);
    }
  }

  lemma AllOfMore(conds: seq<Cond>, c: Cond, env: Env, tid: nat)
    ensures AllHold(conds + [c], env, tid) <==> AllHold(conds, env, tid) && Holds(c.scope, env, c.pred, tid)
  {
    hide Holds;
    var more := conds + [c];
    if AllHold(more, env, tid) {
      assert Holds(more[|conds|].scope, env, more[|conds|].pred, tid);
      forall k | 0 <= k < |conds| ensures Holds(conds[k].scope, env, conds[k].pred, tid)
      {
        assert more[k] == conds[k] && Holds(more[k].scope, env, more[k].pred, tid);
      }
    }
  }

  // ----- programs -----

  datatype Node =
    | Parallel(header: Header, body: seq<Node>)
    | InThreads(tag: nat, pred: Option<Pred>, body: seq<Node>)
    | Block(tag: nat, body: seq<Node>)
  {
    function Id(): nat {
      if Parallel? then header.id else tag
    }
  }

  function Ids(n: Node): set<nat> {
    {n.Id()} + IdsOfAll(n.body)
  }

  function IdsOfAll(ns: seq<Node>): set<nat> {
    if ns == [] then {} else Ids(ns[0]) + IdsOfAll(ns[1..])
  }

  ghost predicate Distinct(n: Node) {
    n.Id() !in IdsOfAll(n.body) && DistinctAll(n.body)
  }

  ghost predicate DistinctAll(ns: seq<Node>) {
    ns != [] ==> Distinct(ns[0]) && DistinctAll(ns[1..]) && Ids(ns[0]) !! IdsOfAll(ns[1..])
  }

  predicate HasThreadLevel(stack: seq<Entry>) {
    exists k :: 0 <= k < |stack| && IsThreadLevel(stack[k].level)
  }

  /** The thread count while the body of a parallel is visited: the outermost known one. */
  function DimInside(h: Header, dim: int): int {
    if Declares(h) && h.bpv.Some? && dim <= 0 && TotalBound(h) > 0 then TotalBound(h) * ThreadsPerUnit(h.level) else dim
  }

  function DimAfter(n: Node, stack: seq<Entry>, dim: int): int
    decreases n
  {
    match n
    case Parallel(h, body) =>
      var inside := DimAfterAll(body, stack + [EntryOf(h)], DimInside(h, dim));
      if IsThreadLevel(h.level) && !HasThreadLevel(stack) then -1 else inside
    case InThreads(_, _, body) => DimAfterAll(body, stack, dim)
    case Block(_, body) => DimAfterAll(body, stack, dim)
  }

  function DimAfterAll(ns: seq<Node>, stack: seq<Entry>, dim: int): int
    decreases ns
  {
    if ns == [] then dim else DimAfterAll(ns[1..], stack, DimAfter(ns[0], stack, dim))
  }

  /** The predicate of the block can be turned into a mask. */
  predicate HasMask(n: Node, stack: seq<Entry>, dim: int) {
    n.InThreads? && n.pred.Some? && dim > 0 && AllDecided(stack, n.pred.value, dim)
  }

  /** Every scope is annotated with the mask of exactly the decidable predicates that enclose it,
    and with none where there is no such predicate. */
  ghost predicate Annotated(n: Node, conds: seq<Cond>, scope: seq<Header>, dim: int, masks: map<nat, seq<bool>>)
    decreases n
  {
    match n
    case Parallel(h, body) =>
      ScopeAnnotated(h.id, conds, dim, masks) && AllAnnotated(body, conds, scope + [h], DimInside(h, dim), masks)
    case InThreads(id, pred, body) =>
      if HasMask(n, Entries(scope), dim) then
        var inner := conds + [Cond(pred.value, scope)];
        id in masks && MaskIs(masks[id], inner, dim) && AllAnnotated(body, inner, scope, dim, masks)
      else
        id !in masks && AllAnnotated(body, conds, scope, dim, masks)
    case Block(id, body) => ScopeAnnotated(id, conds, dim, masks) && AllAnnotated(body, conds, scope, dim, masks)
  }

  ghost predicate AllAnnotated(ns: seq<Node>, conds: seq<Cond>, scope: seq<Header>, dim: int,
                               masks: map<nat, seq<bool>>)
    decreases ns
  {
    ns != [] ==>
      && Annotated(ns[0], conds, scope, dim, masks)
      && AllAnnotated(ns[1..], conds, scope, DimAfter(ns[0], Entries(scope), dim), masks)
  }

  ghost predicate ScopeAnnotated(id: nat, conds: seq<Cond>, dim: int, masks: map<nat, seq<bool>>) {
    if conds == [] then id !in masks else id in masks && MaskIs(masks[id], conds, dim)
  }

  ghost predicate SameOn(ids: set<nat>, a: map<nat, seq<bool>>, b: map<nat, seq<bool>>) {
    forall id :: id in ids ==> (id in a <==> id in b) && (id in a ==> a[id] == b[id])
  }

  lemma {:induction false} StillAnnotated(n: Node, conds: seq<Cond>, scope: seq<Header>, dim: int,
                                          a: map<nat, seq<bool>>, b: map<nat, seq<bool>>)
    requires Annotated(n, conds, scope, dim, a) && SameOn(Ids(n), a, b)
    ensures Annotated(n, conds, scope, dim, b)
    decreases n
  {
    hide MaskIs, AllDecided, Entries, DimInside, DimAfter;
    match n
    case Parallel(h, body) => AllStillAnnotated(body, conds, scope + [h], DimInside(h, dim), a, b);
    case InThreads(_, pred, body) =>
      var inner := if HasMask(n, Entries(scope), dim) then conds + [Cond(pred.value, scope)] else conds;
      AllStillAnnotated(body, inner, scope, dim, a, b);
    case Block(_, body) => AllStillAnnotated(body, conds, scope, dim, a, b);
  }

  lemma {:induction false} AllStillAnnotated(ns: seq<Node>, conds: seq<Cond>, scope: seq<Header>, dim: int,
                                             a: map<nat, seq<bool>>, b: map<nat, seq<bool>>)
    requires AllAnnotated(ns, conds, scope, dim, a) && SameOn(IdsOfAll(ns), a, b)
    ensures AllAnnotated(ns, conds, scope, dim, b)
    decreases ns
  {
    hide DimAfter, Entries;
    if ns != [] {
      StillAnnotated(ns[0], conds, scope, dim, a, b);
      AllStillAnnotated(ns[1..], conds, scope, DimAfter(ns[0], Entries(scope), dim), a, b);
    }
  }

  lemma EntriesOfMore(scope: seq<Header>, h: Header)
    ensures Entries(scope + [h]) == Entries(scope) + [EntryOf(h)]
  {
    hide EntryOf;
  }

  lemma EntriesOfFewer(scope: seq<Header>)
    requires scope != []
    ensures Entries(scope[..|scope| - 1]) == Entries(scope)[..|scope| - 1]
  {
    hide EntryOf;
  }

  // ----- the visitor -----

  class Analysis {
    var pbStack: seq<Entry>
    var maskStack: seq<seq<bool>>
    var threadDim: int
    var masks: map<nat, seq<bool>>
    ghost var conds: seq<Cond>
    ghost var scope: seq<Header>

    constructor ()
      ensures Valid() && pbStack == [] && maskStack == [] && threadDim == -1 && masks == map[]
      ensures conds == [] && scope == []
    {
      pbStack, maskStack, threadDim, masks, conds, scope := [], [], -1, map[], [], [];
    }

    /** Every stacked mask has one flag a thread and stands for the predicates up to its own. */
    ghost predicate Valid()
      reads this
    {
      && pbStack == Entries(scope)
      && |conds| == |maskStack|
      && (threadDim == -1 || threadDim > 0)
      && (threadDim > 0 ==> HasThreadLevel(pbStack))
      && (maskStack != [] ==> threadDim > 0)
      && forall k {:trigger maskStack[k]} :: 0 <= k < |maskStack| ==> MaskIs(maskStack[k], conds[..k + 1], threadDim)
    }

    /** Empty unless the predicate is decided in every thread. */
    method BuildMask(p: Pred) returns (mask: seq<bool>)
      requires Valid()
      ensures mask != [] <==> threadDim > 0 && AllDecided(pbStack, p, threadDim)
      ensures mask != [] ==> MaskIs(mask, conds + [Cond(p, scope)], threadDim)
    {
      hide EvaluateForTid, MaskIs, HasThreadLevel, Entries;
      if threadDim <= 0 {
        return [];
      }
      mask := [];
      while |mask| < threadDim
        invariant |mask| <= threadDim
        invariant forall tid: nat :: tid < |mask| ==> EvaluateForTid(pbStack, p, tid) == Decided(mask[tid])
      {
        var r := EvaluateForTid(pbStack, p, |mask|);
        if r == UNPREDICTABLE {
          return [];
        }
        mask := mask + [r == TRUE];
      }
      if maskStack != [] {
        var parent := maskStack[|maskStack| - 1];
        assert conds[..|maskStack| - 1 + 1] == conds;
        MaskLength(parent, conds, threadDim);
        ghost var own := mask;
        for i := 0 to threadDim
          invariant |mask| == threadDim
          invariant forall tid :: 0 <= tid < i ==> mask[tid] == (own[tid] && parent[tid])
          invariant forall tid :: i <= tid < threadDim ==> mask[tid] == own[tid]
        {
          mask := mask[i := mask[i] && parent[i]];
        }
        MaskExtends(mask, parent, conds, scope, p, threadDim);
      } else {
        MaskExtends(mask, [], conds, scope, p, threadDim);
      }
    }

    method PropagateToBlock(id: nat)
      requires Valid() && id !in masks
      modifies this`masks
      ensures Valid() && ScopeAnnotated(id, conds, threadDim, masks)
      ensures masks == if maskStack == [] then old(masks) else old(masks)[id := maskStack[|maskStack| - 1]]
    {
      if maskStack == [] {
        return;
      }
      assert conds[..|maskStack| - 1 + 1] == conds;
      masks := masks[id := maskStack[|maskStack| - 1]];
    }

    method UpdateThreadDim(level: Level, bound: int)
      modifies this`threadDim
      ensures threadDim == if old(threadDim) <= 0 && ThreadsPerUnit(level) > 0 && bound > 0
                           then bound * ThreadsPerUnit(level) else old(threadDim)
    {
      if threadDim > 0 {
        return;
      }
      var tpu := ThreadsPerUnit(level);
      if tpu > 0 && bound > 0 {
        threadDim := bound * tpu;
      }
    }

    method EnterParallel(h: Header)
      requires Valid() && h.id !in masks
      modifies this
      ensures Valid() && pbStack == old(pbStack) + [EntryOf(h)] && scope == old(scope) + [h]
      ensures threadDim == DimInside(h, old(threadDim))
      ensures maskStack == old(maskStack) && conds == old(conds)
      ensures ScopeAnnotated(h.id, conds, old(threadDim), masks)
      ensures forall id :: id != h.id ==>
                (id in masks <==> id in old(masks)) && (id in masks ==> masks[id] == old(masks)[id])
    {
      hide MaskIs, Entries;
      var entry := Entry(h.level, []);
      if Declares(h) {
        var pvs := CollectSubPVs(h);
        if h.bpv.Some? {
          var total := ComputeTotalBound(h);
          pvs := pvs + [PVInfo(h.bpv.value, h.level, total)];
          UpdateThreadDim(h.level, total);
        }
        entry := Entry(h.level, pvs);
        assert pvs == EntryOf(h).pvs;
      }
      KeepsThreadLevel(pbStack, entry);
      EntriesOfMore(scope, h);
      pbStack := pbStack + [entry];
      scope := scope + [h];
      PropagateToBlock(h.id);
    }

    method EnterInThreads(n: Node)
      requires Valid() && n.InThreads? && n.tag !in masks
      modifies this`maskStack, this`masks, this`conds
      ensures Valid()
      ensures if HasMask(n, pbStack, threadDim) then
                && conds == old(conds) + [Cond(n.pred.value, scope)]
                && n.tag in masks && MaskIs(masks[n.tag], conds, threadDim)
                && maskStack == old(maskStack) + [masks[n.tag]] && masks == old(masks)[n.tag := masks[n.tag]]
              else conds == old(conds) && maskStack == old(maskStack) && masks == old(masks)
    {
      hide MaskIs, AllDecided, HasThreadLevel, Entries;
      if n.pred.Some? && threadDim > 0 {
        var mask := BuildMask(n.pred.value);
        if mask != [] {
          masks := masks[n.tag := mask];
          ghost var were := conds;
          conds := conds + [Cond(n.pred.value, scope)];
          maskStack := maskStack + [mask];
          PrefixesAgree(conds, were);
          assert conds[..|conds| - 1 + 1] == conds;
        }
      }
    }

    method LeaveParallel()
      requires Valid() && pbStack != []
      requires maskStack != [] ==> HasThreadLevel(pbStack[..|pbStack| - 1])
      modifies this`pbStack, this`threadDim, this`scope
      ensures Valid() && pbStack == old(pbStack[..|pbStack| - 1]) && scope == old(scope[..|scope| - 1])
      ensures threadDim == if IsThreadLevel(old(pbStack)[|old(pbStack)| - 1].level) && !HasThreadLevel(pbStack) then -1
                           else old(threadDim)
    {
      hide MaskIs, Entries, HasThreadLevel;
      var entry := pbStack[|pbStack| - 1];
      LosesOne(pbStack);
      EntriesOfFewer(scope);
      pbStack := pbStack[..|pbStack| - 1];
      scope := scope[..|scope| - 1];
      if IsThreadLevel(entry.level) {
        var anyThreadLevel := AnyThreadLevel(pbStack);
        if !anyThreadLevel {
          threadDim := -1;
        }
      }
    }

    /** The mask pushed on entry, if there was one, is the one popped. */
    method LeaveInThreads(n: Node)
      requires Valid() && n.InThreads?
      requires n.tag in masks ==> maskStack != []
      modifies this`maskStack, this`conds
      ensures Valid()
      ensures if n.tag in masks
              then maskStack == old(maskStack[..|maskStack| - 1]) && conds == old(conds[..|conds| - 1])
              else maskStack == old(maskStack) && conds == old(conds)
    {
      hide MaskIs, HasThreadLevel, Entries;
      if n.tag in masks && maskStack != [] {
        ghost var were := conds;
        maskStack := maskStack[..|maskStack| - 1];
        conds := conds[..|conds| - 1];
        PrefixesAgree(were, conds);
      }
    }

    /** A visit leaves the stacks as it found them and annotates every scope inside correctly. */
    method Visit(n: Node)
      requires Valid() && Distinct(n) && Ids(n) !! masks.Keys
      modifies this
      ensures Valid() && pbStack == old(pbStack) && maskStack == old(maskStack)
      ensures conds == old(conds) && scope == old(scope)
      ensures threadDim == DimAfter(n, pbStack, old(threadDim))
      ensures Annotated(n, conds, scope, old(threadDim), masks)
      ensures forall id :: id !in Ids(n) ==>
                (id in masks <==> id in old(masks)) && (id in masks ==> masks[id] == old(masks)[id])
      decreases n
    {
      hide MaskIs, AllDecided, EntryOf, Entries, HasThreadLevel, Declares;
      ghost var stack, outer, masked, around := pbStack, conds, maskStack, scope;
      match n
      case Parallel(h, body) =>
        EnterParallel(h);
        ghost var entered := masks;
        VisitAll(body);
        assert SameOn({h.id}, entered, masks);
        assert pbStack[..|pbStack| - 1] == stack && scope[..|scope| - 1] == around;
        LeaveParallel();
      case InThreads(id, pred, body) =>
        EnterInThreads(n);
        ghost var entered := masks;
        VisitAll(body);
        assert SameOn({id}, entered, masks);
        LeaveInThreads(n);
        assert maskStack == masked && conds == outer;
      case Block(id, body) =>
        PropagateToBlock(id);
        ghost var entered := masks;
        VisitAll(body);
        assert SameOn({id}, entered, masks);
    }

    method VisitAll(ns: seq<Node>)
      requires Valid() && DistinctAll(ns) && IdsOfAll(ns) !! masks.Keys
      modifies this
      ensures Valid() && pbStack == old(pbStack) && maskStack == old(maskStack)
      ensures conds == old(conds) && scope == old(scope)
      ensures threadDim == DimAfterAll(ns, pbStack, old(threadDim))
      ensures AllAnnotated(ns, conds, scope, old(threadDim), masks)
      ensures forall id :: id !in IdsOfAll(ns) ==>
                (id in masks <==> id in old(masks)) && (id in masks ==> masks[id] == old(masks)[id])
      decreases ns
    {
      hide DimAfter, Annotated, Ids, Distinct, MaskIs, HasThreadLevel, Entries;
      if ns != [] {
        Visit(ns[0]);
        ghost var first := masks;
        VisitAll(ns[1..]);
        StillAnnotated(ns[0], conds, scope, old(threadDim), first, masks);
      }
    }
  }

  // ----- parts of the visitor -----

  method AnyThreadLevel(stack: seq<Entry>) returns (any: bool)
    ensures any == HasThreadLevel(stack)
  {
    for k := 0 to |stack|
      invariant forall j :: 0 <= j < k ==> !IsThreadLevel(stack[j].level)
    {
      if IsThreadLevel(stack[k].level) {
        return true;
      }
    }
    return false;
  }

  method CollectSubPVs(h: Header) returns (pvs: seq<PVInfo>)
    ensures pvs == SubPVs(h)
  {
    pvs := [];
    for i := 0 to |h.subs|
      invariant |pvs| == i && forall k :: 0 <= k < i ==> pvs[k] == SubPV(h, k)
    {
      var bound := -1;
      if i < |h.bounds| && h.bounds[i].Some? {
        bound := h.bounds[i].value;
      }
      pvs := pvs + [PVInfo(h.subs[i], h.level, bound)];
    }
  }

  method ComputeTotalBound(h: Header) returns (total: int)
    ensures total == TotalBound(h)
  {
    total := -1;
    if h.boundValue.Some? {
      if h.boundValue.value.Some? { total := h.boundValue.value.value; }
    } else if h.bounds != [] {
      total := 1;
      var i := 0;
      while i < |h.bounds|
        invariant i <= |h.bounds| && Product(h.bounds[..i]) == Some(total)
      {
        assert h.bounds[..i + 1][..i] == h.bounds[..i];
        if h.bounds[i].None? {
          UnknownFactor(h.bounds, i);
          return -1;
        }
        total := total * h.bounds[i].value;
        i := i + 1;
      }
      assert h.bounds[..i] == h.bounds;
    }
  }

  lemma {:induction false} UnknownFactor(bounds: seq<Option<int>>, i: nat)
    requires i < |bounds| && bounds[i].None?
    ensures Product(bounds).None?
    decreases |bounds|
  {
    if i < |bounds| - 1 { UnknownFactor(bounds[..|bounds| - 1], i); }
  }

  lemma PrefixesAgree(conds: seq<Cond>, front: seq<Cond>)
    requires front <= conds
    ensures forall k {:trigger conds[..k + 1]} {:trigger front[..k + 1]} :: 0 <= k < |front| ==>
              conds[..k + 1] == front[..k + 1]
  {
  }

  lemma KeepsThreadLevel(stack: seq<Entry>, entry: Entry)
    ensures HasThreadLevel(stack + [entry]) <==> HasThreadLevel(stack) || IsThreadLevel(entry.level)
  {
    var more := stack + [entry];
    if HasThreadLevel(stack) {
      var k :| 0 <= k < |stack| && IsThreadLevel(stack[k].level);
      assert more[k] == stack[k];
    }
    if IsThreadLevel(entry.level) { assert more[|stack|] == entry; }
  }

  lemma LosesOne(stack: seq<Entry>)
    requires stack != []
    ensures HasThreadLevel(stack) <==> HasThreadLevel(stack[..|stack| - 1]) || IsThreadLevel(stack[|stack| - 1].level)
  {
    assert stack == stack[..|stack| - 1] + [stack[|stack| - 1]];
    KeepsThreadLevel(stack[..|stack| - 1], stack[|stack| - 1]);
  }

  lemma MaskLength(mask: seq<bool>, conds: seq<Cond>, dim: int)
    requires MaskIs(mask, conds, dim)
    ensures |mask| == dim
  {
  }

  // ----- the thread count -----

  /** The whole of the parallel tells how many threads there are. */
  predicate TellsCount(h: Header) {
    Declares(h) && h.bpv.Some? && TotalBound(h) > 0
  }

  /** The thread count within a nest of parallels. */
  function CountInside(scope: seq<Header>, dim: int): int {
    if scope == [] then dim else DimInside(scope[|scope| - 1], CountInside(scope[..|scope| - 1], dim))
  }

  /** The outermost parallel that tells the thread count gives it, in threads of its units. */
  lemma {:induction false} OutermostGivesCount(scope: seq<Header>, k: nat)
    requires k <= |scope| && forall j :: 0 <= j < k ==> !TellsCount(scope[j])
    requires k < |scope| ==> TellsCount(scope[k])
    ensures CountInside(scope, -1) == if k == |scope| then -1
                                      else TotalBound(scope[k]) * match scope[k].level
                                                                  case GROUPx4 => 128
                                                                  case GROUP => 32
                                                                  case _ => 1
    decreases |scope|
  {
    hide TotalBound;
    if scope != [] {
      var init := scope[..|scope| - 1];
      if k < |init| {
        OutermostGivesCount(init, k);
      } else {
        OutermostGivesCount(init, |init|);
      }
    }
  }

  /** A known thread count stays while the parallel that gave it is open. */
  lemma {:induction false} KnownDimStays(n: Node, stack: seq<Entry>, dim: int)
    requires dim > 0 && HasThreadLevel(stack)
    ensures DimAfter(n, stack, dim) == dim
    decreases n
  {
    if n.Parallel? {
      KeepsThreadLevel(stack, EntryOf(n.header));
      KnownDimsStay(n.body, stack + [EntryOf(n.header)], dim);
    } else {
      KnownDimsStay(n.body, stack, dim);
    }
  }

  lemma {:induction false} KnownDimsStay(ns: seq<Node>, stack: seq<Entry>, dim: int)
    requires dim > 0 && HasThreadLevel(stack)
    ensures DimAfterAll(ns, stack, dim) == dim
    decreases ns
  {
    if ns != [] {
      KnownDimStays(ns[0], stack, dim);
      KnownDimsStay(ns[1..], stack, dim);
    }
  }

  /** Outside every thread-level parallel the count is unknown again after each visit. */
  lemma {:induction false} OutsideDimReturns(n: Node, stack: seq<Entry>)
    requires !HasThreadLevel(stack)
    ensures DimAfter(n, stack, -1) == -1
    decreases n
  {
    hide HasThreadLevel;
    if n.Parallel? {
      if !IsThreadLevel(n.header.level) {
        KeepsThreadLevel(stack, EntryOf(n.header));
        OutsideDimsReturn(n.body, stack + [EntryOf(n.header)]);
      }
    } else {
      OutsideDimsReturn(n.body, stack);
    }
  }

  lemma {:induction false} OutsideDimsReturn(ns: seq<Node>, stack: seq<Entry>)
    requires !HasThreadLevel(stack)
    ensures DimAfterAll(ns, stack, -1) == -1
    decreases ns
  {
    if ns != [] {
      OutsideDimReturns(ns[0], stack);
      OutsideDimsReturn(ns[1..], stack);
    }
  }

  /** Every visit gives the thread count back exactly when it was known or no thread-level parallel is
    open: below a thread-level parallel of unknown bound, the count found in one nested parallel is
    still there for its later siblings. */
  lemma DimReturnsIff(stack: seq<Entry>, dim: int)
    requires (dim == -1 || dim > 0) && (dim > 0 ==> HasThreadLevel(stack))
    ensures (forall n :: DimAfter(n, stack, dim) == dim) <==> (dim > 0 || !HasThreadLevel(stack))
  {
    if dim > 0 {
      forall n ensures DimAfter(n, stack, dim) == dim { KnownDimStays(n, stack, dim); }
    } else if !HasThreadLevel(stack) {
      forall n ensures DimAfter(n, stack, dim) == dim { OutsideDimReturns(n, stack); }
    } else {
      var h := Header(0, GROUP, true, [], Some("w"), Some(Some(4)), []);
      var n := Parallel(h, []);
      assert DimInside(h, dim) == 128;
      assert DimAfterAll([], stack + [EntryOf(h)], 128) == 128;
      assert DimAfter(n, stack, dim) == 128;
    }
  }
}
