/** Compile-time conditions as trees: how a tree is written, with blank space before every token and
  parentheses wherever they are needed or wanted, what it means, and that evaluating the text gives the
  meaning of the tree.
 */
module ConstexprTrees {
  import opened Basics
  import opened ConstexprValues
  import opened ConstexprParser

  /** A type name with the blank space around it. */
  datatype TypeRef = TypeRef(gap: string, name: string, after: string)

  /** `gap` is the blank space before the node's own token, `after` that before its second token. */
  datatype Expr =
    | Number(gap: string, digits: string, suffix: string)
    | Boolean(gap: string, value: bool)
    | SameType(gap: string, after: string, left: TypeRef, right: TypeRef)
    | Group(gap: string, arg: Expr, after: string)
    | Not(gap: string, arg: Expr)
    | Minus(gap: string, arg: Expr)
    | Plus(gap: string, arg: Expr)
    | Binary(gap: string, op: Op, lhs: Expr, rhs: Expr)

  ghost predicate IsBlank(s: string) {
    forall c :: c in s ==> IsSpace(c)
  }

  /** A literal spelling that denotes a 64-bit value. */
  predicate IsNumber(digits: string) {
    && digits != "" && LiteralValue(digits).Some?
    && NumberEnd(digits, 0) == |digits|
  }

  predicate IsTypeName(name: string) {
    name != "" && (forall k :: 0 <= k < |name| ==> IsTypeChar(name[k])) && Canonical(name).Some?
  }

  /** The type a name stands for, with or without the namespace. */
  function Canonical(name: string): Option<string> {
    CanonicalType(StripNamespace(name))
  }

  ghost predicate IsTypeRef(t: TypeRef) {
    IsBlank(t.gap) && IsTypeName(t.name) && IsBlank(t.after)
  }

  ghost predicate IsWellFormed(e: Expr) {
    IsBlank(e.gap) &&
    match e
    case Number(_, digits, suffix) => IsNumber(digits) && forall c :: c in suffix ==> IsSuffixChar(c)
    case Boolean(_, _) => true
    case SameType(_, after, left, right) => IsBlank(after) && IsTypeRef(left) && IsTypeRef(right)
    case Group(_, arg, after) => IsWellFormed(arg) && IsBlank(after)
    case Binary(_, _, l, r) => IsWellFormed(l) && IsWellFormed(r)
    case _ => IsWellFormed(e.arg)
  }

  /** How tightly the outermost operator binds. */
  function Precedence(e: Expr): nat {
    match e
    case Binary(_, op, _, _) => LevelOf(op)
    case _ => UNARY
  }

  /** Where an operand of a level is wanted: in further parentheses if it binds less tightly. */
  function Print(e: Expr, level: nat): string
    decreases e, 1
  {
    if Precedence(e) < level then "(" + Bare(e) + ")" else Bare(e)
  }

  function Written(t: TypeRef): string {
    t.gap + t.name + t.after
  }

  function Types(after: string, left: TypeRef, right: TypeRef): string {
    after + ("<" + (Written(left) + ("," + (Written(right) + ">"))))
  }

  /** Operators associate to the left. */
  function Bare(e: Expr): string
    decreases e, 0
  {
    match e
    case Number(gap, digits, suffix) => gap + digits + suffix
    case Boolean(gap, value) => gap + if value then "true" else "false"
    case SameType(gap, after, left, right) => gap + ("__is_same" + Types(after, left, right))
    case Group(gap, arg, after) => gap + ("(" + (Print(arg, 0) + (after + ")")))
    case Not(gap, arg) => gap + "!" + Print(arg, UNARY)
    case Minus(gap, arg) => gap + "-" + Print(arg, UNARY)
    case Plus(gap, arg) => gap + "+" + Print(arg, UNARY)
    case Binary(gap, op, l, r) => Print(l, LevelOf(op)) + gap + Spelling(op) + Print(r, LevelOf(op) + 1)
  }

  /** Short-circuit meaning in checked 64-bit arithmetic. */
  function Meaning(e: Expr): Outcome
    requires IsWellFormed(e)
  {
    match e
    case Number(_, digits, _) => Val(LiteralValue(digits).value)
    case Boolean(_, value) => Val(Truth(value))
    case SameType(_, _, left, right) => Val(Truth(Canonical(left.name) == Canonical(right.name)))
    case Group(_, arg, _) => Meaning(arg)
    case Not(_, arg) =>
      var a := Meaning(arg);
      if a.Fault? then a else Val(Truth(a.value == 0))
    case Minus(_, arg) =>
      var a := Meaning(arg);
      if a.Fault? then a else Checked(-a.value)
    case Plus(_, arg) => Meaning(arg)
    case Binary(_, op, l, r) =>
      var a := Meaning(l);
      if a.Fault? then a
      else if op.OrOp? && a.value != 0 then Val(1)
      else if op.AndOp? && a.value == 0 then Val(0)
      else
        var b := Meaning(r);
        if b.Fault? then b else Apply(op, a.value, b.value)
  }

  lemma {:induction false} MeaningInRange(e: Expr)
    requires IsWellFormed(e)
    ensures Meaning(e).Val? ==> InRange(Meaning(e).value)
    decreases e
  {
    hide Apply, LiteralValue, NumberEnd, IsTypeName, Canonical;
    match e
    case Number(_, digits, _) => NumberInRange(digits);
    case Boolean(_, _) =>
    case SameType(_, _, _, _) =>
    case Binary(_, op, l, r) =>
      MeaningInRange(l);
      MeaningInRange(r);
      if Meaning(l).Val? && Meaning(r).Val? { ApplyInRange(op, Meaning(l).value, Meaning(r).value); }
    case _ => MeaningInRange(e.arg);
  }

  lemma NumberInRange(digits: string)
    ensures LiteralValue(digits).Some? ==> InRange(LiteralValue(digits).value)
  {
  }

  // ----- reading a printed tree -----

  predicate IsArithmetic(e: Error) {
    !e.Syntax?
  }

  /** An operand stands here: the text from `p` to `q` reads as `out`, with the operators of its level
    that follow still to come. */
  ghost predicate ReadsAs(level: nat, text: string, p: nat, q: nat, out: Outcome, evaluate: bool)
    requires level <= UNARY && p <= |text| && q <= |text|
  {
    var s := ParseLevel(level, text, p, evaluate);
    match out
    case Val(v) =>
      InRange(v) && s == if level == UNARY then State(v, q, None) else Rest(level, text, State(v, q, None), evaluate)
    case Fault(_) => s.error.Some? && IsArithmetic(s.error.value)
  }

  /** The outcome of a node that is evaluated or skipped. */
  function Expected(e: Expr, evaluate: bool): Outcome
    requires IsWellFormed(e)
  {
    if evaluate then Meaning(e) else Val(0)
  }

  /** No operator of this level or a tighter one follows. */
  ghost predicate Quiet(level: nat, text: string, q: nat)
    requires q <= |text|
  {
    forall m: nat :: m >= level ==> OpAt(m, text, Skip(text, q)).None?
  }

  lemma SameRest(level: nat, text: string, v: int, q: nat, evaluate: bool)
    requires level < UNARY && q <= |text| && InRange(v)
    ensures Rest(level, text, State(v, q, None), evaluate) == Rest(level, text, State(v, Skip(text, q), None), evaluate)
  {
    hide OpAt, Skip, ParseLevel, Apply;
    SkipTwice(text, q);
  }

  /** What reads as an operand of a tighter level reads as one of a looser level. */
  lemma {:induction false} ReadsLooser(tight: nat, loose: nat, text: string, p: nat, q: nat, out: Outcome,
                                       evaluate: bool)
    requires loose <= tight <= UNARY && p <= |text| && q <= |text|
    requires ReadsAs(tight, text, p, q, out, evaluate) && Quiet(loose + 1, text, q)
    ensures ReadsAs(loose, text, p, q, out, evaluate)
    decreases tight - loose
  {
    hide Skip, OpAt, ParseLevel, Rest;
    if loose < tight {
      var next := tight - 1;
      LevelUnfolds(next, text, p, evaluate);
      match out {
        case Val(v) =>
          if tight < UNARY {
            assert OpAt(tight, text, Skip(text, q)).None?;
            RestStops(tight, text, v, q, evaluate);
            SameRest(next, text, v, q, evaluate);
          }
        case Fault(_) => RestOfError(next, text, ParseLevel(tight, text, p, evaluate), evaluate);
      }
      ReadsLooser(next, loose, text, p, q, out, evaluate);
    }
  }

  /** A slice of the text starting here. */
  ghost predicate Holds(text: string, p: nat, s: string) {
    p + |s| <= |text| && text[p..p + |s|] == s
  }

  lemma HoldsParts(text: string, p: nat, a: string, b: string)
    ensures Holds(text, p, a + b) <==> Holds(text, p, a) && Holds(text, p + |a|, b)
  {
    if p + |a + b| <= |text| {
      var s := text[p..p + |a + b|];
      assert s[..|a|] == text[p..p + |a|] && s[|a|..] == text[p + |a|..p + |a| + |b|];
      assert s == s[..|a|] + s[|a|..];
      assert (a + b)[..|a|] == a && (a + b)[|a|..] == b;
    }
  }

  lemma HoldsAt(text: string, p: nat, s: string, k: nat)
    requires Holds(text, p, s) && k < |s|
    ensures p + k < |text| && text[p + k] == s[k]
  {
  }

  /** Blank space and then something else: the skip ends at the something. */
  lemma SkipsBlank(text: string, p: nat, gap: string)
    requires Holds(text, p, gap) && IsBlank(gap) && (p + |gap| < |text| ==> !IsSpace(text[p + |gap|]))
    ensures Skip(text, p) == p + |gap|
  {
    forall k | p <= k < p + |gap| ensures IsSpace(text[k])
    {
      HoldsAt(text, p, gap, k - p);
    }
    RunEndIs(text, p, IsSpace, p + |gap|);
  }

  // ----- the first character of a printed tree -----

  predicate StartsOperand(c: char) {
    IsSpace(c) || IsIdentChar(c) || c == '(' || c == '!' || c == '-' || c == '+'
  }

  lemma {:induction false} PrintStarts(e: Expr, level: nat)
    requires IsWellFormed(e)
    ensures Print(e, level) != "" && StartsOperand(Print(e, level)[0])
    ensures Bare(e) != "" && StartsOperand(Bare(e)[0])
    decreases e
  {
    hide LiteralValue, Canonical, IsTypeName, Spelling, Types;
    match e
    case Number(gap, digits, suffix) =>
      NumberStarts(digits);
      StartOfBoth(gap, digits + suffix);
      assert gap + digits + suffix == gap + (digits + suffix);
    case Binary(gap, op, l, r) => PrintStarts(l, LevelOf(op));
    case SameType(gap, after, left, right) => StartOfBoth(gap, "__is_same" + Types(after, left, right));
    case Group(gap, arg, after) => StartOfBoth(gap, "(" + (Print(arg, 0) + (after + ")")));
    case Boolean(gap, value) => StartOfBoth(gap, if value then "true" else "false");
    case Not(gap, arg) =>
      StartOfBoth(gap, "!" + Print(arg, UNARY));
      assert Bare(e) == gap + ("!" + Print(arg, UNARY));
    case Minus(gap, arg) =>
      StartOfBoth(gap, "-" + Print(arg, UNARY));
      assert Bare(e) == gap + ("-" + Print(arg, UNARY));
    case Plus(gap, arg) =>
      StartOfBoth(gap, "+" + Print(arg, UNARY));
      assert Bare(e) == gap + ("+" + Print(arg, UNARY));
  }

  lemma StartOfBoth(gap: string, rest: string)
    requires IsBlank(gap) && rest != "" && StartsOperand(rest[0])
    ensures gap + rest != "" && StartsOperand((gap + rest)[0])
  {
  }

  lemma NumberStarts(digits: string)
    requires IsNumber(digits)
    ensures digits != "" && IsDigit(digits[0])
  {
  }

  // ----- the leaves -----

  lemma {:induction false} RunEndMoves(text: string, p: nat, s: string, pred: char -> bool)
    requires Holds(text, p, s) && (p + |s| < |text| ==> !pred(text[p + |s|]))
    ensures p + RunEnd(s, 0, pred) == RunEnd(text, p, pred)
  {
    var n := RunEnd(s, 0, pred);
    forall k | p <= k < p + n ensures pred(text[k])
    {
      HoldsAt(text, p, s, k - p);
    }
    if n < |s| { HoldsAt(text, p, s, n); }
    RunEndIs(text, p, pred, p + n);
  }

  /** A literal ends in the text where it ends by itself, if no letter or digit follows its suffix. */
  lemma NumberReads(text: string, p: nat, digits: string, suffix: string, evaluate: bool)
    requires IsNumber(digits) && (forall c :: c in suffix ==> IsSuffixChar(c)) && Holds(text, p, digits + suffix)
    requires EndsWord(text, p + |digits| + |suffix|)
    ensures ParseNumber(text, p, evaluate)
            == State(if evaluate then LiteralValue(digits).value else 0, p + |digits| + |suffix|, None)
  {
    hide LiteralValue;
    HoldsParts(text, p, digits, suffix);
    var end, q := p + |digits|, p + |digits| + |suffix|;
    assert text[p..end] == digits;
    NumberEndMoves(text, p, digits, suffix);
    forall k | end <= k < q ensures IsSuffixChar(text[k])
    {
      HoldsAt(text, end, suffix, k - end);
    }
    RunEndIs(text, end, IsSuffixChar, q);
  }

  lemma NumberEndMoves(text: string, p: nat, digits: string, suffix: string)
    requires IsNumber(digits) && (forall c :: c in suffix ==> IsSuffixChar(c)) && Holds(text, p, digits + suffix)
    requires EndsWord(text, p + |digits| + |suffix|)
    ensures NumberEnd(text, p) == p + |digits|
  {
    hide LiteralValue, RunEnd, IsHexDigit;
    HoldsParts(text, p, digits, suffix);
    var end := p + |digits|;
    NextAfter(text, p, digits, suffix);
    forall k: nat | k < |digits| { HoldsAt(text, p, digits, k); }
    if HasHexPrefix(digits) {
      assert digits[..2] + digits[2..] == digits;
      HoldsParts(text, p, digits[..2], digits[2..]);
      RunEndMoves(text, p + 2, digits[2..], IsHexDigit);
      RunEndMoves(digits, 2, digits[2..], IsHexDigit);
    } else {
      RunEndMoves(text, p, digits, IsDigit);
      NoHexPrefix(text, p, digits, suffix);
    }
  }

  /** What follows the digits is neither a digit nor the letter of a hexadecimal prefix. */
  lemma NextAfter(text: string, p: nat, digits: string, suffix: string)
    requires (forall c :: c in suffix ==> IsSuffixChar(c)) && Holds(text, p, digits + suffix)
    requires EndsWord(text, p + |digits| + |suffix|)
    ensures p + |digits| < |text| ==>
              var c := text[p + |digits|]; !IsHexDigit(c) && !IsDigit(c) && c != 'x' && c != 'X'
  {
    HoldsParts(text, p, digits, suffix);
    if suffix != "" {
      HoldsAt(text, p + |digits|, suffix, 0);
      assert IsSuffixChar(suffix[0]);
    } else {
      assert |suffix| == 0;
    }
  }

  lemma NoHexPrefix(text: string, p: nat, digits: string, suffix: string)
    requires IsNumber(digits) && !HasHexPrefix(digits) && (forall c :: c in suffix ==> IsSuffixChar(c))
    requires Holds(text, p, digits + suffix) && EndsWord(text, p + |digits| + |suffix|)
    ensures p <= |text| && !HasHexPrefix(text[p..])
  {
    hide LiteralValue;
    HoldsParts(text, p, digits, suffix);
    NextAfter(text, p, digits, suffix);
    HoldsAt(text, p, digits, 0);
    if |digits| > 1 { HoldsAt(text, p, digits, 1); }
  }

  /** A token after its gap: the skip ends at the token. */
  lemma TokenStarts(text: string, p: nat, gap: string, token: string)
    requires Holds(text, p, gap + token) && IsBlank(gap) && token != "" && !IsSpace(token[0])
    ensures p + |gap| + |token| <= |text| && Skip(text, p) == p + |gap| && StartsAt(text, p + |gap|, token)
  {
    HoldsParts(text, p, gap, token);
    HoldsAt(text, p + |gap|, token, 0);
    SkipsBlank(text, p, gap);
  }

  /** A character decides which one-character tokens stand here. */
  lemma OneCharToken(text: string, p: nat, c: char)
    requires p <= |text|
    ensures StartsAt(text, p, [c]) <==> p < |text| && text[p] == c
  {
    if p < |text| { assert text[p..p + 1] == [text[p]]; }
  }

  /** An operand that starts with a letter, a digit or a parenthesis is no unary operator. */
  lemma UnaryIsPrimary(text: string, p: nat, evaluate: bool)
    requires p <= |text|
    requires var s := Skip(text, p); s < |text| && text[s] != '!' && text[s] != '-' && text[s] != '+'
    ensures ParseUnary(text, p, evaluate) == ParsePrimary(text, p, evaluate)
  {
    hide Skip, StartsAt, ParseSameType, ParseNumber, AfterGroup, WordAt, ParseLevel;
    var s := Skip(text, p);
    OneCharToken(text, s, '!');
    OneCharToken(text, s, '-');
    OneCharToken(text, s, '+');
    SkipTwice(text, p);
  }

  /** Words that begin with different characters do not stand at the same place. */
  lemma NotThatWord(text: string, p: nat, word: string)
    requires p < |text| && word != "" && word[0] != text[p]
    ensures !StartsAt(text, p, word) && !WordAt(text, p, word)
  {
  }

  lemma PrimaryIsNumber(text: string, p: nat, s: nat, evaluate: bool)
    requires p <= |text| && s == Skip(text, p) && s < |text| && IsDigit(text[s])
    ensures ParseUnary(text, p, evaluate) == ParseNumber(text, s, evaluate)
  {
    hide Skip, RunEnd, ParseNumber, ParseSameType, AfterGroup, StartsAt, WordAt, ParseUnary;
    UnaryIsPrimary(text, p, evaluate);
    OneCharToken(text, s, '(');
    NotThatWord(text, s, "true");
    NotThatWord(text, s, "false");
    NotThatWord(text, s, "__is_same");
  }

  lemma PrimaryIsSameType(text: string, p: nat, s: nat, evaluate: bool)
    requires p <= |text| && s == Skip(text, p) && s < |text| && text[s] == '_' && WordAt(text, s, "__is_same")
    ensures ParseUnary(text, p, evaluate) == ParseSameType(text, s + 9, evaluate)
  {
    hide Skip, RunEnd, ParseNumber, ParseSameType, AfterGroup, StartsAt, WordAt, ParseUnary;
    UnaryIsPrimary(text, p, evaluate);
    OneCharToken(text, s, '(');
    NotThatWord(text, s, "true");
    NotThatWord(text, s, "false");
  }

  lemma NumberLeaf(text: string, p: nat, gap: string, digits: string, suffix: string, evaluate: bool)
    requires IsBlank(gap) && IsNumber(digits) && (forall c :: c in suffix ==> IsSuffixChar(c))
    requires Holds(text, p, gap + digits + suffix) && EndsWord(text, p + |gap + digits + suffix|)
    ensures ParseUnary(text, p, evaluate)
            == State(if evaluate then LiteralValue(digits).value else 0, p + |gap + digits + suffix|, None)
  {
    hide LiteralValue, ParseNumber, NumberEnd, ParseUnary, Skip, StartsAt;
    assert gap + digits + suffix == gap + (digits + suffix);
    NumberStarts(digits);
    TokenStarts(text, p, gap, digits + suffix);
    HoldsParts(text, p, gap, digits + suffix);
    var s := p + |gap|;
    HoldsAt(text, s, digits + suffix, 0);
    PrimaryIsNumber(text, p, s, evaluate);
    NumberReads(text, s, digits, suffix, evaluate);
  }

  lemma BooleanLeaf(text: string, p: nat, gap: string, value: bool, evaluate: bool)
    requires var word := if value then "true" else "false";
             IsBlank(gap) && Holds(text, p, gap + word) && EndsWord(text, p + |gap + word|)
    ensures var word := if value then "true" else "false";
            ParseUnary(text, p, evaluate) == State(Truth(evaluate && value), p + |gap + word|, None)
  {
    hide ParseNumber, ParseSameType;
    var word := if value then "true" else "false";
    TokenStarts(text, p, gap, word);
    HoldsParts(text, p, gap, word);
    var s := p + |gap|;
    HoldsAt(text, s, word, 0);
    UnaryIsPrimary(text, p, evaluate);
    OneCharToken(text, s, '(');
    if !value { NotThatWord(text, s, "true"); }
  }

  lemma TypeNameReads(text: string, p: nat, gap: string, name: string)
    requires IsBlank(gap) && IsTypeName(name) && Holds(text, p, gap + name)
    requires var q := p + |gap + name|; q < |text| ==> !IsTypeChar(text[q])
    ensures ParseTypeName(text, p) == (StripNamespace(name), p + |gap + name|)
  {
    hide Canonical, Skip, StripNamespace;
    HoldsParts(text, p, gap, name);
    var s := p + |gap|;
    HoldsAt(text, s, name, 0);
    assert IsTypeChar(name[0]);
    SkipsBlank(text, p, gap);
    forall k | s <= k < s + |name| ensures IsTypeChar(text[k])
    {
      HoldsAt(text, s, name, k - s);
    }
    RunEndIs(text, s, IsTypeChar, s + |name|);
  }

  lemma FirstAfterBlank(gap: string, c: char)
    requires IsBlank(gap)
    ensures (gap + [c])[0] == c || IsSpace((gap + [c])[0])
  {
    if gap != "" {
      assert gap[0] in gap && (gap + [c])[0] == gap[0];
    } else {
      assert gap + [c] == [c];
    }
  }

  /** A type name with blank space around it, and the punctuation behind it. */
  lemma TypeRefReads(text: string, p: nat, t: TypeRef, c: char)
    requires IsTypeRef(t) && Holds(text, p, Written(t) + [c]) && !IsSpace(c) && !IsTypeChar(c)
    ensures p <= |text| && ParseTypeName(text, p).0 == StripNamespace(t.name)
    ensures var q := p + |Written(t)|; q < |text| && Skip(text, ParseTypeName(text, p).1) == q && StartsAt(text, q, [c])
  {
    hide Canonical, Skip, StripNamespace, ParseTypeName, IsTypeName, StartsAt;
    var front, behind := t.gap + t.name, t.after + [c];
    assert Written(t) + [c] == front + behind;
    HoldsParts(text, p, front, behind);
    var m := p + |front|;
    HoldsAt(text, m, behind, 0);
    FirstAfterBlank(t.after, c);
    TypeNameReads(text, p, t.gap, t.name);
    TokenStarts(text, m, t.after, [c]);
  }

  lemma NamesAreTypes(name: string)
    requires IsTypeName(name)
    ensures StripNamespace(name) != "" && CanonicalType(StripNamespace(name)).Some?
  {
    assert CanonicalType("").None?;
  }

  lemma SameTypeReads(text: string, p: nat, after: string, left: TypeRef, right: TypeRef, evaluate: bool)
    requires IsBlank(after) && IsTypeRef(left) && IsTypeRef(right) && Holds(text, p, Types(after, left, right))
    ensures ParseSameType(text, p, evaluate)
            == State(Truth(evaluate && Canonical(left.name) == Canonical(right.name)),
                     p + |Types(after, left, right)|, None)
  {
    hide CanonicalType, ParseTypeName, Skip, StartsAt, RunEnd, Written, IsTypeName, StripNamespace;
    var tail := Written(right) + ">";
    var rest := Written(left) + ("," + tail);
    assert after + ("<" + rest) == (after + "<") + rest;
    HoldsParts(text, p, after + "<", rest);
    TokenStarts(text, p, after, "<");
    var a := p + |after| + 1;
    assert rest == (Written(left) + ",") + tail;
    HoldsParts(text, a, Written(left) + ",", tail);
    TypeRefReads(text, a, left, ',');
    TypeRefReads(text, a + |Written(left)| + 1, right, '>');
    NamesAreTypes(left.name);
    NamesAreTypes(right.name);
  }

  lemma PunctuationHere(text: string, p: nat, c: char)
    requires Holds(text, p, [c]) && !IsSpace(c)
    ensures p < |text| && text[p] == c && Skip(text, p) == p && StartsAt(text, p, [c])
  {
    HoldsAt(text, p, [c], 0);
    RunEndIs(text, p, IsSpace, p);
  }

  lemma TypesStart(after: string, left: TypeRef, right: TypeRef)
    requires IsBlank(after)
    ensures Types(after, left, right) != "" && !IsIdentChar(Types(after, left, right)[0])
  {
    hide Written;
    var names := Written(left) + ("," + (Written(right) + ">"));
    var rest := "<" + names;
    assert rest[0] == '<';
    assert Types(after, left, right) == after + rest;
    if after != "" {
      assert after[0] in after && (after + rest)[0] == after[0];
    } else {
      assert after + rest == rest;
    }
  }

  lemma SameTypeLeaf(text: string, p: nat, gap: string, after: string, left: TypeRef, right: TypeRef, evaluate: bool)
    requires IsBlank(gap) && IsBlank(after) && IsTypeRef(left) && IsTypeRef(right)
    requires Holds(text, p, gap + ("__is_same" + Types(after, left, right)))
    ensures ParseUnary(text, p, evaluate)
            == State(Truth(evaluate && Canonical(left.name) == Canonical(right.name)),
                     p + |gap + ("__is_same" + Types(after, left, right))|, None)
  {
    hide Canonical, ParseSameType, ParseUnary, IsTypeName, Skip, Types, IsTypeRef;
    var word, rest := "__is_same", Types(after, left, right);
    TypesStart(after, left, right);
    TokenStarts(text, p, gap, word + rest);
    HoldsParts(text, p, gap, word + rest);
    var s := p + |gap|;
    HoldsParts(text, s, word, rest);
    HoldsAt(text, s, word, 0);
    HoldsAt(text, s + 9, rest, 0);
    PrimaryIsSameType(text, p, s, evaluate);
    SameTypeReads(text, s + 9, after, left, right, evaluate);
  }

  // ----- the inner nodes -----

  lemma QuietAt(level: nat, text: string, q: nat)
    requires q <= |text| && (var s := Skip(text, q); s < |text| ==> !IsOpChar(text[s]))
    ensures Quiet(level, text, q)
  {
    hide OpAt, Skip, IsOpChar;
    forall m: nat { NoOpAt(m, text, Skip(text, q)); }
  }

  lemma QuietHigher(low: nat, high: nat, text: string, q: nat)
    requires q <= |text| && low <= high && Quiet(low, text, q)
    ensures Quiet(high, text, q)
  {
    hide OpAt, Skip;
  }

  lemma GroupReads(text: string, p: nat, gap: string, m: nat, after: string, out: Outcome, evaluate: bool)
    requires Holds(text, p, gap + "(") && IsBlank(gap) && Holds(text, m, after + ")") && IsBlank(after)
    requires ReadsAs(0, text, p + |gap| + 1, m, out, evaluate)
    ensures ReadsAs(UNARY, text, p, m + |after| + 1, out, evaluate)
  {
    hide Skip, RunEnd, OpAt, StartsAt, WordAt, ParseLevel, Rest, ParseUnary, ParsePrimary;
    var s, close := p + |gap|, m + |after|;
    TokenStarts(text, p, gap, "(");
    TokenStarts(text, m, after, ")");
    OneCharToken(text, s, '(');
    OneCharToken(text, close, ')');
    UnaryIsPrimary(text, p, evaluate);
    GroupUnfolds(text, p, evaluate);
    UnaryLevel(text, p, evaluate);
    NoOpAt(0, text, close);
    SkipTwice(text, m);
    if out.Val? {
      RestStops(0, text, out.value, m, evaluate);
    }
  }

  lemma ParenthesesRead(text: string, p: nat, q: nat, out: Outcome, evaluate: bool)
    requires p + 2 <= q <= |text| && Holds(text, p, "(") && Holds(text, q - 1, ")")
    requires ReadsAs(0, text, p + 1, q - 1, out, evaluate)
    ensures ReadsAs(UNARY, text, p, q, out, evaluate)
  {
    hide ReadsAs;
    assert "" + "(" == "(" && "" + ")" == ")";
    GroupReads(text, p, "", q - 1, "", out, evaluate);
  }

  lemma GroupUnfolds(text: string, p: nat, evaluate: bool)
    requires p <= |text| && StartsAt(text, Skip(text, p), "(")
    ensures ParsePrimary(text, p, evaluate) == AfterGroup(text, ParseLevel(0, text, Skip(text, p) + 1, evaluate))
  {
    hide Skip, StartsAt, WordAt, ParseLevel, AfterGroup;
  }

  lemma UnaryLevel(text: string, p: nat, evaluate: bool)
    requires p <= |text|
    ensures ParseLevel(UNARY, text, p, evaluate) == ParseUnary(text, p, evaluate)
  {
    hide ParseUnary;
  }

  lemma UnaryUnfolds(text: string, p: nat, gap: string, c: char, evaluate: bool)
    requires Holds(text, p, gap + [c]) && IsBlank(gap) && (c == '!' || c == '-' || c == '+')
    ensures var start := p + |gap| + 1;
            && start <= |text|
            && var inner := ParseLevel(UNARY, text, start, evaluate);
               ParseLevel(UNARY, text, p, evaluate)
               == if c == '!' then AfterNot(inner, evaluate)
                  else if c == '-' then AfterMinus(inner, evaluate) else inner
  {
    hide Skip, StartsAt, ParsePrimary, AfterNot, AfterMinus;
    TokenStarts(text, p, gap, [c]);
    var s := p + |gap|;
    OneCharToken(text, s, '!');
    OneCharToken(text, s, '-');
    OneCharToken(text, s, '+');
    OneCharToken(text, s, c);
    UnaryLevel(text, p, evaluate);
    UnaryLevel(text, s + 1, evaluate);
  }

  lemma OperatorStarts(op: Op)
    ensures !IsSpace(Spelling(op)[0]) && !IsIdentChar(Spelling(op)[0])
  {
  }

  /** An operator after its gap ends the word before it and is the operator that is found. */
  lemma OperatorFollows(text: string, mid: nat, gap: string, op: Op)
    requires Holds(text, mid, gap + Spelling(op)) && IsBlank(gap)
    requires var after := mid + |gap + Spelling(op)|; after < |text| ==> text[after] != '='
    ensures mid <= |text| && EndsWord(text, mid) && Quiet(LevelOf(op) + 1, text, mid)
    ensures OpAt(LevelOf(op), text, Skip(text, mid)) == Some(op) && Skip(text, mid) == mid + |gap|
  {
    hide Skip, RunEnd, OpAt, Spelling, LevelOf;
    OperatorStarts(op);
    TokenStarts(text, mid, gap, Spelling(op));
    HoldsParts(text, mid, gap, Spelling(op));
    OpAtIs(op, text, mid + |gap|);
    HoldsAt(text, mid, gap + Spelling(op), 0);
    if gap == "" {
      assert (gap + Spelling(op))[0] == Spelling(op)[0];
    } else {
      assert gap[0] in gap && (gap + Spelling(op))[0] == gap[0];
    }
  }

  /** What a binary node comes to. */
  function Join(op: Op, a: Outcome, b: Outcome, evaluate: bool): Outcome {
    if a.Fault? then a else if b.Fault? then b else if evaluate then Apply(op, a.value, b.value) else a
  }

  lemma ApplyFaults(op: Op, a: int, b: int)
    ensures Apply(op, a, b).Fault? ==> IsArithmetic(Apply(op, a, b).error)
  {
    hide TruncatedQuotient, TruncatedRemainder;
  }

  lemma BinaryReads(op: Op, gap: string, text: string, p: nat, mid: nat, q: nat, a: int, b: Outcome, evaluate: bool)
    requires p <= mid <= q <= |text| && IsBlank(gap) && Holds(text, mid, gap + Spelling(op))
    requires var after := mid + |gap + Spelling(op)|; after < |text| ==> text[after] != '='
    requires ReadsAs(LevelOf(op), text, p, mid, Val(a), evaluate)
    requires ReadsAs(LevelOf(op) + 1, text, mid + |gap + Spelling(op)|, q, b, EvaluatesRight(op, a, evaluate))
    requires Quiet(LevelOf(op) + 1, text, q)
    ensures ReadsAs(LevelOf(op), text, p, q, Join(op, Val(a), b, evaluate), evaluate)
  {
    hide Skip, RunEnd, OpAt, StartsAt, ParseLevel, Rest, Apply, Spelling, EndsWord, LevelOf;
    var level, after := LevelOf(op), mid + |gap + Spelling(op)|;
    var right := EvaluatesRight(op, a, evaluate);
    OperatorFollows(text, mid, gap, op);
    RestGoesOn(level, text, a, mid, op, evaluate);
    var rhs := ParseLevel(level + 1, text, after, right);
    if b.Val? && level + 1 < UNARY {
      RestStops(level + 1, text, b.value, q, right);
    }
    var next := Combine(op, a, rhs, evaluate);
    ApplyFaults(op, a, rhs.value);
    if next.error.Some? {
      RestOfError(level, text, next, evaluate);
    } else {
      SameRest(level, text, next.value, q, evaluate);
    }
  }

  lemma JoinIsMeaning(e: Expr, evaluate: bool)
    requires IsWellFormed(e) && e.Binary?
    ensures var a := Expected(e.lhs, evaluate);
            if a.Fault? then Expected(e, evaluate) == a
            else
              var b := Expected(e.rhs, EvaluatesRight(e.op, a.value, evaluate));
              Expected(e, evaluate) == Join(e.op, a, b, evaluate)
  {
  }

  /** A printed operand reads as its meaning where no tighter operator follows. */
  lemma {:induction false} ReadsPrinted(e: Expr, level: nat, text: string, p: nat, evaluate: bool)
    requires IsWellFormed(e) && level <= UNARY && Holds(text, p, Print(e, level))
    requires var q := p + |Print(e, level)|; EndsWord(text, q) && Quiet(level + 1, text, q)
    ensures ReadsAs(level, text, p, p + |Print(e, level)|, Expected(e, evaluate), evaluate)
    decreases e, 2
  {
    hide ReadsAs, Quiet, OpAt, Skip, Bare, Meaning, IsWellFormed, RunEnd;
    var q, out := p + |Print(e, level)|, Expected(e, evaluate);
    if Precedence(e) < level {
      assert "(" + Bare(e) + ")" == "(" + (Bare(e) + ")");
      HoldsParts(text, p, "(", Bare(e) + ")");
      HoldsParts(text, p + 1, Bare(e), ")");
      PunctuationHere(text, q - 1, ')');
      QuietAt(0, text, q - 1);
      QuietHigher(0, Precedence(e) + 1, text, q - 1);
      ReadsBare(e, text, p + 1, evaluate);
      QuietHigher(0, 1, text, q - 1);
      ReadsLooser(Precedence(e), 0, text, p + 1, q - 1, out, evaluate);
      ParenthesesRead(text, p, q, out, evaluate);
      ReadsLooser(UNARY, level, text, p, q, out, evaluate);
    } else {
      QuietHigher(level + 1, Precedence(e) + 1, text, q);
      ReadsBare(e, text, p, evaluate);
      ReadsLooser(Precedence(e), level, text, p, q, out, evaluate);
    }
  }

  lemma {:induction false} ReadsBare(e: Expr, text: string, p: nat, evaluate: bool)
    requires IsWellFormed(e) && Holds(text, p, Bare(e))
    requires var q := p + |Bare(e)|; EndsWord(text, q) && Quiet(Precedence(e) + 1, text, q)
    ensures ReadsAs(Precedence(e), text, p, p + |Bare(e)|, Expected(e, evaluate), evaluate)
    decreases e, 1
  {
    match e
    case Binary(_, _, _, _) => BinaryBare(e, text, p, evaluate);
    case Not(_, _) => UnaryBare(e, text, p, evaluate);
    case Minus(_, _) => UnaryBare(e, text, p, evaluate);
    case Plus(_, _) => UnaryBare(e, text, p, evaluate);
    case Group(_, _, _) => GroupBare(e, text, p, evaluate);
    case _ => LeafReads(e, text, p, evaluate);
  }

  lemma LeafReads(e: Expr, text: string, p: nat, evaluate: bool)
    requires IsWellFormed(e) && (e.Number? || e.Boolean? || e.SameType?)
    requires Holds(text, p, Bare(e)) && EndsWord(text, p + |Bare(e)|)
    ensures ReadsAs(UNARY, text, p, p + |Bare(e)|, Expected(e, evaluate), evaluate)
  {
    hide LiteralValue, Canonical, ParseUnary, IsTypeRef, NumberEnd, Types;
    UnaryLevel(text, p, evaluate);
    match e
    case Number(gap, digits, suffix) =>
      NumberLeaf(text, p, gap, digits, suffix, evaluate);
      NumberInRange(digits);
    case Boolean(gap, value) => BooleanLeaf(text, p, gap, value, evaluate);
    case SameType(gap, after, left, right) => SameTypeLeaf(text, p, gap, after, left, right, evaluate);
  }

  lemma {:induction false} UnaryBare(e: Expr, text: string, p: nat, evaluate: bool)
    requires IsWellFormed(e) && (e.Not? || e.Minus? || e.Plus?) && Holds(text, p, Bare(e))
    requires var q := p + |Bare(e)|; EndsWord(text, q) && Quiet(UNARY + 1, text, q)
    ensures ReadsAs(UNARY, text, p, p + |Bare(e)|, Expected(e, evaluate), evaluate)
    decreases e, 0
  {
    hide ParseLevel, Quiet, OpAt, Skip, RunEnd, Print;
    var c := if e.Not? then '!' else if e.Minus? then '-' else '+';
    var arg := Print(e.arg, UNARY);
    assert Bare(e) == (e.gap + [c]) + arg;
    HoldsParts(text, p, e.gap + [c], arg);
    UnaryUnfolds(text, p, e.gap, c, evaluate);
    ReadsPrinted(e.arg, UNARY, text, p + |e.gap| + 1, evaluate);
    MeaningInRange(e.arg);
  }

  lemma {:induction false} GroupBare(e: Expr, text: string, p: nat, evaluate: bool)
    requires IsWellFormed(e) && e.Group? && Holds(text, p, Bare(e))
    ensures ReadsAs(UNARY, text, p, p + |Bare(e)|, Expected(e, evaluate), evaluate)
    decreases e, 0
  {
    hide ReadsAs, Quiet, OpAt, Skip, RunEnd, Print, IsWellFormed, Meaning, Expected, StartsAt;
    var inner, closing := Print(e.arg, 0), e.after + ")";
    GroupParts(e);
    assert Bare(e) == (e.gap + "(") + (inner + closing);
    HoldsParts(text, p, e.gap + "(", inner + closing);
    var start := p + |e.gap| + 1;
    HoldsParts(text, start, inner, closing);
    var m := start + |inner|;
    ClosingEnds(text, m, e.after);
    ReadsPrinted(e.arg, 0, text, start, evaluate);
    GroupReads(text, p, e.gap, m, e.after, Expected(e, evaluate), evaluate);
  }

  lemma ClosingEnds(text: string, m: nat, after: string)
    requires Holds(text, m, after + ")") && IsBlank(after)
    ensures m <= |text| && EndsWord(text, m) && Quiet(1, text, m)
  {
    hide Skip, OpAt, RunEnd;
    TokenStarts(text, m, after, ")");
    HoldsAt(text, m, after + ")", 0);
    HoldsAt(text, m, after + ")", |after|);
    FirstAfterBlank(after, ')');
    QuietAt(1, text, m);
  }

  lemma GroupParts(e: Expr)
    requires IsWellFormed(e) && e.Group?
    ensures IsBlank(e.gap) && IsBlank(e.after) && IsWellFormed(e.arg)
    ensures forall evaluate :: Expected(e, evaluate) == Expected(e.arg, evaluate)
  {
  }

  /** Where the parts of a binary node stand. */
  lemma BinaryParts(e: Expr, text: string, p: nat)
    requires IsWellFormed(e) && e.Binary? && Holds(text, p, Bare(e))
    ensures var l, token, r := Print(e.lhs, LevelOf(e.op)), e.gap + Spelling(e.op), Print(e.rhs, LevelOf(e.op) + 1);
            && Holds(text, p, l) && Holds(text, p + |l|, token) && Holds(text, p + |l| + |token|, r)
            && 0 < |r| && p + |l| + |token| + |r| == p + |Bare(e)| <= |text| && text[p + |l| + |token|] != '='
  {
    hide Print, Spelling, LevelOf;
    var l, token, r := Print(e.lhs, LevelOf(e.op)), e.gap + Spelling(e.op), Print(e.rhs, LevelOf(e.op) + 1);
    assert Bare(e) == l + (token + r);
    HoldsParts(text, p, l, token + r);
    HoldsParts(text, p + |l|, token, r);
    PrintStarts(e.rhs, LevelOf(e.op) + 1);
    HoldsAt(text, p + |l| + |token|, r, 0);
  }

  lemma {:induction false} BinaryBare(e: Expr, text: string, p: nat, evaluate: bool)
    requires IsWellFormed(e) && e.Binary? && Holds(text, p, Bare(e))
    requires var q := p + |Bare(e)|; EndsWord(text, q) && Quiet(LevelOf(e.op) + 1, text, q)
    ensures ReadsAs(LevelOf(e.op), text, p, p + |Bare(e)|, Expected(e, evaluate), evaluate)
    decreases e, 0
  {
    hide ReadsAs, Quiet, OpAt, Skip, RunEnd, Print, Bare, Holds, Meaning, Spelling, LevelOf, EndsWord, Apply;
    var level, q := LevelOf(e.op), p + |Bare(e)|;
    var mid := p + |Print(e.lhs, level)|;
    var after := mid + |e.gap + Spelling(e.op)|;
    BinaryParts(e, text, p);
    OperatorFollows(text, mid, e.gap, e.op);
    ReadsPrinted(e.lhs, level, text, p, evaluate);
    JoinIsMeaning(e, evaluate);
    var a := Expected(e.lhs, evaluate);
    if a.Fault? {
      FaultAnywhere(level, text, p, mid, q, a, evaluate);
    } else {
      var right := EvaluatesRight(e.op, a.value, evaluate);
      QuietHigher(level + 1, level + 2, text, q);
      ReadsPrinted(e.rhs, level + 1, text, after, right);
      BinaryReads(e.op, e.gap, text, p, mid, q, a.value, Expected(e.rhs, right), evaluate);
    }
  }

  lemma FaultAnywhere(level: nat, text: string, p: nat, mid: nat, q: nat, a: Outcome, evaluate: bool)
    requires level <= UNARY && p <= |text| && mid <= |text| && q <= |text| && a.Fault?
    requires ReadsAs(level, text, p, mid, a, evaluate)
    ensures ReadsAs(level, text, p, q, a, evaluate)
  {
    hide ParseLevel;
  }

  // ----- main results -----

  lemma TailEnds(body: string, tail: string)
    requires IsBlank(tail)
    ensures var text, q := body + tail, |body|;
            Holds(text, 0, body) && EndsWord(text, q) && Quiet(0, text, q) && Skip(text, q) == |text|
  {
    hide OpAt, RunEnd, Skip;
    var text, q := body + tail, |body|;
    assert text[..q] == body && text[q..] == tail;
    HoldsParts(text, 0, body, tail);
    SkipsBlank(text, q, tail);
    QuietAt(0, text, q);
    if q < |text| { assert text[q] == tail[0] && tail[0] in tail; }
  }

  /** Evaluating the text of a tree gives the truth of its meaning, and ends in an arithmetic error
    exactly when the meaning is a fault. */
  lemma PrintedTreeEvaluates(e: Expr, tail: string)
    requires IsWellFormed(e) && IsBlank(tail)
    ensures var r, out := Evaluation(Print(e, 0) + tail), Meaning(e);
            match out
            case Val(v) => r == (v != 0, None)
            case Fault(_) => r.1.Some? && IsArithmetic(r.1.value)
  {
    hide ParseLevel, Rest, OpAt, Meaning, Print, RunEnd, Quiet, Skip, EndsWord, Holds, IsWellFormed;
    var text, q := Print(e, 0) + tail, |Print(e, 0)|;
    TailEnds(Print(e, 0), tail);
    QuietHigher(0, 1, text, q);
    ReadsPrinted(e, 0, text, 0, true);
    if Meaning(e).Val? {
      RestStops(0, text, Meaning(e).value, q, true);
    }
    SkipTwice(text, q);
  }

  /** A skipped tree is passed over completely and never faults. */
  lemma SkippedTreeIsPassed(e: Expr, level: nat, text: string, p: nat)
    requires IsWellFormed(e) && level <= UNARY && Holds(text, p, Print(e, level))
    requires var q := p + |Print(e, level)|; EndsWord(text, q) && Quiet(level, text, q)
    ensures var s, q := ParseLevel(level, text, p, false), p + |Print(e, level)|;
            s.error.None? && s.value == 0 && s.pos == if level == UNARY then q else Skip(text, q)
  {
    hide ParseLevel, Rest, OpAt, Print, Skip;
    var q := p + |Print(e, level)|;
    QuietHigher(level, level + 1, text, q);
    ReadsPrinted(e, level, text, p, false);
    if level < UNARY {
      RestStops(level, text, 0, q, false);
    }
  }

  // ----- skipping any text -----

  /** Skipping stops where a run without errors stops, gives zero, and never faults. */
  ghost predicate Follows(skip: State, run: State) {
    && skip.value == 0
    && (skip.error.Some? ==> !IsArithmetic(skip.error.value))
    && (run.error.None? ==> skip.error.None? && skip.pos == run.pos)
  }

  /** On any text, a skipped operand consumes what an evaluated one does and raises no arithmetic error. */
  lemma {:induction false} SkipFollows(level: nat, text: string, pos: nat)
    requires level <= UNARY && pos <= |text|
    ensures Follows(ParseLevel(level, text, pos, false), ParseLevel(level, text, pos, true))
    decreases |text| - pos, 20 - 2 * level
  {
    hide ParseLevel, Rest, ParseUnary;
    if level == UNARY {
      UnaryLevel(text, pos, false);
      UnaryLevel(text, pos, true);
      SkipFollowsUnary(text, pos);
    } else {
      LevelUnfolds(level, text, pos, false);
      LevelUnfolds(level, text, pos, true);
      SkipFollows(level + 1, text, pos);
      var skip, run := ParseLevel(level + 1, text, pos, false), ParseLevel(level + 1, text, pos, true);
      if run.error.Some? {
        RestOfError(level, text, run, true);
        SkipNeverFaults(level, text, skip);
      } else {
        SkipFollowsRest(level, text, run.value, run.pos);
      }
    }
  }

  /** Whatever was skipped before, the rest that is skipped gives zero and does not fault. */
  lemma {:induction false} SkipNeverFaults(level: nat, text: string, st: State)
    requires level < UNARY && st.pos <= |text| && st.value == 0 && (st.error.Some? ==> !IsArithmetic(st.error.value))
    ensures var s := Rest(level, text, st, false); s.value == 0 && (s.error.Some? ==> !IsArithmetic(s.error.value))
    decreases |text| - st.pos, 19 - 2 * level
  {
    hide ParseLevel, Rest, Skip, OpAt, Spelling, RunEnd;
    if st.error.Some? {
      RestOfError(level, text, st, false);
    } else {
      var op := OpAt(level, text, Skip(text, st.pos));
      if op.None? {
        RestStops(level, text, 0, st.pos, false);
      } else {
        RestGoesOn(level, text, 0, st.pos, op.value, false);
        var start := Skip(text, st.pos) + |Spelling(op.value)|;
        SkipFollows(level + 1, text, start);
        SkipNeverFaults(level, text, Combine(op.value, 0, ParseLevel(level + 1, text, start, false), false));
      }
    }
  }

  lemma {:induction false} SkipFollowsRest(level: nat, text: string, value: int, pos: nat)
    requires level < UNARY && pos <= |text| && InRange(value)
    ensures Follows(Rest(level, text, State(0, pos, None), false), Rest(level, text, State(value, pos, None), true))
    decreases |text| - pos, 19 - 2 * level
  {
    hide ParseLevel, Rest, Skip, OpAt, Spelling, Apply, RunEnd;
    var op := OpAt(level, text, Skip(text, pos));
    if op.None? {
      RestStops(level, text, value, pos, true);
      RestStops(level, text, 0, pos, false);
    } else {
      RestGoesOn(level, text, value, pos, op.value, true);
      RestGoesOn(level, text, 0, pos, op.value, false);
      var start := Skip(text, pos) + |Spelling(op.value)|;
      SkipFollows(level + 1, text, start);
      var rhs := ParseLevel(level + 1, text, start, EvaluatesRight(op.value, value, true));
      var skip := Combine(op.value, 0, ParseLevel(level + 1, text, start, false), false);
      var run := Combine(op.value, value, rhs, true);
      if run.error.Some? {
        RestOfError(level, text, run, true);
        SkipNeverFaults(level, text, skip);
      } else {
        SkipFollowsRest(level, text, run.value, run.pos);
      }
    }
  }

  lemma {:induction false} SkipFollowsUnary(text: string, pos: nat)
    requires pos <= |text|
    ensures Follows(ParseUnary(text, pos, false), ParseUnary(text, pos, true))
    decreases |text| - pos, 2
  {
    hide Skip, StartsAt, ParsePrimary, RunEnd;
    var p := Skip(text, pos);
    OneCharToken(text, p, '!');
    OneCharToken(text, p, '-');
    OneCharToken(text, p, '+');
    if StartsAt(text, p, "!") || StartsAt(text, p, "-") || StartsAt(text, p, "+") {
      SkipFollowsUnary(text, p + 1);
    } else {
      SkipFollowsPrimary(text, p);
    }
  }

  lemma {:induction false} SkipFollowsPrimary(text: string, pos: nat)
    requires pos <= |text|
    ensures Follows(ParsePrimary(text, pos, false), ParsePrimary(text, pos, true))
    decreases |text| - pos, 1
  {
    hide Skip, StartsAt, WordAt, RunEnd, ParseLevel, ParseTypeName, CanonicalType, LiteralValue, NumberEnd;
    var p := Skip(text, pos);
    OneCharToken(text, p, '(');
    if StartsAt(text, p, "(") {
      SkipFollows(0, text, p + 1);
    }
  }
}
