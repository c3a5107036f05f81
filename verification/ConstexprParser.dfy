/** The recursive-descent evaluator of compile-time conditions: as functions of text and position,
  and as the object whose methods move a position and an error through the text.
 */
module ConstexprParser {
  import opened Basics
  import opened ConstexprValues

  datatype State = State(value: int, pos: nat, error: Option<Error>)

  function Failed(pos: nat, message: string): State {
    State(0, pos, Some(Syntax(message)))
  }

  /** Whether the right operand is evaluated, given the left. */
  predicate EvaluatesRight(op: Op, value: int, evaluate: bool) {
    evaluate && (op.OrOp? ==> value == 0) && (op.AndOp? ==> value != 0)
  }

  /** The state after an operator and its right operand. */
  function Combine(op: Op, value: int, rhs: State, evaluate: bool): State {
    if !evaluate then State(value, rhs.pos, rhs.error)
    else match Apply(op, value, rhs.value)
         case Val(v) => State(v, rhs.pos, rhs.error)
         case Fault(e) => State(0, rhs.pos, Some(e))
  }

  function AfterNot(inner: State, evaluate: bool): State {
    State(if evaluate then Truth(inner.value == 0) else 0, inner.pos, inner.error)
  }

  function AfterMinus(inner: State, evaluate: bool): State {
    if evaluate && inner.value == INT64_MIN then State(0, inner.pos, Some(Overflow))
    else State(if evaluate then -inner.value else 0, inner.pos, inner.error)
  }

  function AfterGroup(text: string, inner: State): (s: State)
    requires inner.pos <= |text|
    ensures inner.pos <= s.pos <= |text|
  {
    var q := Skip(text, inner.pos);
    if StartsAt(text, q, ")") then State(inner.value, q + 1, inner.error)
    else State(inner.value, q, if inner.error.Some? then inner.error else Some(Syntax("expected ')'")))
  }

  function ParseTypeName(text: string, pos: nat): (r: (string, nat))
    requires pos <= |text|
    ensures pos <= r.1 <= |text|
  {
    var begin := Skip(text, pos);
    var end := RunEnd(text, begin, IsTypeChar);
    (StripNamespace(text[begin..end]), end)
  }

  /** What follows the keyword of a type comparison. */
  function ParseSameType(text: string, pos: nat, evaluate: bool): (s: State)
    requires pos <= |text|
    ensures pos <= s.pos <= |text| && InRange(s.value)
  {
    var open := Skip(text, pos);
    if !StartsAt(text, open, "<") then Failed(open, "expected '<' after __is_same") else
    var lhs := ParseTypeName(text, open + 1);
    var comma := Skip(text, lhs.1);
    if !StartsAt(text, comma, ",") then Failed(comma, "expected ',' in __is_same") else
    var rhs := ParseTypeName(text, comma + 1);
    var close := Skip(text, rhs.1);
    if !StartsAt(text, close, ">") then Failed(close, "expected '>' after __is_same") else
    if lhs.0 == "" || rhs.0 == "" then Failed(close + 1, "expected two scalar types in __is_same") else
    var a, b := CanonicalType(lhs.0), CanonicalType(rhs.0);
    if a.None? || b.None? then Failed(close + 1, "unsupported type in __is_same")
    else State(Truth(evaluate && a == b), close + 1, None)
  }

  function ParseNumber(text: string, pos: nat, evaluate: bool): (s: State)
    requires pos <= |text|
    ensures pos <= s.pos <= |text| && InRange(s.value)
  {
    var end := NumberEnd(text, pos);
    var after := RunEnd(text, end, IsSuffixChar);
    if end == pos then Failed(after, "expected a constant expression") else
    var value := LiteralValue(text[pos..end]);
    if value.None? then Failed(after, "invalid integer literal")
    else State(if evaluate then value.value else 0, after, None)
  }

  function ParsePrimary(text: string, pos: nat, evaluate: bool): (s: State)
    requires pos <= |text|
    ensures pos <= s.pos <= |text| && InRange(s.value)
    decreases |text| - pos, 1
  {
    var p := Skip(text, pos);
    if StartsAt(text, p, "(") then AfterGroup(text, ParseLevel(0, text, p + 1, evaluate))
    else if WordAt(text, p, "true") then State(Truth(evaluate), p + 4, None)
    else if WordAt(text, p, "false") then State(0, p + 5, None)
    else if WordAt(text, p, "__is_same") then ParseSameType(text, p + 9, evaluate)
    else ParseNumber(text, p, evaluate)
  }

  function ParseUnary(text: string, pos: nat, evaluate: bool): (s: State)
    requires pos <= |text|
    ensures pos <= s.pos <= |text| && InRange(s.value)
    decreases |text| - pos, 2
  {
    var p := Skip(text, pos);
    if StartsAt(text, p, "!") then AfterNot(ParseUnary(text, p + 1, evaluate), evaluate)
    else if StartsAt(text, p, "-") then AfterMinus(ParseUnary(text, p + 1, evaluate), evaluate)
    else if StartsAt(text, p, "+") then ParseUnary(text, p + 1, evaluate)
    else ParsePrimary(text, p, evaluate)
  }

  /** An operand of the level, then as many operators of the level as follow. */
  function ParseLevel(level: nat, text: string, pos: nat, evaluate: bool): (s: State)
    requires level <= UNARY && pos <= |text|
    ensures pos <= s.pos <= |text| && InRange(s.value)
    decreases |text| - pos, 20 - 2 * level
  {
    if level == UNARY then ParseUnary(text, pos, evaluate)
    else Rest(level, text, ParseLevel(level + 1, text, pos, evaluate), evaluate)
  }

  function Rest(level: nat, text: string, st: State, evaluate: bool): (s: State)
    requires level < UNARY && st.pos <= |text| && InRange(st.value)
    ensures st.pos <= s.pos <= |text| && InRange(s.value)
    decreases |text| - st.pos, 19 - 2 * level
  {
    if st.error.Some? then st
    else
      var p := Skip(text, st.pos);
      var op := OpAt(level, text, p);
      if op.None? then State(st.value, p, None)
      else
        var rhs := ParseLevel(level + 1, text, p + |Spelling(op.value)|, EvaluatesRight(op.value, st.value, evaluate));
        ApplyInRange(op.value, st.value, rhs.value);
        Rest(level, text, Combine(op.value, st.value, rhs, evaluate), evaluate)
  }

  lemma RestStops(level: nat, text: string, value: int, pos: nat, evaluate: bool)
    requires level < UNARY && pos <= |text| && InRange(value) && OpAt(level, text, Skip(text, pos)).None?
    ensures Rest(level, text, State(value, pos, None), evaluate) == State(value, Skip(text, pos), None)
  {
    hide OpAt, Skip, ParseLevel;
  }

  lemma RestGoesOn(level: nat, text: string, value: int, pos: nat, op: Op, evaluate: bool)
    requires level < UNARY && pos <= |text| && InRange(value) && OpAt(level, text, Skip(text, pos)) == Some(op)
    ensures var start := Skip(text, pos) + |Spelling(op)|;
            && pos < start <= |text|
            && var rhs := ParseLevel(level + 1, text, start, EvaluatesRight(op, value, evaluate));
               var next := Combine(op, value, rhs, evaluate);
               && InRange(next.value)
               && Rest(level, text, State(value, pos, None), evaluate) == Rest(level, text, next, evaluate)
  {
    hide OpAt, Skip, ParseLevel, Spelling, Apply;
    var start := Skip(text, pos) + |Spelling(op)|;
    var rhs := ParseLevel(level + 1, text, start, EvaluatesRight(op, value, evaluate));
    ApplyInRange(op, value, rhs.value);
  }

  lemma RestOfError(level: nat, text: string, st: State, evaluate: bool)
    requires level < UNARY && st.pos <= |text| && InRange(st.value) && st.error.Some?
    ensures Rest(level, text, st, evaluate) == st
  {
  }

  lemma LevelUnfolds(level: nat, text: string, pos: nat, evaluate: bool)
    requires level < UNARY && pos <= |text|
    ensures ParseLevel(level, text, pos, evaluate)
            == Rest(level, text, ParseLevel(level + 1, text, pos, evaluate), evaluate)
  {
    hide Rest;
  }

  // ----- the evaluator -----

  class ConstexprEvaluator {
    const text: string
    var pos: nat
    var error: Option<Error>

    constructor (expression: string)
      ensures text == expression && pos == 0 && error == None
    {
      text, pos, error := expression, 0, None;
    }

    /** Inside the text and free of errors. */
    predicate Ready()
      reads this
    {
      pos <= |text| && error.None?
    }

    method SkipRun(p: char -> bool)
      requires pos <= |text|
      modifies this`pos
      ensures pos == RunEnd(text, old(pos), p) <= |text|
    {
      while pos < |text| && p(text[pos])
        invariant pos <= |text| && RunEnd(text, pos, p) == RunEnd(text, old(pos), p)
      {
        pos := pos + 1;
      }
    }

    method SkipSpace()
      requires pos <= |text|
      modifies this`pos
      ensures pos == Skip(text, old(pos)) <= |text|
    {
      SkipRun(IsSpace);
    }

    method Consume(token: string) returns (found: bool)
      requires pos <= |text|
      modifies this`pos
      ensures found == StartsAt(text, Skip(text, old(pos)), token)
      ensures pos == Skip(text, old(pos)) + if found then |token| else 0
      ensures old(pos) <= pos <= |text|
    {
      SkipSpace();
      found := StartsAt(text, pos, token);
      if found { pos := pos + |token|; }
    }

    /** The operator of a level that follows, tried in the parser's order. */
    method ConsumeOp(level: nat) returns (op: Option<Op>)
      requires pos <= |text| && level < UNARY
      modifies this`pos
      ensures op == OpAt(level, text, Skip(text, old(pos)))
      ensures pos == Skip(text, old(pos)) + if op.Some? then |Spelling(op.value)| else 0
      ensures pos <= |text|
    {
      hide StartsAt, Skip;
      op := None;
      SkipTwice(text, pos);
      var found := Consume(if level == 0 then "||" else if level == 1 then "&&" else if level == 2 then "=="
                           else if level == 3 then "<=" else if level == 4 then "+" else "*");
      if found {
        return Some(if level == 0 then OrOp else if level == 1 then AndOp else if level == 2 then EqOp
                    else if level == 3 then LeOp else if level == 4 then AddOp else MulOp);
      }
      if level < 2 {
        return;
      }
      found := Consume(if level == 2 then "!=" else if level == 3 then ">=" else if level == 4 then "-" else "/");
      if found {
        return Some(if level == 2 then NeOp else if level == 3 then GeOp else if level == 4 then SubOp else DivOp);
      }
      if level == 5 {
        found := Consume("%");
        if found { return Some(RemOp); }
      } else if level == 3 {
        found := Consume("<");
        if found { return Some(LtOp); }
        found := Consume(">");
        if found { return Some(GtOp); }
      }
    }

    method ParseOr(evaluate: bool) returns (value: int)
      requires Ready()
      modifies this
      ensures State(value, pos, error) == ParseLevel(0, text, old(pos), evaluate)
      decreases |text| - pos, 20
    {
      hide ParseLevel, Rest, Skip, OpAt, Spelling;
      LevelUnfolds(0, text, pos, evaluate);
      value := ParseAnd(evaluate);
      while error.None?
        invariant pos <= |text| && InRange(value) && old(pos) <= pos
        invariant Rest(0, text, State(value, pos, error), evaluate) == ParseLevel(0, text, old(pos), evaluate)
        decreases error.None?, |text| - pos
      {
        ghost var from := pos;
        var op := ConsumeOp(0);
        if op.None? {
          RestStops(0, text, value, from, evaluate);
          return;
        }
        RestGoesOn(0, text, value, from, op.value, evaluate);
        var lhs := value != 0;
        var rhs := ParseAnd(evaluate && !lhs);
        if evaluate { value := Truth(lhs || rhs != 0); }
      }
      RestOfError(0, text, State(value, pos, error), evaluate);
    }

    method ParseAnd(evaluate: bool) returns (value: int)
      requires Ready()
      modifies this
      ensures State(value, pos, error) == ParseLevel(1, text, old(pos), evaluate)
      decreases |text| - pos, 18
    {
      hide ParseLevel, Rest, Skip, OpAt, Spelling;
      LevelUnfolds(1, text, pos, evaluate);
      value := ParseEquality(evaluate);
      while error.None?
        invariant pos <= |text| && InRange(value) && old(pos) <= pos
        invariant Rest(1, text, State(value, pos, error), evaluate) == ParseLevel(1, text, old(pos), evaluate)
        decreases error.None?, |text| - pos
      {
        ghost var from := pos;
        var op := ConsumeOp(1);
        if op.None? {
          RestStops(1, text, value, from, evaluate);
          return;
        }
        RestGoesOn(1, text, value, from, op.value, evaluate);
        var lhs := value != 0;
        var rhs := ParseEquality(evaluate && lhs);
        if evaluate { value := Truth(lhs && rhs != 0); }
      }
      RestOfError(1, text, State(value, pos, error), evaluate);
    }

    method ParseEquality(evaluate: bool) returns (value: int)
      requires Ready()
      modifies this
      ensures State(value, pos, error) == ParseLevel(2, text, old(pos), evaluate)
      decreases |text| - pos, 16
    {
      hide ParseLevel, Rest, Skip, OpAt, Spelling;
      LevelUnfolds(2, text, pos, evaluate);
      value := ParseRelational(evaluate);
      while error.None?
        invariant pos <= |text| && InRange(value) && old(pos) <= pos
        invariant Rest(2, text, State(value, pos, error), evaluate) == ParseLevel(2, text, old(pos), evaluate)
        decreases error.None?, |text| - pos
      {
        ghost var from := pos;
        var op := ConsumeOp(2);
        if op.None? {
          RestStops(2, text, value, from, evaluate);
          return;
        }
        RestGoesOn(2, text, value, from, op.value, evaluate);
        var rhs := ParseRelational(evaluate);
        if evaluate { value := Truth(if op.value.EqOp? then value == rhs else value != rhs); }
      }
      RestOfError(2, text, State(value, pos, error), evaluate);
    }

    method ParseRelational(evaluate: bool) returns (value: int)
      requires Ready()
      modifies this
      ensures State(value, pos, error) == ParseLevel(3, text, old(pos), evaluate)
      decreases |text| - pos, 14
    {
      hide ParseLevel, Rest, Skip, OpAt, Spelling;
      LevelUnfolds(3, text, pos, evaluate);
      value := ParseAdditive(evaluate);
      while error.None?
        invariant pos <= |text| && InRange(value) && old(pos) <= pos
        invariant Rest(3, text, State(value, pos, error), evaluate) == ParseLevel(3, text, old(pos), evaluate)
        decreases error.None?, |text| - pos
      {
        ghost var from := pos;
        var op := ConsumeOp(3);
        if op.None? {
          RestStops(3, text, value, from, evaluate);
          return;
        }
        RestGoesOn(3, text, value, from, op.value, evaluate);
        var rhs := ParseAdditive(evaluate);
        if !evaluate {
          continue;
        }
        match op.value {
          case LeOp => value := Truth(value <= rhs);
          case GeOp => value := Truth(value >= rhs);
          case LtOp => value := Truth(value < rhs);
          case _ => value := Truth(value > rhs);
        }
      }
      RestOfError(3, text, State(value, pos, error), evaluate);
    }

    method ParseAdditive(evaluate: bool) returns (value: int)
      requires Ready()
      modifies this
      ensures State(value, pos, error) == ParseLevel(4, text, old(pos), evaluate)
      decreases |text| - pos, 12
    {
      hide ParseLevel, Rest, Skip, OpAt, Spelling;
      LevelUnfolds(4, text, pos, evaluate);
      value := ParseMultiplicative(evaluate);
      while error.None?
        invariant pos <= |text| && InRange(value) && old(pos) <= pos
        invariant Rest(4, text, State(value, pos, error), evaluate) == ParseLevel(4, text, old(pos), evaluate)
        decreases error.None?, |text| - pos
      {
        ghost var from := pos;
        var op := ConsumeOp(4);
        if op.None? {
          RestStops(4, text, value, from, evaluate);
          return;
        }
        RestGoesOn(4, text, value, from, op.value, evaluate);
        var rhs := ParseMultiplicative(evaluate);
        if evaluate {
          var next := if op.value.AddOp? then value + rhs else value - rhs;
          if !InRange(next) {
            error := Some(Overflow);
            RestOfError(4, text, State(0, pos, error), evaluate);
            return 0;
          }
          value := next;
        }
      }
      RestOfError(4, text, State(value, pos, error), evaluate);
    }

    method ParseMultiplicative(evaluate: bool) returns (value: int)
      requires Ready()
      modifies this
      ensures State(value, pos, error) == ParseLevel(5, text, old(pos), evaluate)
      decreases |text| - pos, 10
    {
      hide ParseLevel, Rest, Skip, OpAt, Spelling;
      LevelUnfolds(5, text, pos, evaluate);
      value := ParseUnaryOperand(evaluate);
      while error.None?
        invariant pos <= |text| && InRange(value) && old(pos) <= pos
        invariant Rest(5, text, State(value, pos, error), evaluate) == ParseLevel(5, text, old(pos), evaluate)
        decreases error.None?, |text| - pos
      {
        ghost var from := pos;
        var op := ConsumeOp(5);
        if op.None? {
          RestStops(5, text, value, from, evaluate);
          return;
        }
        RestGoesOn(5, text, value, from, op.value, evaluate);
        var rhs := ParseUnaryOperand(evaluate);
        if !evaluate {
          continue;
        }
        if op.value.MulOp? {
          if !InRange(value * rhs) {
            error := Some(Overflow);
            RestOfError(5, text, State(0, pos, error), evaluate);
            return 0;
          }
          value := value * rhs;
        } else {
          if rhs == 0 {
            error := Some(if op.value.DivOp? then DivisionByZero else RemainderByZero);
            RestOfError(5, text, State(0, pos, error), evaluate);
            return 0;
          }
          if value == INT64_MIN && rhs == -1 {
            error := Some(Overflow);
            RestOfError(5, text, State(0, pos, error), evaluate);
            return 0;
          }
          ApplyInRange(op.value, value, rhs);
          value := if op.value.DivOp? then TruncatedQuotient(value, rhs) else TruncatedRemainder(value, rhs);
        }
      }
      RestOfError(5, text, State(value, pos, error), evaluate);
    }

    method ParseUnaryOperand(evaluate: bool) returns (value: int)
      requires Ready()
      modifies this
      ensures State(value, pos, error) == ParseLevel(UNARY, text, old(pos), evaluate)
      decreases |text| - pos, 8
    {
      hide Skip, StartsAt, ParsePrimary;
      SkipTwice(text, pos);
      var found := Consume("!");
      if found {
        value := ParseUnaryOperand(evaluate);
        return if evaluate then Truth(value == 0) else 0;
      }
      found := Consume("-");
      if found {
        value := ParseUnaryOperand(evaluate);
        if evaluate && value == INT64_MIN {
          error := Some(Overflow);
          return 0;
        }
        return if evaluate then -value else 0;
      }
      found := Consume("+");
      if found {
        value := ParseUnaryOperand(evaluate);
        return;
      }
      value := ParsePrimaryOperand(evaluate);
    }

    method ReadTypeName() returns (name: string)
      requires pos <= |text|
      modifies this`pos
      ensures (name, pos) == ParseTypeName(text, old(pos))
    {
      SkipSpace();
      var begin := pos;
      SkipRun(IsTypeChar);
      name := StripNamespace(text[begin..pos]);
    }

    method ReadSameType(evaluate: bool) returns (value: int)
      requires Ready()
      modifies this
      ensures State(value, pos, error) == ParseSameType(text, old(pos), evaluate)
    {
      hide CanonicalType, StripNamespace, Skip, StartsAt, RunEnd, ParseTypeName;
      value := 0;
      var found := Consume("<");
      if !found {
        error := Some(Syntax("expected '<' after __is_same"));
        return;
      }
      var lhs := ReadTypeName();
      found := Consume(",");
      if !found {
        error := Some(Syntax("expected ',' in __is_same"));
        return;
      }
      var rhs := ReadTypeName();
      found := Consume(">");
      if !found {
        error := Some(Syntax("expected '>' after __is_same"));
        return;
      }
      if lhs == "" || rhs == "" {
        error := Some(Syntax("expected two scalar types in __is_same"));
        return;
      }
      var a, b := CanonicalType(lhs), CanonicalType(rhs);
      if a.None? || b.None? {
        error := Some(Syntax("unsupported type in __is_same"));
        return;
      }
      value := Truth(evaluate && a == b);
    }

    method ReadNumber(evaluate: bool) returns (value: int)
      requires Ready()
      modifies this
      ensures State(value, pos, error) == ParseNumber(text, old(pos), evaluate)
    {
      hide LiteralValue;
      value := 0;
      var begin := pos;
      if HasHexPrefix(text[pos..]) {
        pos := pos + 2;
        SkipRun(IsHexDigit);
      } else {
        SkipRun(IsDigit);
      }
      var end := pos;
      SkipRun(IsSuffixChar);
      if end == begin {
        error := Some(Syntax("expected a constant expression"));
        return;
      }
      var number := LiteralValue(text[begin..end]);
      if number.None? {
        error := Some(Syntax("invalid integer literal"));
        return;
      }
      value := if evaluate then number.value else 0;
    }

    method ParsePrimaryOperand(evaluate: bool) returns (value: int)
      requires Ready()
      modifies this
      ensures State(value, pos, error) == ParsePrimary(text, old(pos), evaluate)
      decreases |text| - pos, 6
    {
      hide Skip, StartsAt, WordAt, ParseLevel, ParseSameType, ParseNumber;
      SkipTwice(text, pos);
      SkipSpace();
      var found := Consume("(");
      if found {
        value := ParseOr(evaluate);
        found := Consume(")");
        if !found && error.None? { error := Some(Syntax("expected ')'")); }
      } else if WordAt(text, pos, "true") {
        pos := pos + 4;
        value := Truth(evaluate);
      } else if WordAt(text, pos, "false") {
        pos := pos + 5;
        value := 0;
      } else if WordAt(text, pos, "__is_same") {
        pos := pos + 9;
        value := ReadSameType(evaluate);
      } else {
        SkipSpace();
        value := ReadNumber(evaluate);
      }
    }

    /** The truth of the whole text, or the error it ends in. */
    method Evaluate() returns (value: bool, message: Option<Error>)
      requires pos == 0 && error.None?
      modifies this
      ensures (value, message) == Evaluation(text)
    {
      var result := ParseOr(true);
      SkipSpace();
      if error.None? && pos != |text| {
        error := Some(Syntax("unexpected token '" + text[pos..] + "'"));
      }
      if error.Some? {
        return false, error;
      }
      return result != 0, None;
    }
  }

  /** The truth of a condition, or the error it ends in. */
  function Evaluation(text: string): (bool, Option<Error>) {
    var s := ParseLevel(0, text, 0, true);
    var end := Skip(text, s.pos);
    if s.error.Some? then (false, s.error)
    else if end != |text| then (false, Some(Syntax("unexpected token '" + text[end..] + "'")))
    else (s.value != 0, None)
  }
}
