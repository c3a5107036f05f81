/** The language of compile-time conditions: a text has a value only if it is a tree as it may be written, so that
  the evaluator accepts exactly the trees with a value and refuses every other text.
 */
module ConstexprGrammar {
  import opened Basics
  import opened ConstexprParser
  import opened ConstexprTrees
  import opened ConstexprValues

  /** From `p` to `q` the text is a tree whose outermost operator binds at least as tightly as the level. */
  ghost predicate IsTree(text: string, p: nat, q: nat, level: nat, e: Expr) {
    IsWellFormed(e) && Precedence(e) >= level && Holds(text, p, Bare(e)) && q == p + |Bare(e)|
  }

  // ----- gaps and tokens -----

  lemma GapIsBlank(text: string, p: nat)
    requires p <= |text|
    ensures IsBlank(text[p..Skip(text, p)]) && Holds(text, p, text[p..Skip(text, p)])
  {
    hide IsSpace;
    var gap := text[p..Skip(text, p)];
    forall c | c in gap ensures IsSpace(c) {
      var k :| 0 <= k < |gap| && gap[k] == c;
      assert text[p + k] == c;
    }
  }

  /** The blank space and the token behind it. */
  lemma GapAndToken(text: string, p: nat, token: string)
    requires p <= |text| && StartsAt(text, Skip(text, p), token)
    ensures var gap := text[p..Skip(text, p)];
            IsBlank(gap) && Holds(text, p, gap + token) && p + |gap + token| == Skip(text, p) + |token| <= |text|
  {
    hide Skip;
    GapIsBlank(text, p);
    HoldsParts(text, p, text[p..Skip(text, p)], token);
  }

  // ----- leaves -----

  lemma NumberTree(text: string, p: nat, evaluate: bool) returns (e: Expr)
    requires p <= |text| && ParseNumber(text, Skip(text, p), evaluate).error.None?
    ensures IsTree(text, p, ParseNumber(text, Skip(text, p), evaluate).pos, UNARY, e)
  {
    hide Skip, LiteralValue, HasHexPrefix, IsSpace, RunEnd;
    var start := Skip(text, p);
    var end := NumberEnd(text, start);
    var after := RunEnd(text, end, IsSuffixChar);
    var gap, digits, suffix := text[p..start], text[start..end], text[end..after];
    GapIsBlank(text, p);
    DigitsAreNumber(text, start);
    forall c | c in suffix ensures IsSuffixChar(c) {
      var k :| 0 <= k < |suffix| && suffix[k] == c;
      assert text[end + k] == c;
    }
    e := Number(gap, digits, suffix);
    HoldsParts(text, p, gap, digits);
    HoldsParts(text, p, gap + digits, suffix);
  }

  lemma DigitsAreNumber(text: string, start: nat)
    requires start <= |text| && NumberEnd(text, start) != start
    ensures var end := NumberEnd(text, start); NumberEnd(text[start..end], 0) == end - start
  {
    hide IsHexDigit, IsDigit;
    var end := NumberEnd(text, start);
    var digits := text[start..end];
    if HasHexPrefix(text[start..]) {
      assert digits[0..] == digits && HasHexPrefix(digits);
      RunEndIs(digits, 2, IsHexDigit, |digits|);
    } else {
      assert digits[0..] == digits;
      forall k | 0 <= k < |digits| ensures IsDigit(digits[k]) && digits[k] == text[start..][k] {
        assert digits[k] == text[start + k];
      }
      NoPrefixInDigits(digits);
      RunEndIs(digits, 0, IsDigit, |digits|);
    }
  }

  lemma NoPrefixInDigits(digits: string)
    requires forall k :: 0 <= k < |digits| ==> IsDigit(digits[k])
    ensures !HasHexPrefix(digits)
  {
  }

  lemma BooleanTree(text: string, p: nat, value: bool) returns (e: Expr)
    requires p <= |text| && StartsAt(text, Skip(text, p), if value then "true" else "false")
    ensures IsTree(text, p, Skip(text, p) + if value then 4 else 5, UNARY, e)
  {
    hide Skip, StartsAt, Holds;
    GapAndToken(text, p, if value then "true" else "false");
    e := Boolean(text[p..Skip(text, p)], value);
  }

  /** A type name, from behind the token before it to the token behind it. */
  lemma TypeTree(text: string, p: nat) returns (t: TypeRef)
    requires p <= |text| && CanonicalType(ParseTypeName(text, p).0).Some? && ParseTypeName(text, p).0 != ""
    ensures IsTypeRef(t) && Canonical(t.name) == CanonicalType(ParseTypeName(text, p).0)
    ensures Holds(text, p, Written(t)) && p + |Written(t)| == Skip(text, ParseTypeName(text, p).1)
  {
    hide CanonicalType, Skip, IsTypeChar, IsSpace;
    var begin, end := Skip(text, p), ParseTypeName(text, p).1;
    var gap, name, after := text[p..begin], text[begin..end], text[end..Skip(text, end)];
    GapIsBlank(text, p);
    GapIsBlank(text, end);
    forall k | 0 <= k < |name| ensures IsTypeChar(name[k]) {
      assert name[k] == text[begin + k];
    }
    t := TypeRef(gap, name, after);
    HoldsParts(text, p, gap, name);
    HoldsParts(text, p, gap + name, after);
  }

  lemma SameTypeTree(text: string, p: nat, evaluate: bool) returns (e: Expr)
    requires p <= |text| && StartsAt(text, Skip(text, p), "__is_same")
    requires Skip(text, p) + 9 <= |text| && ParseSameType(text, Skip(text, p) + 9, evaluate).error.None?
    ensures IsTree(text, p, ParseSameType(text, Skip(text, p) + 9, evaluate).pos, UNARY, e)
  {
    hide Skip, StartsAt, Holds, CanonicalType, ParseTypeName, IsTypeRef, Canonical, Written;
    var word := Skip(text, p) + 9;
    var open := Skip(text, word);
    var lhs := ParseTypeName(text, open + 1);
    var comma := Skip(text, lhs.1);
    var rhs := ParseTypeName(text, comma + 1);
    var close := Skip(text, rhs.1);
    GapAndToken(text, p, "__is_same");
    GapAndToken(text, word, "<");
    var left := TypeTree(text, open + 1);
    var right := TypeTree(text, comma + 1);
    var gap, after := text[p..Skip(text, p)], text[word..open];
    TokenHolds(text, comma, ",");
    TokenHolds(text, close, ">");
    HoldsParts(text, comma + 1, Written(right), ">");
    HoldsParts(text, comma, ",", Written(right) + ">");
    HoldsParts(text, open + 1, Written(left), "," + (Written(right) + ">"));
    var types := Written(left) + ("," + (Written(right) + ">"));
    HoldsParts(text, word, after + "<", types);
    assert (after + "<") + types == Types(after, left, right);
    HoldsParts(text, p, gap + "__is_same", Types(after, left, right));
    assert (gap + "__is_same") + Types(after, left, right) == gap + ("__is_same" + Types(after, left, right));
    e := SameType(gap, after, left, right);
  }

  lemma TokenHolds(text: string, p: nat, token: string)
    requires StartsAt(text, p, token)
    ensures Holds(text, p, token)
  {
  }

  // ----- operands -----

  lemma {:induction false} PrimaryTree(text: string, p: nat, evaluate: bool) returns (e: Expr)
    requires p <= |text| && ParsePrimary(text, p, evaluate).error.None?
    ensures IsTree(text, p, ParsePrimary(text, p, evaluate).pos, UNARY, e)
    decreases |text| - p, 1
  {
    hide Skip, StartsAt, EndsWord, ParseLevel, ParseSameType, ParseNumber, IsTree;
    var s := Skip(text, p);
    if StartsAt(text, s, "(") {
      e := GroupTree(text, p, evaluate);
    } else if WordAt(text, s, "true") {
      e := BooleanTree(text, p, true);
    } else if WordAt(text, s, "false") {
      e := BooleanTree(text, p, false);
    } else if WordAt(text, s, "__is_same") {
      e := SameTypeTree(text, p, evaluate);
    } else {
      e := NumberTree(text, p, evaluate);
    }
  }

  lemma {:induction false} GroupTree(text: string, p: nat, evaluate: bool) returns (e: Expr)
    requires p <= |text| && StartsAt(text, Skip(text, p), "(") && Skip(text, p) < |text|
    requires AfterGroup(text, ParseLevel(0, text, Skip(text, p) + 1, evaluate)).error.None?
    ensures IsTree(text, p, AfterGroup(text, ParseLevel(0, text, Skip(text, p) + 1, evaluate)).pos, UNARY, e)
    decreases |text| - p, 0
  {
    hide Skip, StartsAt, ParseLevel, Holds, Bare;
    var start := Skip(text, p) + 1;
    var inner := ParseLevel(0, text, start, evaluate);
    var arg := LevelTree(0, text, start, evaluate);
    var end := start + |Bare(arg)|;
    var gap, after := text[p..Skip(text, p)], text[end..Skip(text, end)];
    HoldsFits(text, start, Bare(arg));
    SkipTwice(text, end);
    GapAndToken(text, p, "(");
    GapAndToken(text, end, ")");
    e := Group(gap, arg, after);
    GroupText(e);
    HoldsParts(text, start, Bare(arg), after + ")");
    HoldsParts(text, p, gap + "(", Bare(arg) + (after + ")"));
  }

  lemma GroupText(e: Expr)
    requires e.Group?
    ensures Bare(e) == (e.gap + "(") + (Bare(e.arg) + (e.after + ")"))
  {
    assert Print(e.arg, 0) == Bare(e.arg);
  }

  lemma HoldsFits(text: string, p: nat, s: string)
    requires Holds(text, p, s)
    ensures p + |s| <= |text|
  {
  }

  lemma {:induction false} UnaryTree(text: string, p: nat, evaluate: bool) returns (e: Expr)
    requires p <= |text| && ParseUnary(text, p, evaluate).error.None?
    ensures IsTree(text, p, ParseUnary(text, p, evaluate).pos, UNARY, e)
    decreases |text| - p, 2
  {
    hide Skip, StartsAt, ParsePrimary, Bare, Holds;
    var s := Skip(text, p);
    OneCharToken(text, s, '!');
    OneCharToken(text, s, '-');
    OneCharToken(text, s, '+');
    if StartsAt(text, s, "!") || StartsAt(text, s, "-") || StartsAt(text, s, "+") {
      var arg := UnaryTree(text, s + 1, evaluate);
      e := SignTree(text, p, arg);
    } else {
      SkipTwice(text, p);
      PrimarySkips(text, p, evaluate);
      e := PrimaryTree(text, p, evaluate);
    }
  }

  lemma PrimarySkips(text: string, p: nat, evaluate: bool)
    requires p <= |text|
    ensures ParsePrimary(text, Skip(text, p), evaluate) == ParsePrimary(text, p, evaluate)
  {
    hide Skip, ParseLevel, ParseNumber, ParseSameType;
    SkipTwice(text, p);
  }

  /** An operand behind a sign. */
  lemma SignTree(text: string, p: nat, arg: Expr) returns (e: Expr)
    requires p <= |text| && Skip(text, p) < |text|
    requires var s := Skip(text, p); StartsAt(text, s, "!") || StartsAt(text, s, "-") || StartsAt(text, s, "+")
    requires IsTree(text, Skip(text, p) + 1, Skip(text, p) + 1 + |Bare(arg)|, UNARY, arg)
    ensures IsTree(text, p, Skip(text, p) + 1 + |Bare(arg)|, UNARY, e)
    ensures StartsAt(text, Skip(text, p), "!") ==> e.Not?
    ensures !StartsAt(text, Skip(text, p), "!") && StartsAt(text, Skip(text, p), "-") ==> e.Minus?
    ensures !StartsAt(text, Skip(text, p), "!") && !StartsAt(text, Skip(text, p), "-") ==> e.Plus?
  {
    hide Skip, StartsAt, Holds;
    var s := Skip(text, p);
    var gap := text[p..s];
    var c := if StartsAt(text, s, "!") then "!" else if StartsAt(text, s, "-") then "-" else "+";
    GapAndToken(text, p, c);
    HoldsParts(text, p, gap + c, Bare(arg));
    e := if StartsAt(text, s, "!") then Not(gap, arg) else if StartsAt(text, s, "-") then Minus(gap, arg)
         else Plus(gap, arg);
    assert Bare(e) == (gap + c) + Bare(arg);
  }

  // ----- levels -----

  /** Where the parser stands behind a tree. */
  function Behind(level: nat, text: string, q: nat): nat
    requires q <= |text|
  {
    if level == UNARY then q else Skip(text, q)
  }

  /** What is parsed without an error is a tree, and the parser stands behind it. */
  lemma {:induction false} LevelTree(level: nat, text: string, p: nat, evaluate: bool) returns (e: Expr)
    requires level <= UNARY && p <= |text| && ParseLevel(level, text, p, evaluate).error.None?
    ensures IsTree(text, p, p + |Bare(e)|, level, e) && p + |Bare(e)| <= |text|
    ensures ParseLevel(level, text, p, evaluate).pos == Behind(level, text, p + |Bare(e)|)
    decreases |text| - p, 20 - 2 * level
  {
    hide Skip, ParseLevel, Rest, Bare, Holds, ParseUnary, RunEnd;
    if level == UNARY {
      UnaryLevel(text, p, evaluate);
      e := UnaryTree(text, p, evaluate);
      HoldsFits(text, p, Bare(e));
    } else {
      LevelUnfolds(level, text, p, evaluate);
      var st := ParseLevel(level + 1, text, p, evaluate);
      if st.error.Some? { RestOfError(level, text, st, evaluate); }
      var lhs := LevelTree(level + 1, text, p, evaluate);
      SkipTwice(text, p + |Bare(lhs)|);
      e := RestTree(level, text, st.value, st.pos, evaluate, p, lhs);
    }
  }

  /** A tree and the operators of its level that follow. */
  lemma {:induction false} RestTree(level: nat, text: string, value: int, at: nat, evaluate: bool, p: nat, lhs: Expr)
    returns (e: Expr)
    requires level < UNARY && InRange(value) && p <= at <= |text|
    requires Rest(level, text, State(value, at, None), evaluate).error.None?
    requires IsTree(text, p, p + |Bare(lhs)|, level, lhs) && p + |Bare(lhs)| <= |text|
    requires Skip(text, at) == Skip(text, p + |Bare(lhs)|)
    ensures IsTree(text, p, p + |Bare(e)|, level, e) && p + |Bare(e)| <= |text|
    ensures Rest(level, text, State(value, at, None), evaluate).pos == Skip(text, p + |Bare(e)|)
    decreases |text| - at, 19 - 2 * level
  {
    hide Skip, ParseLevel, Rest, Bare, Holds, OpAt, Spelling, RunEnd, Combine;
    var op := OpAt(level, text, Skip(text, at));
    if op.None? {
      RestStops(level, text, value, at, evaluate);
      e := lhs;
    } else {
      RestGoesOn(level, text, value, at, op.value, evaluate);
      var start, right := Skip(text, at) + |Spelling(op.value)|, EvaluatesRight(op.value, value, evaluate);
      var rhs := ParseLevel(level + 1, text, start, right);
      var next := Combine(op.value, value, rhs, evaluate);
      if next.error.Some? { RestOfError(level, text, next, evaluate); }
      CombineKeeps(op.value, value, rhs, evaluate);
      var r := LevelTree(level + 1, text, start, right);
      var joined := JoinedTree(level, text, p, lhs, op.value, r);
      SkipTwice(text, start + |Bare(r)|);
      e := RestTree(level, text, next.value, next.pos, evaluate, p, joined);
    }
  }

  lemma CombineKeeps(op: Op, value: int, rhs: State, evaluate: bool)
    requires Combine(op, value, rhs, evaluate).error.None?
    ensures rhs.error.None? && Combine(op, value, rhs, evaluate).pos == rhs.pos
  {
    hide Apply;
  }

  lemma JoinedTree(level: nat, text: string, p: nat, lhs: Expr, op: Op, rhs: Expr) returns (e: Expr)
    requires level < UNARY && IsTree(text, p, p + |Bare(lhs)|, level, lhs) && p + |Bare(lhs)| <= |text|
    requires var mid := p + |Bare(lhs)|;
             var start := Skip(text, mid) + |Spelling(op)|;
             && OpAt(level, text, Skip(text, mid)) == Some(op)
             && IsTree(text, start, start + |Bare(rhs)|, level + 1, rhs)
    ensures IsTree(text, p, Skip(text, p + |Bare(lhs)|) + |Spelling(op)| + |Bare(rhs)|, level, e)
  {
    hide Skip, OpAt, Spelling, Holds, LevelOf, StartsAt, RunEnd;
    var mid := p + |Bare(lhs)|;
    var gap := text[mid..Skip(text, mid)];
    GapAndToken(text, mid, Spelling(op));
    HoldsParts(text, p, Bare(lhs), gap + Spelling(op));
    HoldsParts(text, p, Bare(lhs) + (gap + Spelling(op)), Bare(rhs));
    e := Binary(gap, op, lhs, rhs);
    assert Bare(e) == (Bare(lhs) + (gap + Spelling(op))) + Bare(rhs);
  }

  // ----- the whole text -----

  /** The text is a tree with blank space behind it. */
  ghost predicate Spells(text: string, e: Expr) {
    IsWellFormed(e) && exists tail :: IsBlank(tail) && text == Print(e, 0) + tail
  }

  /** A condition has a value exactly if its text is a tree that has one, and then it is the truth of that. */
  lemma EvaluatesIffTree(text: string, holds: bool)
    ensures Evaluation(text) == (holds, None) <==>
              exists e :: Spells(text, e) && Meaning(e).Val? && (holds <==> Meaning(e).value != 0)
  {
    hide ParseLevel, Skip, Bare, Print, Meaning, RunEnd, IsWellFormed;
    if Evaluation(text).1.None? {
      var e := LevelTree(0, text, 0, true);
      var q := |Bare(e)|;
      SkipTwice(text, q);
      GapIsBlank(text, q);
      BareIsPrint(e);
      assert text == text[..q] + text[q..];
      assert Spells(text, e);
      PrintedTreeEvaluates(e, text[q..]);
    }
    forall e | Spells(text, e) && Meaning(e).Val? && (holds <==> Meaning(e).value != 0)
      ensures Evaluation(text) == (holds, None)
    {
      var tail :| IsBlank(tail) && text == Print(e, 0) + tail;
      PrintedTreeEvaluates(e, tail);
    }
  }

  lemma BareIsPrint(e: Expr)
    ensures Print(e, 0) == Bare(e)
  {
  }
}
