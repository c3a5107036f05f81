/** Assertions over printed trees: when `static_assert` holds, and what a fold leaves of it. */
module ConstexprAssertions {
  import opened Basics
  import opened ConstexprFolding
  import opened ConstexprParser
  import opened ConstexprTrees
  import opened ConstexprValues
  import opened TextScanning

  // ----- leading blank space -----

  /** The blank space before the first token. */
  function LeadingGap(e: Expr): string {
    match e
    case Binary(_, op, l, _) => if Precedence(l) < LevelOf(op) then "" else LeadingGap(l)
    case _ => e.gap
  }

  /** The tree without it. */
  function Strip(e: Expr): (r: Expr)
    ensures Precedence(r) == Precedence(e)
  {
    match e
    case Number(_, digits, suffix) => Number("", digits, suffix)
    case Boolean(_, value) => Boolean("", value)
    case SameType(_, after, left, right) => SameType("", after, left, right)
    case Group(_, arg, after) => Group("", arg, after)
    case Not(_, arg) => Not("", arg)
    case Minus(_, arg) => Minus("", arg)
    case Plus(_, arg) => Plus("", arg)
    case Binary(gap, op, l, r) => if Precedence(l) < LevelOf(op) then e else Binary(gap, op, Strip(l), r)
  }

  predicate Solid(s: string) {
    s != "" && !IsSpace(s[0])
  }

  lemma {:induction false} StripIs(e: Expr)
    requires IsWellFormed(e)
    ensures IsWellFormed(Strip(e)) && Meaning(Strip(e)) == Meaning(e)
    ensures IsBlank(LeadingGap(e)) && Bare(e) == LeadingGap(e) + Bare(Strip(e)) && Solid(Bare(Strip(e)))
  {
    hide LiteralValue, Canonical, IsTypeName, Types, Apply, Bare, IsNumber, LevelOf, Spelling;
    if e.Binary? {
      if Precedence(e.lhs) >= LevelOf(e.op) { StripIs(e.lhs); }
      StripBinary(e);
    } else {
      StripLeaf(e);
    }
  }

  lemma StripBinary(e: Expr)
    requires IsWellFormed(e) && e.Binary?
    requires Precedence(e.lhs) >= LevelOf(e.op) ==>
               Bare(e.lhs) == LeadingGap(e.lhs) + Bare(Strip(e.lhs)) && Solid(Bare(Strip(e.lhs)))
    ensures Bare(e) == LeadingGap(e) + Bare(Strip(e)) && Solid(Bare(Strip(e)))
  {
    hide Meaning, IsWellFormed, LevelOf, Spelling;
    var level := LevelOf(e.op);
    var rest := e.gap + Spelling(e.op) + Print(e.rhs, level + 1);
    assert Bare(e) == Print(e.lhs, level) + rest;
    if Precedence(e.lhs) < level {
      assert Print(e.lhs, level)[0] == '(';
      assert Bare(e) == "" + Bare(e);
    } else {
      assert Bare(Strip(e)) == Bare(Strip(e.lhs)) + rest;
      assert LeadingGap(e.lhs) + (Bare(Strip(e.lhs)) + rest) == LeadingGap(e.lhs) + Bare(Strip(e.lhs)) + rest;
    }
  }

  /** What a node other than a binary one is written as behind its gap. */
  function Behind(e: Expr): string
    requires !e.Binary?
  {
    match e
    case Number(_, digits, suffix) => digits + suffix
    case Boolean(_, value) => if value then "true" else "false"
    case SameType(_, after, left, right) => "__is_same" + Types(after, left, right)
    case Group(_, arg, after) => "(" + (Print(arg, 0) + (after + ")"))
    case Not(_, arg) => "!" + Print(arg, UNARY)
    case Minus(_, arg) => "-" + Print(arg, UNARY)
    case Plus(_, arg) => "+" + Print(arg, UNARY)
  }

  lemma BareIsBehind(e: Expr)
    requires !e.Binary?
    ensures Bare(e) == e.gap + Behind(e)
  {
    hide Types, Print, Bare, Behind;
    if e.Number? {
      NumberText(e);
    } else if e.Not? || e.Minus? || e.Plus? {
      UnaryText(e);
    } else {
      LeafText(e);
    }
  }

  lemma NumberText(e: Expr)
    requires e.Number?
    ensures Bare(e) == e.gap + Behind(e)
  {
    assert e.gap + e.digits + e.suffix == e.gap + (e.digits + e.suffix);
  }

  lemma UnaryText(e: Expr)
    requires e.Not? || e.Minus? || e.Plus?
    ensures Bare(e) == e.gap + Behind(e)
    ensures Bare(e) == e.gap + (if e.Not? then "!" else if e.Minus? then "-" else "+") + Print(e.arg, UNARY)
  {
    hide Print;
    var sign, arg := if e.Not? then "!" else if e.Minus? then "-" else "+", Print(e.arg, UNARY);
    assert Bare(e) == e.gap + sign + arg && Behind(e) == sign + arg;
    assert e.gap + sign + arg == e.gap + (sign + arg);
  }

  lemma LeafText(e: Expr)
    requires e.Boolean? || e.SameType? || e.Group?
    ensures Bare(e) == e.gap + Behind(e)
  {
    hide Types, Print;
  }

  lemma BehindIsSolid(e: Expr)
    requires IsWellFormed(e) && !e.Binary?
    ensures Solid(Behind(e))
  {
    hide LiteralValue, Canonical, IsTypeName, Types, Print, IsTypeRef;
    if e.Number? { NumberStarts(e.digits); }
  }

  lemma StripLeaf(e: Expr)
    requires IsWellFormed(e) && !e.Binary?
    ensures Bare(e) == LeadingGap(e) + Bare(Strip(e)) && Solid(Bare(Strip(e)))
  {
    hide IsWellFormed, Bare, Solid, Print, Types;
    BareIsBehind(e);
    BareIsBehind(Strip(e));
    BehindIsSolid(e);
    assert Behind(Strip(e)) == Behind(e);
    assert "" + Behind(e) == Behind(e);
  }

  // ----- trimming -----

  lemma {:induction false} TrimLeftIs(gap: string, s: string)
    requires IsBlank(gap) && (s == "" || Solid(s))
    ensures TrimLeft(gap + s) == s
    decreases |gap|
  {
    if gap != "" {
      assert gap[0] in gap && (gap + s)[1..] == gap[1..] + s;
      forall c | c in gap[1..] ensures IsSpace(c) { assert c in gap; }
      TrimLeftIs(gap[1..], s);
    } else {
      assert gap + s == s;
    }
  }

  lemma {:induction false} TrimRightIs(s: string, gap: string)
    requires IsBlank(gap) && (s == "" || !IsSpace(s[|s| - 1]))
    ensures TrimRight(s + gap) == s
    decreases |gap|
  {
    if gap != "" {
      var n := |gap| - 1;
      assert gap[n] in gap && (s + gap)[..|s + gap| - 1] == s + gap[..n];
      forall c | c in gap[..n] ensures IsSpace(c) { assert c in gap; }
      TrimRightIs(s, gap[..n]);
    } else {
      assert s + gap == s;
    }
  }

  /** What trimming cuts off at the end is blank. */
  lemma {:induction false} TrimRightCuts(s: string)
    ensures |TrimRight(s)| <= |s| && TrimRight(s) == s[..|TrimRight(s)|]
    ensures forall k :: |TrimRight(s)| <= k < |s| ==> IsSpace(s[k])
    decreases |s|
  {
    if s != "" && IsSpace(s[|s| - 1]) {
      TrimRightCuts(s[..|s| - 1]);
    }
  }

  // ----- brackets and commas in a printed tree -----

  predicate IsTreeChar(c: char) {
    IsSpace(c) || IsTypeChar(c) || IsOpChar(c) || c == '(' || c == ')' || c == ','
  }

  /** Parentheses opened less parentheses closed. */
  function Net(s: string): int {
    if s == "" then 0 else Net(s[..|s| - 1]) + TextScanning.Step(s[|s| - 1], '(', ')')
  }

  lemma {:induction false} NetOfBoth(a: string, b: string)
    ensures Net(a + b) == Net(a) + Net(b)
    decreases |b|
  {
    if b == "" {
      assert a + b == a;
    } else {
      NetOfBoth(a, b[..|b| - 1]);
      assert (a + b)[..|a + b| - 1] == a + b[..|b| - 1];
    }
  }

  /** Only characters of trees, no slash at the end or before a slash or a star, and parentheses that close what they
    open. */
  ghost predicate IsTidy(s: string) {
    && (forall k :: 0 <= k < |s| ==> IsTreeChar(s[k]))
    && (forall k :: 0 <= k < |s| && s[k] == '/' ==> k + 1 < |s| && s[k + 1] != '/' && s[k + 1] != '*')
    && (forall k :: 0 <= k <= |s| ==> Net(s[..k]) >= 0) && Net(s) == 0
  }

  lemma TidyOfBoth(a: string, b: string)
    requires IsTidy(a) && IsTidy(b)
    ensures IsTidy(a + b)
  {
    hide IsTreeChar;
    var s := a + b;
    forall k | 0 <= k <= |s| ensures Net(s[..k]) >= 0 {
      if k <= |a| {
        assert s[..k] == a[..k];
      } else {
        assert s[..k] == a + b[..k - |a|];
        NetOfBoth(a, b[..k - |a|]);
      }
    }
    NetOfBoth(a, b);
  }

  lemma TidyInParentheses(a: string)
    requires IsTidy(a)
    ensures IsTidy("(" + a + ")")
  {
    hide IsTreeChar;
    var s := "(" + a + ")";
    assert IsTreeChar('(') && IsTreeChar(')') by { ParenthesesAreTreeChars(); }
    assert Net("(") == 1 && Net(")") == -1 by { OneNet(); }
    NetOfBoth("(", a);
    NetOfBoth("(" + a, ")");
    forall k | 0 <= k <= |s| ensures Net(s[..k]) >= 0 {
      if k == |s| {
        assert s[..k] == s;
      } else if k > 0 {
        assert s[..k] == "(" + a[..k - 1];
        NetOfBoth("(", a[..k - 1]);
      }
    }
  }

  lemma ParenthesesAreTreeChars()
    ensures IsTreeChar('(') && IsTreeChar(')')
  {
  }

  lemma OneNet()
    ensures Net("(") == 1 && Net(")") == -1
  {
    assert "("[..0] == "" && ")"[..0] == "";
  }

  lemma {:induction false} FlatNet(s: string)
    requires forall k :: 0 <= k < |s| ==> s[k] != '(' && s[k] != ')'
    ensures Net(s) == 0
    decreases |s|
  {
    if s != "" { FlatNet(s[..|s| - 1]); }
  }

  /** Text without parentheses and slashes. */
  lemma FlatIsTidy(s: string)
    requires forall k :: 0 <= k < |s| ==> IsTreeChar(s[k]) && s[k] != '(' && s[k] != ')' && s[k] != '/'
    ensures IsTidy(s)
  {
    hide IsTreeChar;
    forall k | 0 <= k <= |s| ensures Net(s[..k]) >= 0 { FlatNet(s[..k]); }
    FlatNet(s);
  }

  lemma BlankIsTidy(gap: string)
    requires IsBlank(gap)
    ensures IsTidy(gap)
  {
    forall k | 0 <= k < |gap| ensures IsTreeChar(gap[k]) && gap[k] != '(' && gap[k] != ')' && gap[k] != '/' {
      assert gap[k] in gap;
    }
    FlatIsTidy(gap);
  }

  /** An operator and what follows it. */
  lemma OperatorIsTidy(op: Op, s: string)
    requires IsTidy(s) && s != "" && s[0] != '/' && s[0] != '*'
    ensures IsTidy(Spelling(op) + s)
  {
    hide IsTreeChar;
    var t := Spelling(op);
    OperatorChars(op);
    forall k | 0 <= k <= |t + s| ensures Net((t + s)[..k]) >= 0 {
      if k <= |t| {
        assert (t + s)[..k] == t[..k];
        FlatNet(t[..k]);
      } else {
        assert (t + s)[..k] == t + s[..k - |t|];
        NetOfBoth(t, s[..k - |t|]);
        FlatNet(t);
      }
    }
    NetOfBoth(t, s);
    FlatNet(t);
  }

  lemma OperatorChars(op: Op)
    ensures var t := Spelling(op);
            && (forall k :: 0 <= k < |t| ==> IsTreeChar(t[k]) && t[k] != '(' && t[k] != ')')
            && (forall k :: 0 <= k < |t| && t[k] == '/' ==> k + 1 == |t|)
  {
    hide IsTypeChar, IsSpace;
  }

  lemma TypeIsTidy(t: TypeRef)
    requires IsTypeRef(t)
    ensures IsTidy(Written(t))
  {
    hide Canonical;
    BlankIsTidy(t.gap);
    FlatIsTidy(t.name);
    BlankIsTidy(t.after);
    TidyOfBoth(t.gap, t.name);
    TidyOfBoth(t.gap + t.name, t.after);
  }

  lemma SameTypeIsTidy(gap: string, after: string, left: TypeRef, right: TypeRef)
    requires IsBlank(gap) && IsBlank(after) && IsTypeRef(left) && IsTypeRef(right)
    ensures IsTidy(gap + ("__is_same" + Types(after, left, right)))
  {
    hide IsTypeRef, IsTidy, Written;
    TypeIsTidy(left);
    TypeIsTidy(right);
    BlankIsTidy(gap);
    BlankIsTidy(after);
    FlatIsTidy("__is_same");
    FlatIsTidy("<");
    FlatIsTidy(",");
    FlatIsTidy(">");
    TidyOfBoth(Written(right), ">");
    TidyOfBoth(",", Written(right) + ">");
    TidyOfBoth(Written(left), "," + (Written(right) + ">"));
    TidyOfBoth("<", Written(left) + ("," + (Written(right) + ">")));
    TidyOfBoth(after, "<" + (Written(left) + ("," + (Written(right) + ">"))));
    TidyOfBoth("__is_same", Types(after, left, right));
    TidyOfBoth(gap, "__is_same" + Types(after, left, right));
  }

  lemma NumberIsTidy(gap: string, digits: string, suffix: string)
    requires IsBlank(gap) && IsNumber(digits) && forall c :: c in suffix ==> IsSuffixChar(c)
    ensures IsTidy(gap + digits + suffix)
  {
    hide LiteralValue, IsTidy;
    BlankIsTidy(gap);
    forall k | 0 <= k < |digits| ensures IsIdentChar(digits[k]) { DigitsAreWord(digits, k); }
    FlatIsTidy(digits);
    forall k | 0 <= k < |suffix| ensures IsSuffixChar(suffix[k]) { assert suffix[k] in suffix; }
    FlatIsTidy(suffix);
    TidyOfBoth(gap, digits);
    TidyOfBoth(gap + digits, suffix);
  }

  lemma DigitsAreWord(digits: string, k: nat)
    requires NumberEnd(digits, 0) == |digits| && k < |digits|
    ensures IsIdentChar(digits[k])
  {
    assert digits[0..] == digits;
  }

  lemma {:induction false} TreeIsTidy(e: Expr)
    requires IsWellFormed(e)
    ensures IsTidy(Bare(e)) && forall level :: IsTidy(Print(e, level))
  {
    hide IsTidy, IsNumber, IsTypeRef, IsSuffixChar, Types, Spelling, Bare;
    match e {
      case Group(_, arg, _) =>
        TreeIsTidy(arg);
        GroupIsTidy(e);
      case Binary(_, _, l, r) =>
        TreeIsTidy(l);
        TreeIsTidy(r);
        BinaryIsTidy(e);
      case Not(_, arg) =>
        TreeIsTidy(arg);
        UnaryIsTidy(e);
      case Minus(_, arg) =>
        TreeIsTidy(arg);
        UnaryIsTidy(e);
      case Plus(_, arg) =>
        TreeIsTidy(arg);
        UnaryIsTidy(e);
      case _ => LeafIsTidy(e);
    }
    TidyInParentheses(Bare(e));
    forall level ensures IsTidy(Print(e, level)) {}
  }

  lemma LeafIsTidy(e: Expr)
    requires IsWellFormed(e) && (e.Number? || e.Boolean? || e.SameType?)
    ensures IsTidy(Bare(e))
  {
    hide IsTidy, IsNumber, IsTypeRef, IsSuffixChar, Types;
    match e
    case Number(gap, digits, suffix) => NumberIsTidy(gap, digits, suffix);
    case SameType(gap, after, left, right) => SameTypeIsTidy(gap, after, left, right);
    case Boolean(gap, value) =>
      BlankIsTidy(gap);
      FlatIsTidy("true");
      FlatIsTidy("false");
      TidyOfBoth(gap, if value then "true" else "false");
  }

  lemma GroupIsTidy(e: Expr)
    requires IsWellFormed(e) && e.Group? && IsTidy(Print(e.arg, 0))
    ensures IsTidy(Bare(e))
  {
    hide IsTidy, Print;
    var inner := Print(e.arg, 0);
    BlankIsTidy(e.gap);
    BlankIsTidy(e.after);
    TidyOfBoth(inner, e.after);
    TidyInParentheses(inner + e.after);
    TidyOfBoth(e.gap, "(" + (inner + e.after) + ")");
    assert Bare(e) == e.gap + ("(" + (inner + e.after) + ")");
  }

  lemma BinaryIsTidy(e: Expr)
    requires IsWellFormed(e) && e.Binary?
    requires IsTidy(Print(e.lhs, LevelOf(e.op))) && IsTidy(Print(e.rhs, LevelOf(e.op) + 1))
    ensures IsTidy(Bare(e))
  {
    hide IsTidy, Print, Spelling, LevelOf, Bare, IsBlank;
    var l, r := Print(e.lhs, LevelOf(e.op)), Print(e.rhs, LevelOf(e.op) + 1);
    BlankIsTidy(e.gap);
    OperandStart(e.rhs, LevelOf(e.op) + 1);
    OperatorIsTidy(e.op, r);
    TidyOfBoth(e.gap, Spelling(e.op) + r);
    TidyOfBoth(l, e.gap + (Spelling(e.op) + r));
    BareOfBinary(e);
  }

  lemma OperandStart(e: Expr, level: nat)
    requires IsWellFormed(e)
    ensures Print(e, level) != "" && Print(e, level)[0] != '/' && Print(e, level)[0] != '*'
  {
    hide Print, IsWellFormed;
    PrintStarts(e, level);
  }

  lemma BareOfBinary(e: Expr)
    requires e.Binary?
    ensures Bare(e)
            == Print(e.lhs, LevelOf(e.op)) + (e.gap + (Spelling(e.op) + Print(e.rhs, LevelOf(e.op) + 1)))
  {
    hide Print, Spelling, LevelOf;
  }

  lemma UnaryIsTidy(e: Expr)
    requires IsWellFormed(e) && (e.Not? || e.Minus? || e.Plus?) && IsTidy(Print(e.arg, UNARY))
    ensures IsTidy(Bare(e))
  {
    hide IsTidy, Print;
    var sign := if e.Not? then "!" else if e.Minus? then "-" else "+";
    BlankIsTidy(e.gap);
    FlatIsTidy(sign);
    TidyOfBoth(e.gap, sign);
    TidyOfBoth(e.gap + sign, Print(e.arg, UNARY));
  }

  // ----- scanning over tidy text -----

  /** The text is followed by no quote, which could make it the beginning of a literal. */
  predicate NoQuoteAt(text: string, q: nat) {
    q < |text| ==> text[q] != '"'
  }

  lemma NoQuotes(c: char)
    ensures IsTreeChar(c) ==> c != '"' && c != '\''
  {
  }

  lemma TwoChars(text: string, p: nat, a: char, b: char)
    ensures StartsAt(text, p, [a, b]) ==> p + 1 < |text| && text[p] == a && text[p + 1] == b
  {
    if StartsAt(text, p, [a, b]) { assert text[p..p + 2][0] == a && text[p..p + 2][1] == b; }
  }

  /** No comment or literal begins with another character. */
  lemma PlainIsCode(text: string, p: nat)
    requires p < |text| && text[p] !in {'/', 'R', '"', '\''}
    ensures LiteralEnd(text, p).None?
  {
    hide Find, QuotedEnd, RawStringEnd, StartsAt;
    TwoChars(text, p, '/', '/');
    TwoChars(text, p, '/', '*');
    TwoChars(text, p, 'R', '"');
    assert ['/', '/'] == "//" && ['/', '*'] == "/*" && ['R', '"'] == "R\"";
  }

  lemma TidyHasNoLiteral(text: string, p: nat, s: string, k: nat)
    requires Holds(text, p, s) && IsTidy(s) && k < |s| && NoQuoteAt(text, p + |s|)
    ensures LiteralEnd(text, p + k).None?
  {
    hide Find, QuotedEnd, RawStringEnd, IsTreeChar, Net, StartsAt;
    HoldsAt(text, p, s, k);
    NoQuotes(s[k]);
    if k + 1 < |s| {
      HoldsAt(text, p, s, k + 1);
      NoQuotes(s[k + 1]);
    }
    TwoChars(text, p + k, '/', '/');
    TwoChars(text, p + k, '/', '*');
    TwoChars(text, p + k, 'R', '"');
    assert ['/', '/'] == "//" && ['/', '*'] == "/*" && ['R', '"'] == "R\"";
  }

  lemma NetStep(s: string, k: nat)
    requires k < |s|
    ensures Net(s[..k + 1]) == Net(s[..k]) + TextScanning.Step(s[k], '(', ')')
  {
    assert s[..k + 1][..k] == s[..k];
  }

  lemma {:induction false} MatchPassesFrom(text: string, p: nat, s: string, depth: nat, k: nat)
    requires Holds(text, p, s) && IsTidy(s) && k <= |s| && NoQuoteAt(text, p + |s|) && depth > 0
    ensures Net(s[..k]) >= 0
    ensures MatchFrom(text, p + k, depth + Net(s[..k]), '(', ')') == MatchFrom(text, p + |s|, depth, '(', ')')
    decreases |s| - k
  {
    hide LiteralEnd, Net, MatchFrom;
    if k == |s| {
      assert s[..k] == s;
    } else {
      TidyHasNoLiteral(text, p, s, k);
      HoldsAt(text, p, s, k);
      NetStep(s, k);
      MatchPassesFrom(text, p, s, depth, k + 1);
      MatchUnfolds(text, p + k, depth + Net(s[..k]), '(', ')');
    }
  }

  /** Tidy text is passed over when a bracket is matched. */
  lemma MatchPasses(text: string, p: nat, s: string, depth: nat)
    requires Holds(text, p, s) && IsTidy(s) && NoQuoteAt(text, p + |s|) && depth > 0
    ensures MatchFrom(text, p, depth, '(', ')') == MatchFrom(text, p + |s|, depth, '(', ')')
  {
    hide MatchFrom;
    MatchPassesFrom(text, p, s, depth, 0);
    assert s[..0] == "" && Net("") == 0;
  }

  function Parens(d: int): Depths {
    Depths(d, 0, 0)
  }

  lemma TreeCharDepth(c: char, d: int)
    requires IsTreeChar(c)
    ensures Deeper(Parens(d), c) == Parens(d + TextScanning.Step(c, '(', ')'))
  {
  }

  lemma {:induction false} CommasPassFrom(text: string, p: nat, s: string, k: nat) returns (inside: seq<nat>)
    requires Holds(text, p, s) && IsTidy(s) && k <= |s| && NoQuoteAt(text, p + |s|)
    ensures Commas(text, p + k, Parens(Net(s[..k]))) == inside + Commas(text, p + |s|, Parens(0))
    ensures forall i :: 0 <= i < |inside| ==> p <= inside[i] < p + |s|
    decreases |s| - k
  {
    hide LiteralEnd, Net, Deeper, IsTreeChar;
    if k == |s| {
      assert s[..k] == s;
      inside := [];
    } else {
      TidyHasNoLiteral(text, p, s, k);
      HoldsAt(text, p, s, k);
      NetStep(s, k);
      TreeCharDepth(s[k], Net(s[..k]));
      CommaStep(s[k]);
      inside := CommasPassFrom(text, p, s, k + 1);
      if s[k] == ',' && Net(s[..k]) == 0 {
        var rest := Commas(text, p + |s|, Parens(0));
        assert [p + k] + (inside + rest) == [p + k] + inside + rest;
        inside := [p + k] + inside;
      }
    }
  }

  lemma CommaStep(c: char)
    ensures c == ',' ==> TextScanning.Step(c, '(', ')') == 0
  {
  }

  /** The commas of tidy text come before those of the rest. */
  lemma CommasPass(text: string, p: nat, s: string) returns (inside: seq<nat>)
    requires Holds(text, p, s) && IsTidy(s) && NoQuoteAt(text, p + |s|)
    ensures Commas(text, p, Parens(0)) == inside + Commas(text, p + |s|, Parens(0))
    ensures forall i :: 0 <= i < |inside| ==> p <= inside[i] < p + |s|
  {
    hide Commas;
    inside := CommasPassFrom(text, p, s, 0);
    assert s[..0] == "" && Net("") == 0;
  }

  // ----- messages -----

  /** Between quotes this is one string literal. */
  predicate IsMessage(m: string)
    decreases |m|
  {
    if m == "" then true
    else if m[0] == '\\' then |m| >= 2 && IsMessage(m[2..])
    else m[0] != '"' && IsMessage(m[1..])
  }

  lemma {:induction false} MessageEnds(text: string, p: nat, m: string)
    requires IsMessage(m) && Holds(text, p, m + "\"")
    ensures QuotedEnd(text, p, '"') == p + |m| + 1
    decreases |m|
  {
    HoldsAt(text, p, m + "\"", 0);
    if m == "" {
      assert (m + "\"")[0] == '"';
    } else {
      assert (m + "\"")[0] == m[0];
      var n := if m[0] == '\\' then 2 else 1;
      assert m + "\"" == m[..n] + (m[n..] + "\"");
      HoldsParts(text, p, m[..n], m[n..] + "\"");
      MessageEnds(text, p + n, m[n..]);
    }
  }

  function Quoted(m: string): string {
    "\"" + m + "\""
  }

  lemma QuotedIsLiteral(text: string, p: nat, m: string)
    requires IsMessage(m) && Holds(text, p, Quoted(m))
    ensures p < |text| && LiteralEnd(text, p) == Some(p + |Quoted(m)|)
  {
    hide QuotedEnd, IsMessage, Find, RawStringEnd, StartsAt;
    TwoChars(text, p, '/', '/');
    TwoChars(text, p, '/', '*');
    TwoChars(text, p, 'R', '"');
    assert ['/', '/'] == "//" && ['/', '*'] == "/*" && ['R', '"'] == "R\"";
    assert Quoted(m) == "\"" + (m + "\"");
    HoldsAt(text, p, Quoted(m), 0);
    HoldsParts(text, p, "\"", m + "\"");
    MessageEnds(text, p + 1, m);
  }

  // ----- a tree cut off before a comma -----

  /** The text from `p` on is `s` cut off before a comma, and before blank space in front of that. */
  ghost predicate IsCut(text: string, p: nat, s: string, n: nat) {
    && p <= |text| && |text| - p <= n < |s| && s[n] == ',' && text[p..] == s[..|text| - p]
    && forall k :: |text| - p <= k < n ==> IsSpace(s[k])
  }

  /** The cut lies in the first of two parts. */
  lemma CutInFirst(text: string, p: nat, a: string, b: string, n: nat)
    requires IsCut(text, p, a + b, n) && n < |a|
    ensures IsCut(text, p, a, n)
  {
    var c := |text| - p;
    assert (a + b)[..c] == a[..c];
    forall k | c <= k < n ensures IsSpace(a[k]) { assert (a + b)[k] == a[k]; }
  }

  /** The cut lies in the second of two parts, and the first part ends solidly: then it is there in full. */
  lemma CutInSecond(text: string, p: nat, a: string, b: string, n: nat)
    requires IsCut(text, p, a + b, n) && |a| <= n && (a != "" ==> !IsSpace(a[|a| - 1]))
    ensures Holds(text, p, a) && IsCut(text, p + |a|, b, n - |a|)
  {
    var s, c := a + b, |text| - p;
    assert a != "" ==> s[|a| - 1] == a[|a| - 1];
    assert text[p..p + |a|] == text[p..][..|a|] == s[..|a|] == a;
    assert text[p + |a|..] == text[p..][|a|..] && s[..c][|a|..] == b[..c - |a|];
    forall k | c - |a| <= k < n - |a| ensures IsSpace(b[k]) { assert s[k + |a|] == b[k]; }
  }

  lemma {:induction false} ErrorUp(tight: nat, loose: nat, text: string, p: nat, evaluate: bool)
    requires loose <= tight <= UNARY && p <= |text| && ParseLevel(tight, text, p, evaluate).error.Some?
    ensures ParseLevel(loose, text, p, evaluate).error.Some?
    decreases tight - loose
  {
    hide ParseLevel, Rest;
    if loose < tight {
      LevelUnfolds(tight - 1, text, p, evaluate);
      RestOfError(tight - 1, text, ParseLevel(tight, text, p, evaluate), evaluate);
      ErrorUp(tight - 1, loose, text, p, evaluate);
    }
  }

  /** A type comparison needs a comma. */
  lemma CommaIsMissing(text: string, p: nat, evaluate: bool)
    requires p <= |text| && forall k :: p <= k < |text| ==> text[k] != ','
    ensures ParseSameType(text, p, evaluate).error.Some?
  {
    hide Skip, RunEnd, CanonicalType, StripNamespace;
    var open := Skip(text, p);
    if StartsAt(text, open, "<") {
      OneCharToken(text, open, '<');
      OneCharToken(text, Skip(text, ParseTypeName(text, open + 1).1), ',');
    }
  }

  predicate IsFlat(s: string) {
    forall k :: 0 <= k < |s| ==> s[k] != ','
  }

  /** A comma behind text without commas. */
  lemma CommaBehind(a: string, b: string, n: nat)
    requires IsFlat(a) && n < |a + b| && (a + b)[n] == ','
    ensures |a| <= n && b[n - |a|] == ','
  {
    forall k | 0 <= k < |a| ensures (a + b)[k] != ',' { assert (a + b)[k] == a[k]; }
  }

  /** A comma before text without commas. */
  lemma CommaBefore(a: string, b: string, n: nat)
    requires IsFlat(b) && n < |a + b| && (a + b)[n] == ','
    ensures n < |a|
  {
    forall k | |a| <= k < |a + b| ensures (a + b)[k] != ',' { assert (a + b)[k] == b[k - |a|]; }
  }

  lemma BlankIsFlat(gap: string)
    requires IsBlank(gap)
    ensures IsFlat(gap)
  {
    forall k | 0 <= k < |gap| ensures gap[k] != ',' { assert gap[k] in gap; }
  }

  lemma CutSameType(e: Expr, text: string, p: nat, n: nat, evaluate: bool)
    requires IsWellFormed(e) && e.SameType? && IsCut(text, p, Bare(e), n)
    ensures ParseLevel(UNARY, text, p, evaluate).error.Some?
  {
    hide ParseLevel, ParseSameType, Canonical, Skip, IsCut, WordAt, StartsAt, ParseUnary, IsTypeRef;
    var word := e.gap + "__is_same";
    var open := e.after + "<";
    var left, right := Written(e.left), Written(e.right) + ">";
    SameTypeParts(e);
    assert Bare(e) == (word + open) + (left + ("," + right));
    assert (word + open)[|word + open| - 1] == '<';
    CutBeforeComma(text, p, word + open, left, right, n);
    HoldsParts(text, p, word, open);
    TokenStarts(text, p, e.gap, "__is_same");
    var s := p + |e.gap|;
    HoldsParts(text, p, e.gap, "__is_same");
    HoldsAt(text, s, "__is_same", 0);
    HoldsAt(text, p + |word|, open, 0);
    FirstAfterBlank(e.after, '<');
    assert WordAt(text, s, "__is_same") by { WordHere(text, s); }
    PrimaryIsSameType(text, p, s, evaluate);
    UnaryLevel(text, p, evaluate);
    CommaIsMissing(text, s + 9, evaluate);
  }

  lemma WordHere(text: string, s: nat)
    requires StartsAt(text, s, "__is_same") && s + 9 < |text| && !IsIdentChar(text[s + 9])
    ensures WordAt(text, s, "__is_same")
  {
  }

  lemma SameTypeParts(e: Expr)
    requires IsWellFormed(e) && e.SameType?
    ensures IsFlat(e.gap + "__is_same" + (e.after + "<")) && IsFlat(Written(e.left)) && IsFlat(Written(e.right) + ">")
  {
    BlankIsFlat(e.gap);
    BlankIsFlat(e.after);
    TypeIsFlat(e.left);
    TypeIsFlat(e.right);
    forall a, b | IsFlat(a) && IsFlat(b) ensures IsFlat(a + b) {}
  }

  lemma TypeIsFlat(t: TypeRef)
    requires IsTypeRef(t)
    ensures IsFlat(Written(t))
  {
    hide Canonical;
    BlankIsFlat(t.gap);
    BlankIsFlat(t.after);
  }

  /** The text is cut off before the only comma. */
  lemma CutBeforeComma(text: string, p: nat, front: string, left: string, right: string, n: nat)
    requires IsFlat(front) && IsFlat(left) && IsFlat(right) && IsCut(text, p, front + (left + ("," + right)), n)
    requires front != "" && !IsSpace(front[|front| - 1])
    ensures Holds(text, p, front) && forall k :: p <= k < |text| ==> text[k] != ','
  {
    var s := front + (left + ("," + right));
    var m := |front| + |left|;
    forall k | 0 <= k < |s| && k != m ensures s[k] != ',' {
      if k < |front| {
        assert s[k] == front[k];
      } else if k < m {
        assert s[k] == left[k - |front|];
      } else {
        assert s[k] == right[k - m - 1];
      }
    }
    assert n == m;
    CutInSecond(text, p, front, left + ("," + right), n);
    forall k | p <= k < |text| ensures text[k] != ',' { assert text[k] == text[p..][k - p] == s[k - p]; }
  }

  lemma {:induction false} CutFails(e: Expr, level: nat, text: string, p: nat, n: nat, evaluate: bool)
    requires IsWellFormed(e) && level <= UNARY && IsCut(text, p, Print(e, level), n)
    ensures ParseLevel(level, text, p, evaluate).error.Some?
    decreases e, 1
  {
    hide ParseLevel, IsCut, Bare, IsWellFormed;
    if Precedence(e) < level {
      assert Print(e, level) == "" + ("(" + (Bare(e) + ("" + ")")));
      CutInParentheses(text, p, "", Bare(e), "", n);
      CutBare(e, text, p + 1, n - 1, evaluate);
      ErrorUp(Precedence(e), 0, text, p + 1, evaluate);
      GroupFails(text, p, "", evaluate);
      ErrorUp(UNARY, level, text, p, evaluate);
    } else {
      CutBare(e, text, p, n, evaluate);
      ErrorUp(Precedence(e), level, text, p, evaluate);
    }
  }

  lemma CutInParentheses(text: string, p: nat, gap: string, inner: string, after: string, n: nat)
    requires IsBlank(gap) && IsBlank(after) && IsCut(text, p, gap + ("(" + (inner + (after + ")"))), n)
    ensures |gap| < n && Holds(text, p, gap + "(") && IsCut(text, p + |gap| + 1, inner, n - |gap| - 1)
  {
    var open, rest := gap + "(", inner + (after + ")");
    var s := gap + ("(" + rest);
    assert s == open + rest;
    BlankIsFlat(gap);
    BlankIsFlat(after);
    CommaBehind(open, rest, n);
    CutInSecond(text, p, open, rest, n);
    CommaBefore(inner, after + ")", n - |open|);
    CutInFirst(text, p + |open|, inner, after + ")", n - |open|);
  }

  lemma AfterGroupFails(text: string, inner: State)
    requires inner.pos <= |text| && inner.error.Some?
    ensures AfterGroup(text, inner).error.Some?
  {
    hide Skip, StartsAt;
  }

  lemma GroupHere(text: string, p: nat, gap: string)
    requires Holds(text, p, gap + "(") && IsBlank(gap)
    ensures p <= |text| && Skip(text, p) == p + |gap| < |text| && text[p + |gap|] == '('
    ensures StartsAt(text, Skip(text, p), "(")
  {
    hide Skip, StartsAt, IsBlank;
    TokenStarts(text, p, gap, "(");
    OneCharToken(text, p + |gap|, '(');
  }

  lemma GroupFails(text: string, p: nat, gap: string, evaluate: bool)
    requires Holds(text, p, gap + "(") && IsBlank(gap) && p + |gap| + 1 <= |text|
    requires ParseLevel(0, text, p + |gap| + 1, evaluate).error.Some?
    ensures ParseLevel(UNARY, text, p, evaluate).error.Some?
  {
    hide Skip, StartsAt, ParseLevel, ParseUnary, ParsePrimary, AfterGroup, Holds, IsBlank;
    GroupHere(text, p, gap);
    UnaryIsPrimary(text, p, evaluate);
    AfterGroupFails(text, ParseLevel(0, text, p + |gap| + 1, evaluate));
    GroupUnfolds(text, p, evaluate);
    UnaryLevel(text, p, evaluate);
  }

  lemma {:induction false} CutBare(e: Expr, text: string, p: nat, n: nat, evaluate: bool)
    requires IsWellFormed(e) && IsCut(text, p, Bare(e), n)
    ensures ParseLevel(Precedence(e), text, p, evaluate).error.Some?
    decreases e, 0
  {
    hide ParseLevel, IsCut, Types, Print, LevelOf, Spelling, IsTypeRef;
    match e {
      case Number(_, _, _) => LeafIsUncut(e, text, p, n);
      case Boolean(_, _) => LeafIsUncut(e, text, p, n);
      case SameType(_, _, _, _) => CutSameType(e, text, p, n, evaluate);
      case Group(gap, arg, after) =>
        CutInParentheses(text, p, gap, Print(arg, 0), after, n);
        CutFails(arg, 0, text, p + |gap| + 1, n - |gap| - 1, evaluate);
        GroupFails(text, p, gap, evaluate);
      case Binary(_, op, l, r) =>
        var level := LevelOf(op);
        if n < |Print(l, level)| {
          CutInLeft(e, text, p, n);
          CutFails(l, level, text, p, n, evaluate);
        } else {
          var after := CutInRight(e, text, p, n);
          CutFails(r, level + 1, text, after, n - (after - p), true);
          CutFails(r, level + 1, text, after, n - (after - p), false);
          RightFails(e, text, p, after, evaluate);
        }
      case Not(_, arg) =>
        CutInUnary(e, text, p, n);
        CutFails(arg, UNARY, text, p + |e.gap| + 1, n - |e.gap| - 1, evaluate);
        UnaryFails(text, p, e.gap, '!', evaluate);
      case Minus(_, arg) =>
        CutInUnary(e, text, p, n);
        CutFails(arg, UNARY, text, p + |e.gap| + 1, n - |e.gap| - 1, evaluate);
        UnaryFails(text, p, e.gap, '-', evaluate);
      case Plus(_, arg) =>
        CutInUnary(e, text, p, n);
        CutFails(arg, UNARY, text, p + |e.gap| + 1, n - |e.gap| - 1, evaluate);
        UnaryFails(text, p, e.gap, '+', evaluate);
    }
  }

  /** Numbers and truth values have no comma. */
  lemma LeafIsUncut(e: Expr, text: string, p: nat, n: nat)
    requires IsWellFormed(e) && (e.Number? || e.Boolean?)
    ensures !IsCut(text, p, Bare(e), n)
  {
    hide LiteralValue;
    BlankIsFlat(e.gap);
    if e.Number? {
      forall k | 0 <= k < |e.digits| ensures IsIdentChar(e.digits[k]) { DigitsAreWord(e.digits, k); }
      forall k | 0 <= k < |e.suffix| ensures IsSuffixChar(e.suffix[k]) { assert e.suffix[k] in e.suffix; }
    }
  }

  lemma CutInUnary(e: Expr, text: string, p: nat, n: nat)
    requires IsWellFormed(e) && (e.Not? || e.Minus? || e.Plus?) && IsCut(text, p, Bare(e), n)
    ensures var c := if e.Not? then '!' else if e.Minus? then '-' else '+';
            && |e.gap| < n && Holds(text, p, e.gap + [c])
            && IsCut(text, p + |e.gap| + 1, Print(e.arg, UNARY), n - |e.gap| - 1)
  {
    hide Print;
    var c := if e.Not? then '!' else if e.Minus? then '-' else '+';
    BlankIsFlat(e.gap);
    var front, arg := e.gap + [c], Print(e.arg, UNARY);
    assert Bare(e) == front + arg;
    CommaBehind(front, arg, n);
    CutInSecond(text, p, front, arg, n);
  }

  lemma UnaryFails(text: string, p: nat, gap: string, c: char, evaluate: bool)
    requires Holds(text, p, gap + [c]) && IsBlank(gap) && (c == '!' || c == '-' || c == '+')
    requires p + |gap| + 1 <= |text| && ParseLevel(UNARY, text, p + |gap| + 1, evaluate).error.Some?
    ensures ParseLevel(UNARY, text, p, evaluate).error.Some?
  {
    hide ParseLevel;
    UnaryUnfolds(text, p, gap, c, evaluate);
  }

  lemma CutInLeft(e: Expr, text: string, p: nat, n: nat)
    requires e.Binary? && IsCut(text, p, Bare(e), n) && n < |Print(e.lhs, LevelOf(e.op))|
    ensures IsCut(text, p, Print(e.lhs, LevelOf(e.op)), n)
  {
    hide Print, Spelling, LevelOf;
    var l := Print(e.lhs, LevelOf(e.op));
    var rest := e.gap + (Spelling(e.op) + Print(e.rhs, LevelOf(e.op) + 1));
    assert Bare(e) == l + rest;
    CutInFirst(text, p, l, rest, n);
  }

  lemma CommaThere(text: string, p: nat, s: string, n: nat)
    requires IsCut(text, p, s, n)
    ensures n < |s| && s[n] == ','
  {
  }

  lemma CutStarts(text: string, p: nat, s: string, n: nat)
    requires IsCut(text, p, s, n)
    ensures p <= |text| && (p < |text| ==> text[p] == s[0])
  {
    if p < |text| { assert text[p] == text[p..][0]; }
  }

  lemma CutInRight(e: Expr, text: string, p: nat, n: nat) returns (after: nat)
    requires IsWellFormed(e) && e.Binary? && IsCut(text, p, Bare(e), n) && |Print(e.lhs, LevelOf(e.op))| <= n
    ensures var l, token := Print(e.lhs, LevelOf(e.op)), e.gap + Spelling(e.op);
            && after == p + |l| + |token| && after - p <= n && Holds(text, p, l) && Holds(text, p + |l|, token)
    ensures IsCut(text, after, Print(e.rhs, LevelOf(e.op) + 1), n - (after - p))
    ensures after <= |text| && (after < |text| ==> text[after] != '=')
  {
    hide Print, Spelling, LevelOf, Holds, IsCut;
    var l, r := Print(e.lhs, LevelOf(e.op)), Print(e.rhs, LevelOf(e.op) + 1);
    var token := e.gap + Spelling(e.op);
    assert Bare(e) == (l + token) + r;
    OperatorIsSolid(e.op);
    BlankIsFlat(e.gap);
    assert Bare(e) == l + (token + r);
    CommaThere(text, p, l + (token + r), n);
    CommaBehind(token, r, n - |l|);
    EndsSolid(l + e.gap, Spelling(e.op));
    assert l + token == (l + e.gap) + Spelling(e.op);
    CutInSecond(text, p, l + token, r, n);
    HoldsParts(text, p, l, token);
    after := p + |l| + |token|;
    PrintStarts(e.rhs, LevelOf(e.op) + 1);
    CutStarts(text, after, r, n - |l| - |token|);
  }

  lemma OperatorIsSolid(op: Op)
    ensures IsFlat(Spelling(op)) && !IsSpace(Spelling(op)[|Spelling(op)| - 1])
  {
  }

  lemma RightFails(e: Expr, text: string, p: nat, after: nat, evaluate: bool)
    requires IsWellFormed(e) && e.Binary?
    requires var l, token := Print(e.lhs, LevelOf(e.op)), e.gap + Spelling(e.op);
             Holds(text, p, l) && Holds(text, p + |l|, token) && after == p + |l| + |token|
    requires after <= |text| && (after < |text| ==> text[after] != '=')
    requires ParseLevel(LevelOf(e.op) + 1, text, after, true).error.Some?
    requires ParseLevel(LevelOf(e.op) + 1, text, after, false).error.Some?
    ensures ParseLevel(LevelOf(e.op), text, p, evaluate).error.Some?
  {
    hide ParseLevel, Rest, Spelling, LevelOf, Print, Skip, OpAt, Quiet, EndsWord, Apply, Meaning;
    var level, mid := LevelOf(e.op), p + |Print(e.lhs, LevelOf(e.op))|;
    OperatorFollows(text, mid, e.gap, e.op);
    ReadsPrinted(e.lhs, level, text, p, evaluate);
    var a := Expected(e.lhs, evaluate);
    if a.Val? {
      RestGoesOn(level, text, a.value, mid, e.op, evaluate);
      var rhs := ParseLevel(level + 1, text, after, EvaluatesRight(e.op, a.value, evaluate));
      RestOfError(level, text, Combine(e.op, a.value, rhs, evaluate), evaluate);
    }
  }

  // ----- the verdict on an assertion -----

  /** The condition of a tree with blank space behind it, trimmed. */
  lemma TrimmedTree(e: Expr, tail: string)
    requires IsWellFormed(e) && IsBlank(tail)
    ensures Trim(Print(e, 0) + tail) == Print(Strip(e), 0)
  {
    hide TrimLeft, TrimRight, Meaning, Strip, Bare, IsWellFormed, LeadingGap, IsBlank;
    StripIs(e);
    TreeEndsSolid(Strip(e));
    assert Print(e, 0) + tail == LeadingGap(e) + (Bare(Strip(e)) + tail);
    TrimLeftIs(LeadingGap(e), Bare(Strip(e)) + tail);
    TrimRightIs(Bare(Strip(e)), tail);
  }

  lemma EndsSolid(a: string, b: string)
    requires b != "" && !IsSpace(b[|b| - 1])
    ensures a + b != "" && !IsSpace((a + b)[|a + b| - 1])
  {
  }

  lemma {:induction false} TreeEndsSolid(e: Expr)
    requires IsWellFormed(e)
    ensures Bare(e) != "" && !IsSpace(Bare(e)[|Bare(e)| - 1])
    ensures forall level :: Print(e, level) != "" && !IsSpace(Print(e, level)[|Print(e, level)| - 1])
  {
    hide IsNumber, Types, Spelling, LevelOf, IsTypeRef, Bare;
    match e {
      case Binary(_, op, l, r) =>
        TreeEndsSolid(r);
        BinaryText(e);
        EndsSolid(Print(l, LevelOf(op)) + e.gap + Spelling(op), Print(r, LevelOf(op) + 1));
      case Not(_, arg) =>
        TreeEndsSolid(arg);
        UnaryText(e);
        EndsSolid(e.gap + "!", Print(arg, UNARY));
      case Minus(_, arg) =>
        TreeEndsSolid(arg);
        UnaryText(e);
        EndsSolid(e.gap + "-", Print(arg, UNARY));
      case Plus(_, arg) =>
        TreeEndsSolid(arg);
        UnaryText(e);
        EndsSolid(e.gap + "+", Print(arg, UNARY));
      case _ => LeafEndsSolid(e);
    }
    forall level ensures Print(e, level) != "" && !IsSpace(Print(e, level)[|Print(e, level)| - 1]) {}
  }

  lemma BinaryText(e: Expr)
    requires e.Binary?
    ensures Bare(e) == (Print(e.lhs, LevelOf(e.op)) + e.gap + Spelling(e.op)) + Print(e.rhs, LevelOf(e.op) + 1)
  {
    hide Print, Spelling, LevelOf;
  }

  lemma LeafEndsSolid(e: Expr)
    requires IsWellFormed(e) && (e.Number? || e.Boolean? || e.SameType? || e.Group?)
    ensures Bare(e) != "" && !IsSpace(Bare(e)[|Bare(e)| - 1])
  {
    hide Bare, IsSpace;
    match e
    case Number(gap, digits, suffix) => NumberEndsSolid(e);
    case Boolean(gap, value) => WordEndsSolid(e);
    case SameType(gap, after, left, right) => SameTypeEndsSolid(e);
    case Group(gap, arg, after) => GroupEndsSolid(e);
  }

  lemma NumberEndsSolid(e: Expr)
    requires IsWellFormed(e) && e.Number?
    ensures Bare(e) != "" && !IsSpace(Bare(e)[|Bare(e)| - 1])
  {
    hide LiteralValue, NumberEnd;
    forall k | 0 <= k < |e.digits| ensures IsIdentChar(e.digits[k]) { DigitsAreWord(e.digits, k); }
    forall k | 0 <= k < |e.suffix| ensures IsSuffixChar(e.suffix[k]) { assert e.suffix[k] in e.suffix; }
    EndsSolid(e.gap, e.digits);
    if e.suffix != "" {
      EndsSolid(e.gap + e.digits, e.suffix);
    } else {
      assert e.gap + e.digits + e.suffix == e.gap + e.digits;
    }
  }

  lemma WordEndsSolid(e: Expr)
    requires e.Boolean?
    ensures Bare(e) != "" && !IsSpace(Bare(e)[|Bare(e)| - 1])
  {
    EndsSolid(e.gap, if e.value then "true" else "false");
  }

  lemma SameTypeEndsSolid(e: Expr)
    requires e.SameType?
    ensures Bare(e) != "" && !IsSpace(Bare(e)[|Bare(e)| - 1])
  {
    hide Written;
    var front := e.gap + ("__is_same" + (e.after + ("<" + (Written(e.left) + ("," + Written(e.right))))));
    assert Bare(e) == front + ">";
    EndsSolid(front, ">");
  }

  lemma GroupEndsSolid(e: Expr)
    requires e.Group?
    ensures Bare(e) != "" && !IsSpace(Bare(e)[|Bare(e)| - 1])
  {
    hide Print;
    var front := e.gap + ("(" + (Print(e.arg, 0) + e.after));
    assert Bare(e) == front + ")";
    EndsSolid(front, ")");
  }

  /** What stands before a comma of a tree, trimmed, is the tree cut off there. */
  lemma CutAtComma(e: Expr, tail: string, comma: nat) returns (m: nat)
    requires IsWellFormed(e) && IsBlank(tail) && comma < |Print(e, 0) + tail| && (Print(e, 0) + tail)[comma] == ','
    ensures IsCut(Trim((Print(e, 0) + tail)[..comma]), 0, Print(Strip(e), 0), m)
  {
    hide TrimLeft, TrimRight, Meaning, IsWellFormed, Bare;
    var gap, bare := LeadingGap(e), Bare(Strip(e));
    StripIs(e);
    BlankIsFlat(gap);
    BlankIsFlat(tail);
    CommaBefore(Bare(e), tail, comma);
    CommaBehind(gap, bare, comma);
    m := comma - |gap|;
    var front := bare[..m];
    assert (Bare(e) + tail)[..comma] == gap + front;
    TrimLeftIs(gap, front);
    CutOfFront(bare, m);
  }

  lemma CutOfFront(bare: string, m: nat)
    requires m < |bare| && bare[m] == ','
    ensures IsCut(TrimRight(bare[..m]), 0, bare, m)
  {
    hide TrimRight;
    var front := bare[..m];
    var text := TrimRight(front);
    TrimRightCuts(front);
    assert text == bare[..|text|] && text[0..] == text;
    forall k | |text| <= k < m ensures IsSpace(bare[k]) { assert front[k] == bare[k]; }
  }

  /** So it is no condition. */
  lemma NoConditionBefore(e: Expr, tail: string, comma: nat)
    requires IsWellFormed(e) && IsBlank(tail) && comma < |Print(e, 0) + tail| && (Print(e, 0) + tail)[comma] == ','
    ensures Evaluation(Trim((Print(e, 0) + tail)[..comma])).1.Some?
  {
    hide Trim, IsCut, Print, ParseLevel, Skip, Meaning, Strip, LeadingGap;
    var text := Trim((Print(e, 0) + tail)[..comma]);
    var m := CutAtComma(e, tail, comma);
    StripIs(e);
    CutFails(Strip(e), 0, text, 0, m, true);
  }

  /** Without a message the whole text is the condition. */
  lemma {:induction false} SplitsNowhere(e: Expr, tail: string, commas: seq<nat>)
    requires IsWellFormed(e) && IsBlank(tail)
    requires var s := Print(e, 0) + tail; forall k :: 0 <= k < |commas| ==> commas[k] < |s| && s[commas[k]] == ','
    ensures SplitArguments(Print(e, 0) + tail, commas) == (Print(Strip(e), 0), "")
    decreases |commas|
  {
    hide Trim, Evaluation;
    var s := Print(e, 0) + tail;
    if commas == [] {
      TrimmedTree(e, tail);
    } else {
      var comma := commas[|commas| - 1];
      NoConditionBefore(e, tail, comma);
      TrimOfTree(e, tail, comma + 1);
      SplitsNowhere(e, tail, commas[..|commas| - 1]);
    }
  }

  /** No part of a tree is quoted. */
  lemma TrimOfTree(e: Expr, tail: string, from: nat)
    requires IsWellFormed(e) && IsBlank(tail) && from <= |Print(e, 0) + tail|
    ensures !IsQuoted(Trim((Print(e, 0) + tail)[from..]))
  {
    hide Print, IsTreeChar;
    var s := Print(e, 0) + tail;
    TreeIsTidy(e);
    BlankIsTidy(tail);
    TidyOfBoth(Print(e, 0), tail);
    var t := Trim(s[from..]);
    TrimIsPart(s[from..]);
    if t != "" {
      assert t[0] in t && t[0] in s[from..];
      var k :| 0 <= k < |s[from..]| && s[from..][k] == t[0];
      assert IsTreeChar(s[from + k]);
      NoQuotes(t[0]);
    }
  }

  lemma {:induction false} TrimLeftIsPart(s: string)
    ensures forall c :: c in TrimLeft(s) ==> c in s
  {
    if s != "" && IsSpace(s[0]) { TrimLeftIsPart(s[1..]); }
  }

  lemma TrimIsPart(s: string)
    ensures forall c :: c in Trim(s) ==> c in s
  {
    TrimLeftIsPart(s);
    TrimRightCuts(TrimLeft(s));
  }

  /** With a message the last comma splits. */
  lemma SplitsAtMessage(e: Expr, tail: string, before: string, m: string, after: string, commas: seq<nat>)
    requires IsWellFormed(e) && IsBlank(tail) && IsBlank(before) && IsBlank(after)
    requires var s := Print(e, 0) + tail + ("," + (before + Quoted(m) + after));
             && (forall k :: 0 <= k < |commas| ==> commas[k] < |s|)
             && commas != [] && commas[|commas| - 1] == |Print(e, 0) + tail|
    ensures SplitArguments(Print(e, 0) + tail + ("," + (before + Quoted(m) + after)), commas)
            == (Print(Strip(e), 0), Quoted(m))
  {
    hide TrimLeft, TrimRight, Evaluation, Print;
    var front, back := Print(e, 0) + tail, before + Quoted(m) + after;
    var s := front + ("," + back);
    assert s[..|front|] == front && s[|front| + 1..] == back;
    TrimmedTree(e, tail);
    assert back == before + (Quoted(m) + after);
    TrimLeftIs(before, Quoted(m) + after);
    TrimRightIs(Quoted(m), after);
  }

  /** The arguments hold exactly if the tree means a number other than 0. */
  lemma VerdictOfTree(s: string, e: Expr, message: string)
    requires IsWellFormed(e) && (message == "" || IsQuoted(message))
    requires SplitArguments(s, Commas(s, 0, Depths(0, 0, 0))) == (Print(Strip(e), 0), message)
    ensures CheckArguments(s).None? <==> Meaning(e).Val? && Meaning(e).value != 0
    ensures Meaning(e) == Val(0) ==>
              CheckArguments(s) == Some("static assertion failed"
                                        + if |message| > 2 then ": " + message[1..|message| - 1] else "")
  {
    hide Print, Evaluation, Meaning, SplitArguments, Commas, IsWellFormed;
    StripIs(e);
    PrintStarts(Strip(e), 0);
    PrintedTreeEvaluates(Strip(e), "");
    assert Print(Strip(e), 0) + "" == Print(Strip(e), 0);
  }

  lemma VerdictWithoutMessage(e: Expr, tail: string)
    requires IsWellFormed(e) && IsBlank(tail)
    ensures CheckArguments(Print(e, 0) + tail).None? <==> Meaning(e).Val? && Meaning(e).value != 0
    ensures Meaning(e) == Val(0) ==> CheckArguments(Print(e, 0) + tail) == Some("static assertion failed")
  {
    hide Print, SplitArguments, Meaning, CheckArguments;
    var s := Print(e, 0) + tail;
    SplitsNowhere(e, tail, Commas(s, 0, Depths(0, 0, 0)));
    VerdictOfTree(s, e, "");
    assert "static assertion failed" + "" == "static assertion failed";
  }

  lemma VerdictWithMessage(e: Expr, tail: string, before: string, m: string, after: string)
    requires IsWellFormed(e) && IsBlank(tail) && IsBlank(before) && IsBlank(after) && IsMessage(m)
    ensures CheckArguments(Print(e, 0) + tail + ("," + (before + Quoted(m) + after))).None? <==>
              Meaning(e).Val? && Meaning(e).value != 0
    ensures Meaning(e) == Val(0) ==>
              CheckArguments(Print(e, 0) + tail + ("," + (before + Quoted(m) + after))) == Some(Complaint(m))
  {
    hide Print, SplitArguments, Meaning, CheckArguments, Commas, IsTidy;
    var front, back := Print(e, 0) + tail, before + Quoted(m) + after;
    var s := front + ("," + back);
    TreeIsTidy(e);
    BlankIsTidy(tail);
    TidyOfBoth(Print(e, 0), tail);
    assert s[0..0 + |front|] == front;
    var inside := CommasPass(s, 0, front);
    assert s[|front|..] == "," + back;
    MessageParts(s, |front|, before, m, after);
    CommasOfMessage(s, |front|, before, m, after);
    assert Commas(s, 0, Parens(0)) == inside + [|front|];
    SplitsAtMessage(e, tail, before, m, after, Commas(s, 0, Parens(0)));
    VerdictOfTree(s, e, Quoted(m));
    ComplaintIs(m);
  }

  /** What is said when the condition is 0. */
  function Complaint(message: string): string {
    if message == "" then "static assertion failed" else "static assertion failed: " + message
  }

  lemma ComplaintIs(m: string)
    ensures Complaint(m) == "static assertion failed"
                            + if |Quoted(m)| > 2 then ": " + Quoted(m)[1..|Quoted(m)| - 1] else ""
  {
    if m != "" {
      assert Quoted(m)[1..|Quoted(m)| - 1] == m;
      assert "static assertion failed: " == "static assertion failed" + ": ";
    } else {
      assert "static assertion failed" + "" == "static assertion failed";
    }
  }

  lemma MessageParts(s: string, p: nat, before: string, m: string, after: string)
    requires p <= |s| && s[p..] == "," + (before + Quoted(m) + after)
    ensures p < |s| && s[p] == ',' && Holds(s, p + 1, before)
    ensures Holds(s, p + 1 + |before|, Quoted(m)) && Holds(s, p + 1 + |before| + |Quoted(m)|, after)
    ensures |s| == p + 1 + |before| + |Quoted(m)| + |after|
  {
    hide Quoted;
    var back := before + (Quoted(m) + after);
    assert s[p..] == "," + back && s[p] == s[p..][0] == ',';
    assert s[p..p + 1 + |back|] == "," + back;
    HoldsParts(s, p, ",", back);
    HoldsParts(s, p + 1, before, Quoted(m) + after);
    HoldsParts(s, p + 1 + |before|, Quoted(m), after);
  }

  /** A message has no comma but the one before it. */
  lemma CommasOfMessage(s: string, p: nat, before: string, m: string, after: string)
    requires IsBlank(before) && IsBlank(after) && IsMessage(m) && p < |s| && s[p] == ','
    requires Holds(s, p + 1, before) && Holds(s, p + 1 + |before|, Quoted(m))
    requires Holds(s, p + 1 + |before| + |Quoted(m)|, after) && |s| == p + 1 + |before| + |Quoted(m)| + |after|
    ensures Commas(s, p, Parens(0)) == [p]
  {
    hide LiteralEnd, IsMessage, Commas, Quoted, Holds, IsBlank, Parens;
    CommaIsCode(s, p);
    NoCommaInMessage(s, p + 1, before, m, after);
  }

  lemma NoCommaInMessage(s: string, p: nat, before: string, m: string, after: string)
    requires IsBlank(before) && IsBlank(after) && IsMessage(m)
    requires Holds(s, p, before) && Holds(s, p + |before|, Quoted(m)) && Holds(s, p + |before| + |Quoted(m)|, after)
    requires |s| == p + |before| + |Quoted(m)| + |after|
    ensures Commas(s, p, Parens(0)) == []
  {
    hide LiteralEnd, IsMessage, Commas, Quoted, Holds, IsBlank;
    var q := p + |before|;
    QuotedIsLiteral(s, q, m);
    BlankHasNoComma(s, p, before);
    CommasSkip(s, q);
    BlankHasNoComma(s, q + |Quoted(m)|, after);
    CommasEnd(s);
  }

  lemma CommaIsCode(s: string, p: nat)
    requires p < |s| && s[p] == ','
    ensures Commas(s, p, Parens(0)) == [p] + Commas(s, p + 1, Parens(0))
  {
    hide LiteralEnd;
    PlainIsCode(s, p);
  }

  lemma CommasSkip(s: string, p: nat)
    requires p < |s| && LiteralEnd(s, p).Some?
    ensures Commas(s, p, Parens(0)) == Commas(s, LiteralEnd(s, p).value, Parens(0))
  {
    hide LiteralEnd;
  }

  lemma CommasEnd(s: string)
    ensures Commas(s, |s|, Parens(0)) == []
  {
  }

  lemma BlankIsCode(s: string, p: nat)
    requires p < |s| && IsSpace(s[p])
    ensures LiteralEnd(s, p).None?
  {
    PlainIsCode(s, p);
  }

  lemma {:induction false} BlankHasNoComma(s: string, p: nat, gap: string)
    requires Holds(s, p, gap) && IsBlank(gap)
    ensures Commas(s, p, Parens(0)) == Commas(s, p + |gap|, Parens(0))
    decreases |gap|
  {
    hide LiteralEnd;
    if gap != "" {
      HoldsAt(s, p, gap, 0);
      assert gap[0] in gap && IsSpace(s[p]);
      BlankIsCode(s, p);
      assert gap == gap[..1] + gap[1..];
      HoldsParts(s, p, gap[..1], gap[1..]);
      forall c | c in gap[1..] ensures IsSpace(c) { assert c in gap; }
      BlankHasNoComma(s, p + 1, gap[1..]);
    }
  }

  // ----- assertions in text -----

  /** A string literal with the blank space around it. */
  datatype Message = Message(before: string, text: string, after: string)

  /** What stands in the parentheses of an assertion: a tree, blank space and perhaps a message. */
  datatype Argument = Argument(condition: Expr, tail: string, message: Option<Message>)

  ghost predicate IsArgument(a: Argument) {
    && IsWellFormed(a.condition) && IsBlank(a.tail)
    && (a.message.Some? ==>
          IsBlank(a.message.value.before) && IsMessage(a.message.value.text) && IsBlank(a.message.value.after))
  }

  function ArgumentText(a: Argument): string {
    Print(a.condition, 0) + a.tail + MessageText(a.message)
  }

  function MessageText(message: Option<Message>): string {
    match message
    case None => ""
    case Some(m) => "," + (m.before + Quoted(m.text) + m.after)
  }

  /** An assertion, with blank space before its bracket and before its semicolon. */
  function AssertionText(before: string, a: Argument, after: string): string {
    "static_assert" + before + "(" + (ArgumentText(a) + (")" + after + ";"))
  }

  /** The condition of the assertion is a number other than 0. */
  predicate Demands(a: Argument)
    requires IsWellFormed(a.condition)
  {
    Meaning(a.condition).Val? && Meaning(a.condition).value != 0
  }

  /** The arguments pass exactly if the condition demands nothing false, and a condition that means 0 is complained of
    with the message. */
  lemma VerdictOfArgument(a: Argument)
    requires IsArgument(a)
    ensures CheckArguments(ArgumentText(a)).None? <==> Demands(a)
    ensures Meaning(a.condition) == Val(0) ==>
              CheckArguments(ArgumentText(a)) == Some(Complaint(if a.message.Some? then a.message.value.text else ""))
  {
    hide CheckArguments, Print, Meaning;
    match a.message
    case None =>
      VerdictWithoutMessage(a.condition, a.tail);
      assert ArgumentText(a) == Print(a.condition, 0) + a.tail;
    case Some(m) => VerdictWithMessage(a.condition, a.tail, m.before, m.text, m.after);
  }

  lemma {:induction false} TriviaPasses(text: string, p: nat, gap: string)
    requires Holds(text, p, gap) && IsBlank(gap) && p + |gap| < |text|
    requires var c := text[p + |gap|]; !IsSpace(c) && c != '/'
    ensures TriviaEnd(text, p) == p + |gap|
    decreases |gap|
  {
    hide LiteralEnd;
    if gap == "" {
      TwoChars(text, p, '/', '/');
      TwoChars(text, p, '/', '*');
      assert ['/', '/'] == "//" && ['/', '*'] == "/*";
    } else {
      HoldsAt(text, p, gap, 0);
      assert gap[0] in gap && gap == gap[..1] + gap[1..];
      HoldsParts(text, p, gap[..1], gap[1..]);
      forall c | c in gap[1..] ensures IsSpace(c) { assert c in gap; }
      TriviaPasses(text, p + 1, gap[1..]);
    }
  }

  /** The argument is passed over when its bracket is matched. */
  lemma MatchPassesArgument(text: string, p: nat, a: Argument)
    requires IsArgument(a) && Holds(text, p, ArgumentText(a)) && NoQuoteAt(text, p + |ArgumentText(a)|)
    ensures MatchFrom(text, p, 1, '(', ')') == MatchFrom(text, p + |ArgumentText(a)|, 1, '(', ')')
  {
    hide Print, MatchFrom, IsTidy, IsMessage, MessageText, ArgumentText, Holds, NoQuoteAt, IsWellFormed, IsBlank;
    var front := Print(a.condition, 0) + a.tail;
    ArgumentParts(text, p, a);
    TreeIsTidy(a.condition);
    BlankIsTidy(a.tail);
    TidyOfBoth(Print(a.condition, 0), a.tail);
    MatchPasses(text, p, front, 1);
    if a.message.Some? { MatchPassesMessage(text, p + |front|, a.message.value); }
  }

  lemma ArgumentParts(text: string, p: nat, a: Argument)
    requires Holds(text, p, ArgumentText(a)) && NoQuoteAt(text, p + |ArgumentText(a)|)
    ensures var front := Print(a.condition, 0) + a.tail;
            && Holds(text, p, front) && Holds(text, p + |front|, MessageText(a.message))
            && |ArgumentText(a)| == |front| + |MessageText(a.message)| && NoQuoteAt(text, p + |front|)
            && (a.message.None? ==> MessageText(a.message) == "")
  {
    hide Print, Holds, Quoted;
    var front := Print(a.condition, 0) + a.tail;
    HoldsParts(text, p, front, MessageText(a.message));
    if a.message.Some? { PartsOfMessage(text, p + |front|, a.message.value); }
  }

  lemma MatchPassesMessage(text: string, p: nat, m: Message)
    requires IsBlank(m.before) && IsMessage(m.text) && IsBlank(m.after)
    requires Holds(text, p, MessageText(Some(m))) && NoQuoteAt(text, p + |MessageText(Some(m))|)
    ensures MatchFrom(text, p, 1, '(', ')') == MatchFrom(text, p + |MessageText(Some(m))|, 1, '(', ')')
  {
    hide MatchFrom, IsMessage, LiteralEnd, Quoted, IsBlank, Holds, MessageText;
    var q := p + 1 + |m.before|;
    PartsOfMessage(text, p, m);
    MatchStepsOver(text, p);
    BlankMatches(text, p + 1, m.before);
    QuotedIsLiteral(text, q, m.text);
    MatchSkips(text, q);
    BlankMatches(text, q + |Quoted(m.text)|, m.after);
  }

  lemma PartsOfMessage(text: string, p: nat, m: Message)
    requires Holds(text, p, MessageText(Some(m)))
    ensures var q := p + 1 + |m.before|;
            && p < |text| && text[p] == ',' && Holds(text, p + 1, m.before) && Holds(text, q, Quoted(m.text))
            && Holds(text, q + |Quoted(m.text)|, m.after)
            && q + |Quoted(m.text)| + |m.after| == p + |MessageText(Some(m))|
  {
    hide Quoted, Holds;
    var literal := Quoted(m.text);
    var rest := m.before + literal + m.after;
    HoldsParts(text, p, ",", rest);
    HoldsAt(text, p, ",", 0);
    HoldsParts(text, p + 1, m.before + literal, m.after);
    HoldsParts(text, p + 1, m.before, literal);
  }

  lemma MatchStepsOver(text: string, p: nat)
    requires p < |text| && text[p] == ','
    ensures MatchFrom(text, p, 1, '(', ')') == MatchFrom(text, p + 1, 1, '(', ')')
  {
    hide LiteralEnd;
    PlainIsCode(text, p);
  }

  lemma MatchSkips(text: string, p: nat)
    requires p < |text| && LiteralEnd(text, p).Some?
    ensures MatchFrom(text, p, 1, '(', ')') == MatchFrom(text, LiteralEnd(text, p).value, 1, '(', ')')
  {
    hide LiteralEnd;
  }

  lemma {:induction false} BlankMatches(text: string, p: nat, gap: string)
    requires Holds(text, p, gap) && IsBlank(gap)
    ensures MatchFrom(text, p, 1, '(', ')') == MatchFrom(text, p + |gap|, 1, '(', ')')
    decreases |gap|
  {
    hide LiteralEnd;
    if gap != "" {
      HoldsAt(text, p, gap, 0);
      assert gap[0] in gap && IsSpace(text[p]);
      BlankIsCode(text, p);
      assert gap == gap[..1] + gap[1..];
      HoldsParts(text, p, gap[..1], gap[1..]);
      forall c | c in gap[1..] ensures IsSpace(c) { assert c in gap; }
      BlankMatches(text, p + 1, gap[1..]);
    }
  }

  lemma MatchEndsHere(text: string, p: nat)
    requires p < |text| && text[p] == ')'
    ensures MatchFrom(text, p, 1, '(', ')') == Some(p)
  {
    hide LiteralEnd;
    PlainIsCode(text, p);
  }

  /** Where the parts of an assertion stand. */
  lemma AssertionParts(text: string, pos: nat, before: string, a: Argument, after: string)
    requires Holds(text, pos, AssertionText(before, a, after))
    ensures var open := pos + 13 + |before|;
            var close := open + 1 + |ArgumentText(a)|;
            var semicolon := close + 1 + |after|;
            && Holds(text, pos, "static_assert") && Holds(text, pos + 13, before)
            && open < |text| && text[open] == '(' && Holds(text, open + 1, ArgumentText(a))
            && close < |text| && text[close] == ')' && Holds(text, close + 1, after)
            && semicolon < |text| && text[semicolon] == ';'
            && semicolon + 1 == pos + |AssertionText(before, a, after)|
  {
    hide ArgumentText, Holds;
    var word, argument, rest := "static_assert", ArgumentText(a), ")" + after + ";";
    var open := pos + 13 + |before|;
    var close := open + 1 + |argument|;
    HoldsParts(text, pos, word + before + "(", argument + rest);
    HoldsParts(text, pos, word + before, "(");
    HoldsParts(text, pos, word, before);
    HoldsAt(text, open, "(", 0);
    HoldsParts(text, open + 1, argument, rest);
    HoldsParts(text, close, ")" + after, ";");
    HoldsParts(text, close, ")", after);
    HoldsAt(text, close, ")", 0);
    HoldsAt(text, close + 1 + |after|, ";", 0);
  }

  /** An assertion of a tree is passed exactly if the tree means a number other than 0, and refused otherwise. */
  lemma AssertionOfTree(text: string, pos: nat, before: string, a: Argument, after: string)
    requires pos <= |text| && IsKeywordAt(text, pos, "static_assert") && IsBlank(before) && IsBlank(after)
    requires IsArgument(a) && Holds(text, pos, AssertionText(before, a, after))
    ensures AssertionAt(text, pos).GoodAssertion? <==> Demands(a)
    ensures Demands(a) ==> AssertionAt(text, pos).end == pos + |AssertionText(before, a, after)|
  {
    hide CheckArguments, MatchFrom, TriviaEnd, ArgumentText, AssertionText, IsKeywordAt, IsArgument, Demands;
    var argument := ArgumentText(a);
    AssertionParts(text, pos, before, a, after);
    var open := pos + 13 + |before|;
    var close := open + 1 + |argument|;
    TriviaPasses(text, pos + 13, before);
    MatchPassesArgument(text, open + 1, a);
    MatchEndsHere(text, close);
    TriviaPasses(text, close + 1, after);
    assert text[open + 1..close] == argument;
    VerdictOfArgument(a);
  }

  /** So the text of one assertion folds exactly if its condition means a number other than 0, and all that is left of
    it are its line ends. */
  lemma AssertionFoldsIffDemanded(before: string, a: Argument, after: string)
    requires IsBlank(before) && IsBlank(after) && IsArgument(a)
    ensures var text := AssertionText(before, a, after);
            && (FoldAssertions(text, 0).Folded? <==> Demands(a))
            && (Demands(a) ==> FoldAssertions(text, 0) == Folded(PreserveLayout(text)))
  {
    hide AssertionAt, ArgumentText, IsArgument, Demands, NextKeyword, IsKeywordAt, FoldAssertions, LiteralEnd;
    var text := AssertionText(before, a, after);
    assert text[0..0 + |text|] == text;
    AssertionParts(text, 0, before, a, after);
    KeywordFirst(text, before);
    AssertionOfTree(text, 0, before, a, after);
    FoldOfOne(text);
  }

  lemma KeywordFirst(text: string, before: string)
    requires Holds(text, 0, "static_assert") && Holds(text, 13, before) && IsBlank(before)
    requires 13 + |before| < |text| && text[13 + |before|] == '('
    ensures IsKeywordAt(text, 0, "static_assert") && NextKeyword(text, 0, "static_assert") == 0
  {
    hide LiteralEnd;
    HoldsAt(text, 0, "static_assert", 0);
    if before != "" {
      HoldsAt(text, 13, before, 0);
      assert before[0] in before;
    }
    PlainIsCode(text, 0);
    assert IsKeywordAt(text, 0, "static_assert");
  }

  lemma FoldOfOne(text: string)
    requires text != "" && IsKeywordAt(text, 0, "static_assert") && NextKeyword(text, 0, "static_assert") == 0
    ensures FoldAssertions(text, 0).Folded? ==> AssertionAt(text, 0).GoodAssertion?
    ensures AssertionAt(text, 0) == GoodAssertion(|text|) ==> FoldAssertions(text, 0) == Folded(PreserveLayout(text))
  {
    hide AssertionAt, IsKeywordAt, LiteralEnd, PreserveLayout;
    if AssertionAt(text, 0) == GoodAssertion(|text|) {
      assert FoldAssertions(text, |text|) == Folded("") by { assert text[|text|..] == ""; }
      assert text[0..0] == "" && text[0..|text|] == text;
      assert "" + PreserveLayout(text) + "" == PreserveLayout(text);
    }
  }

  /** The assertion at `pos` has become blank space in the text that is left, and the rest is folded behind it. */
  ghost predicate IsBlanked(text: string, from: nat, pos: nat, r: string)
    requires from <= pos <= |text| && IsKeywordAt(text, pos, "static_assert") && |r| == |text| - from
  {
    AssertionAt(text, pos).GoodAssertion? &&
    var end := AssertionAt(text, pos).end;
    && FoldAssertions(text, end) == Folded(r[end - from..])
    && forall k :: pos <= k < end ==> r[k - from] == if text[k] in {'\n', '\r'} then text[k] else ' '
  }

  lemma BlankedHere(text: string, from: nat, pos: nat, r: string, front: string, rest: string)
    requires from <= pos <= |text| && IsKeywordAt(text, pos, "static_assert") && |front| == pos - from
    requires AssertionAt(text, pos).GoodAssertion? && |rest| == |text| - AssertionAt(text, pos).end
    requires r == front + PreserveLayout(text[pos..AssertionAt(text, pos).end]) + rest
    requires FoldAssertions(text, AssertionAt(text, pos).end) == Folded(rest)
    ensures IsBlanked(text, from, pos, r)
  {
    hide AssertionAt, FoldAssertions, IsKeywordAt;
    var end := AssertionAt(text, pos).end;
    var blanks := PreserveLayout(text[pos..end]);
    assert r[end - from..] == rest;
    forall k | pos <= k < end ensures r[k - from] == if text[k] in {'\n', '\r'} then text[k] else ' ' {
      assert r[k - from] == blanks[k - pos] && text[pos..end][k - pos] == text[k];
    }
  }

  /** Wherever assertions stand, a fold that succeeds leaves blank space of them, with all line ends at their places,
    and the text in front of the next one as it was. */
  lemma AssertionsAreBlanked(text: string, from: nat)
    requires from <= |text| && FoldAssertions(text, from).Folded?
    ensures var r, pos := FoldAssertions(text, from).text, NextKeyword(text, from, "static_assert");
            && |r| == |text| - from && r[..pos - from] == text[from..pos]
            && (pos < |text| ==> IsBlanked(text, from, pos, r))
    decreases |text| - from
  {
    hide AssertionAt, NextKeyword, PreserveLayout, IsBlanked, IsKeywordAt;
    var r, pos := FoldAssertions(text, from).text, NextKeyword(text, from, "static_assert");
    if pos < |text| {
      var end := AssertionAt(text, pos).end;
      AssertionsAreBlanked(text, end);
      var front, blanks, rest := text[from..pos], PreserveLayout(text[pos..end]), FoldAssertions(text, end).text;
      assert r == front + blanks + rest;
      BlankedHere(text, from, pos, r, front, rest);
    } else {
      assert r == text[from..];
    }
  }
}
