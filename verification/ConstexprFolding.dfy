/** Folding of compile-time conditionals and assertions in source text, keeping the number of lines. */
module ConstexprFolding {
  import opened Basics
  import opened ConstexprValues
  import opened ConstexprParser
  import opened TextScanning

  datatype Folded = Folded(text: string) | Failed(message: string)

  // ----- lines -----

  function Newlines(s: string): nat {
    if s == "" then 0 else Newlines(s[..|s| - 1]) + if s[|s| - 1] == '\n' then 1 else 0
  }

  lemma {:induction false} NewlinesOfBoth(a: string, b: string)
    ensures Newlines(a + b) == Newlines(a) + Newlines(b)
    decreases |b|
  {
    if b == "" {
      assert a + b == a;
    } else {
      NewlinesOfBoth(a, b[..|b| - 1]);
      assert (a + b)[..|a + b| - 1] == a + b[..|b| - 1];
    }
  }

  function Repeat(n: nat): (s: string)
    ensures |s| == n
  {
    seq(n, _ => '\n')
  }

  lemma {:induction false} NewlinesOfRepeat(n: nat)
    ensures Newlines(Repeat(n)) == n
    decreases n
  {
    if n > 0 {
      NewlinesOfRepeat(n - 1);
      assert Repeat(n)[..n - 1] == Repeat(n - 1);
    }
  }

  function PreserveLayout(s: string): (r: string)
    ensures |r| == |s|
  {
    seq(|s|, i requires 0 <= i < |s| => if s[i] == '\n' || s[i] == '\r' then s[i] else ' ')
  }

  lemma {:induction false} LayoutKeepsNewlines(s: string)
    ensures Newlines(PreserveLayout(s)) == Newlines(s)
    decreases |s|
  {
    if s != "" {
      LayoutKeepsNewlines(s[..|s| - 1]);
      assert PreserveLayout(s)[..|s| - 1] == PreserveLayout(s[..|s| - 1]);
    }
  }

  lemma ThreeParts(text: string, from: nat, pos: nat, end: nat, a: string, b: string, c: string)
    requires from <= pos <= end <= |text|
    requires Newlines(a) == Newlines(text[from..pos]) && Newlines(b) == Newlines(text[pos..end])
             && Newlines(c) == Newlines(text[end..])
    ensures Newlines(a + b + c) == Newlines(text[from..])
  {
    assert text[from..] == text[from..pos] + text[pos..end] + text[end..];
    NewlinesOfBoth(a + b, c);
    NewlinesOfBoth(a, b);
    NewlinesOfBoth(text[from..pos] + text[pos..end], text[end..]);
    NewlinesOfBoth(text[from..pos], text[pos..end]);
  }

  // ----- finding keywords -----

  /** The next place in the code where the keyword stands, or the end of the text. */
  function NextKeyword(text: string, pos: nat, word: string): (at: nat)
    requires pos <= |text|
    ensures pos <= at <= |text|
    ensures at < |text| ==> IsKeywordAt(text, at, word)
    decreases |text| - pos
  {
    if pos == |text| then pos
    else
      var skip := LiteralEnd(text, pos);
      if skip.Some? then NextKeyword(text, skip.value, word)
      else if IsKeywordAt(text, pos, word) then pos
      else NextKeyword(text, pos + 1, word)
  }

  predicate IsConditionalAt(text: string, pos: nat)
    requires pos <= |text|
  {
    IsKeywordAt(text, pos, "if") && IsKeywordAt(text, TriviaEnd(text, pos + 2), "constexpr")
  }

  /** The next compile-time conditional in the code. */
  function NextConditional(text: string, pos: nat): (at: nat)
    requires pos <= |text|
    ensures pos <= at <= |text|
    ensures at < |text| ==> IsConditionalAt(text, at)
    decreases |text| - pos
  {
    if pos == |text| then pos
    else
      var skip := LiteralEnd(text, pos);
      if skip.Some? then NextConditional(text, skip.value)
      else if IsConditionalAt(text, pos) then pos
      else NextConditional(text, pos + 1)
  }

  // ----- assertions -----

  function TrimLeft(s: string): string {
    if s != "" && IsSpace(s[0]) then TrimLeft(s[1..]) else s
  }

  function TrimRight(s: string): string {
    if s != "" && IsSpace(s[|s| - 1]) then TrimRight(s[..|s| - 1]) else s
  }

  function Trim(s: string): string {
    TrimRight(TrimLeft(s))
  }

  predicate IsQuoted(s: string) {
    |s| >= 2 && s[0] == '"' && s[|s| - 1] == '"'
  }

  datatype Depths = Depths(paren: int, bracket: int, brace: int)

  function Deeper(d: Depths, c: char): Depths {
    match c
    case '(' => d.(paren := d.paren + 1)
    case ')' => d.(paren := d.paren - 1)
    case '[' => d.(bracket := d.bracket + 1)
    case ']' => d.(bracket := d.bracket - 1)
    case '{' => d.(brace := d.brace + 1)
    case '}' => d.(brace := d.brace - 1)
    case _ => d
  }

  /** The commas outside all brackets, comments and literals. */
  function Commas(s: string, pos: nat, d: Depths): (commas: seq<nat>)
    requires pos <= |s|
    ensures forall k :: 0 <= k < |commas| ==> pos <= commas[k] < |s| && s[commas[k]] == ','
    decreases |s| - pos
  {
    if pos == |s| then []
    else
      var skip := LiteralEnd(s, pos);
      if skip.Some? then Commas(s, skip.value, d)
      else if s[pos] == ',' && d == Depths(0, 0, 0) then [pos] + Commas(s, pos + 1, d)
      else Commas(s, pos + 1, Deeper(d, s[pos]))
  }

  /** The condition and the message of an assertion: the last comma after which a string stands, or
    before which a condition can be evaluated, separates them. */
  function SplitArguments(s: string, commas: seq<nat>): (string, string)
    requires forall k :: 0 <= k < |commas| ==> commas[k] < |s|
    decreases |commas|
  {
    if commas == [] then (Trim(s), "")
    else
      var comma := commas[|commas| - 1];
      var condition, message := Trim(s[..comma]), Trim(s[comma + 1..]);
      if IsQuoted(message) || Evaluation(condition).1.None? then (condition, message)
      else SplitArguments(s, commas[..|commas| - 1])
  }

  /** The verdict on an assertion's arguments: an error message, or none if it holds. */
  function CheckArguments(s: string): Option<string> {
    var parts := SplitArguments(s, Commas(s, 0, Depths(0, 0, 0)));
    if parts.0 == "" then Some("Choreo 'static_assert' requires a condition") else
    var value := Evaluation(parts.0);
    if value.1.Some? then Some("invalid 'static_assert' condition") else
    if parts.1 != "" && !IsQuoted(parts.1) then Some("Choreo 'static_assert' message must be a string literal") else
    if !value.0 then
      Some("static assertion failed" + if |parts.1| > 2 then ": " + parts.1[1..|parts.1| - 1] else "")
    else None
  }

  datatype Assertion = BadAssertion(message: string) | GoodAssertion(end: nat)

  function AssertionAt(text: string, pos: nat): (a: Assertion)
    requires pos <= |text| && IsKeywordAt(text, pos, "static_assert")
    ensures a.GoodAssertion? ==> pos < a.end <= |text|
  {
    var open := TriviaEnd(text, pos + 13);
    if open >= |text| || text[open] != '(' then BadAssertion("expected '(' after 'static_assert'") else
    var close := Matching(text, open, '(', ')');
    if close.None? then BadAssertion("unterminated 'static_assert'") else
    var semicolon := TriviaEnd(text, close.value + 1);
    if semicolon >= |text| || text[semicolon] != ';' then BadAssertion("expected ';' after 'static_assert'") else
    var verdict := CheckArguments(text[open + 1..close.value]);
    if verdict.Some? then BadAssertion(verdict.value) else GoodAssertion(semicolon + 1)
  }

  function Prepend(front: string, rest: Folded): Folded {
    match rest
    case Folded(t) => Folded(front + t)
    case Failed(_) => rest
  }

  /** The text from a position on with its assertions checked and blanked out. */
  function FoldAssertions(text: string, from: nat): Folded
    requires from <= |text|
    decreases |text| - from
  {
    var pos := NextKeyword(text, from, "static_assert");
    if pos == |text| then Folded(text[from..])
    else
      match AssertionAt(text, pos)
      case BadAssertion(message) => Failed(message)
      case GoodAssertion(end) => Prepend(text[from..pos] + PreserveLayout(text[pos..end]), FoldAssertions(text, end))
  }

  lemma {:induction false} AssertionsKeepNewlines(text: string, from: nat)
    requires from <= |text|
    ensures var r := FoldAssertions(text, from); r.Folded? ==> Newlines(r.text) == Newlines(text[from..])
    decreases |text| - from
  {
    hide NextKeyword, AssertionAt, PreserveLayout, Newlines;
    var pos := NextKeyword(text, from, "static_assert");
    if pos < |text| && AssertionAt(text, pos).GoodAssertion? {
      var end := AssertionAt(text, pos).end;
      AssertionsKeepNewlines(text, end);
      var rest := FoldAssertions(text, end);
      if rest.Folded? {
        LayoutKeepsNewlines(text[pos..end]);
        ThreeParts(text, from, pos, end, text[from..pos], PreserveLayout(text[pos..end]), rest.text);
      }
    }
  }

  // ----- conditionals -----

  /** One arm `if constexpr (condition) {body}` of a conditional, by the places of its tokens. */
  datatype Arm = Arm(start: nat, open: nat, close: nat, thenOpen: nat, thenClose: nat)

  /** The arm that begins here. */
  function ArmAt(text: string, pos: nat): (a: Option<Arm>)
    requires pos <= |text|
    ensures a.Some? ==> pos < a.value.open < a.value.close < a.value.thenOpen < a.value.thenClose < |text|
  {
    if !IsKeywordAt(text, pos, "if") then None else
    var word := TriviaEnd(text, pos + 2);
    if !IsKeywordAt(text, word, "constexpr") then None else
    var open := TriviaEnd(text, word + 9);
    var close := Matching(text, open, '(', ')');
    if close.None? then None else
    var thenOpen := TriviaEnd(text, close.value + 1);
    var thenClose := Matching(text, thenOpen, '{', '}');
    if thenClose.None? then None else Some(Arm(pos, open, close.value, thenOpen, thenClose.value))
  }

  /** Where the text behind an `else` begins, if an `else` comes next. */
  function AfterElse(text: string, pos: nat): (body: Option<nat>)
    requires pos <= |text|
    ensures body.Some? ==> pos < body.value <= |text|
  {
    var other := TriviaEnd(text, pos);
    if IsKeywordAt(text, other, "else") then Some(TriviaEnd(text, other + 4)) else None
  }

  /** Where a conditional with all its branches ends. */
  function ConditionalEnd(text: string, pos: nat): (end: Option<nat>)
    requires pos <= |text|
    ensures end.Some? ==> pos < end.value <= |text|
    decreases |text| - pos
  {
    var arm := ArmAt(text, pos);
    if arm.None? then None else
    var body := AfterElse(text, arm.value.thenClose + 1);
    if body.None? then Some(arm.value.thenClose + 1)
    else if body.value < |text| && text[body.value] == '{' then
      var elseClose := Matching(text, body.value, '{', '}');
      if elseClose.Some? then Some(elseClose.value + 1) else None
    else ConditionalEnd(text, body.value)
  }

  /** The part of a conditional that stays, `text[from..to]`, and where the whole ends. */
  datatype Choice = BadChoice(message: string) | Chosen(from: nat, to: nat, end: nat)

  /** What comes after the body of the then-branch. */
  function ElseChoice(text: string, selected: bool, from: nat, to: nat): (c: Choice)
    requires from <= to < |text|
    ensures c.Chosen? ==> from <= c.from <= c.to <= c.end <= |text| && to < c.end
    ensures c.Chosen? && selected ==> c.from == from && c.to == to
    ensures c.Chosen? && !selected ==> c.from > to
  {
    var body := AfterElse(text, to + 1);
    if body.None? then (if selected then Chosen(from, to, to + 1) else Chosen(to + 1, to + 1, to + 1))
    else BodyChoice(text, selected, from, to, body.value)
  }

  /** What comes after an `else`. */
  function BodyChoice(text: string, selected: bool, from: nat, to: nat, body: nat): (c: Choice)
    requires from <= to < body <= |text|
    ensures c.Chosen? ==> from <= c.from <= c.to <= c.end <= |text| && to < c.end
    ensures c.Chosen? && selected ==> c.from == from && c.to == to
    ensures c.Chosen? && !selected ==> c.from > to
  {
    if IsKeywordAt(text, body, "if") then
      var nested := ConditionalEnd(text, body);
      if nested.None? then BadChoice("malformed 'else if constexpr' branch")
      else if selected then Chosen(from, to, nested.value) else Chosen(body, nested.value, nested.value)
    else if body >= |text| || text[body] != '{' then BadChoice("Choreo 'if constexpr' requires a braced 'else'")
    else
      var close := Matching(text, body, '{', '}');
      if close.None? then BadChoice("unterminated 'if constexpr' else body")
      else if selected then Chosen(from, to, close.value + 1) else Chosen(body + 1, close.value, close.value + 1)
  }

  /** What comes after the condition. */
  function ThenChoice(text: string, selected: bool, pos: nat): (c: Choice)
    requires pos <= |text|
    ensures c.Chosen? ==> pos < c.from <= c.to <= c.end <= |text|
  {
    var thenOpen := TriviaEnd(text, pos);
    if thenOpen >= |text| || text[thenOpen] != '{' then BadChoice("Choreo 'if constexpr' requires a braced body") else
    var thenClose := Matching(text, thenOpen, '{', '}');
    if thenClose.None? then BadChoice("unterminated 'if constexpr' body") else
    ElseChoice(text, selected, thenOpen + 1, thenClose.value)
  }

  /** What comes after the keywords. */
  function ConditionChoice(text: string, open: nat): (c: Choice)
    requires open <= |text|
    ensures c.Chosen? ==> open < c.from <= c.to <= c.end <= |text|
  {
    if open >= |text| || text[open] != '(' then BadChoice("expected '(' after 'if constexpr'") else
    var close := Matching(text, open, '(', ')');
    if close.None? then BadChoice("unterminated 'if constexpr' condition") else
    var condition := Evaluation(text[open + 1..close.value]);
    if condition.1.Some? then BadChoice("invalid 'if constexpr' condition")
    else ThenChoice(text, condition.0, close.value + 1)
  }

  function ChoiceAt(text: string, pos: nat): (c: Choice)
    requires pos < |text| && IsConditionalAt(text, pos)
    ensures c.Chosen? ==> pos < c.from <= c.to <= c.end <= |text|
  {
    ConditionChoice(text, TriviaEnd(text, TriviaEnd(text, pos + 2) + 9))
  }

  // ----- conditionals as chains of arms -----

  /** What ends a chain: nothing, or the braces of a last `else`. */
  datatype Tail = NoElse | Else(open: nat, close: nat)

  predicate IsArm(text: string, a: Arm) {
    && a.start < |text| && IsConditionalAt(text, a.start)
    && a.open == TriviaEnd(text, TriviaEnd(text, a.start + 2) + 9)
    && Matching(text, a.open, '(', ')') == Some(a.close)
    && a.thenOpen == TriviaEnd(text, a.close + 1)
    && Matching(text, a.thenOpen, '{', '}') == Some(a.thenClose)
  }

  predicate Continues(text: string, a: Arm, b: Arm) {
    a.thenClose < |text| && AfterElse(text, a.thenClose + 1) == Some(b.start)
  }

  predicate EndsWith(text: string, a: Arm, tail: Tail, end: nat) {
    && a.thenClose < |text|
    && match tail {
         case NoElse => AfterElse(text, a.thenClose + 1).None? && end == a.thenClose + 1
         case Else(open, close) =>
           && AfterElse(text, a.thenClose + 1) == Some(open)
           && Matching(text, open, '{', '}') == Some(close) && end == close + 1
       }
  }

  /** A whole conditional: arms joined by `else`, and the tail behind the last. */
  ghost predicate IsChain(text: string, pos: nat, arms: seq<Arm>, tail: Tail, end: nat) {
    && arms != [] && arms[0].start == pos
    && (forall k :: 0 <= k < |arms| ==> IsArm(text, arms[k]))
    && (forall k :: 0 < k < |arms| ==> Continues(text, arms[k - 1], arms[k]))
    && EndsWith(text, arms[|arms| - 1], tail, end)
  }

  lemma ChainGoesOn(text: string, pos: nat, arms: seq<Arm>, tail: Tail, end: nat)
    requires IsChain(text, pos, arms, tail, end) && |arms| > 1
    ensures IsChain(text, arms[1].start, arms[1..], tail, end)
    ensures pos < arms[0].thenClose < arms[1].start < |text|
    ensures AfterElse(text, arms[0].thenClose + 1) == Some(arms[1].start)
  {
    hide IsArm, EndsWith, AfterElse;
    assert IsArm(text, arms[0]) && IsArm(text, arms[1]);
    ArmGoesForward(text, arms[0]);
    ArmGoesForward(text, arms[1]);
    assert Continues(text, arms[0], arms[1]);
    var rest := arms[1..];
    forall k | 0 < k < |rest| ensures Continues(text, rest[k - 1], rest[k]) {
      assert Continues(text, arms[k], arms[k + 1]);
    }
    forall k | 0 <= k < |rest| ensures IsArm(text, rest[k]) {
      assert IsArm(text, arms[k + 1]);
    }
  }

  lemma ArmGoesForward(text: string, a: Arm)
    requires IsArm(text, a)
    ensures a.start < a.thenClose < |text|
  {
    hide Matching, TriviaEnd, IsConditionalAt;
  }

  /** Where what stands behind an `else` ends. */
  function EndOfElse(text: string, body: nat): Option<nat>
    requires body <= |text|
  {
    if body < |text| && text[body] == '{' then
      var close := Matching(text, body, '{', '}');
      if close.Some? then Some(close.value + 1) else None
    else ConditionalEnd(text, body)
  }

  lemma EndOfArm(text: string, a: Arm)
    requires IsArm(text, a)
    ensures a.thenClose < |text|
    ensures ConditionalEnd(text, a.start) == var body := AfterElse(text, a.thenClose + 1);
              if body.None? then Some(a.thenClose + 1) else EndOfElse(text, body.value)
  {
    hide Matching, TriviaEnd, IsKeywordAt, AfterElse;
    assert ArmAt(text, a.start) == Some(a);
  }

  /** A conditional ends where its chain of arms ends. */
  lemma {:induction false} ChainEnds(text: string, pos: nat, arms: seq<Arm>, tail: Tail, end: nat)
    requires IsChain(text, pos, arms, tail, end)
    ensures pos < |text| && ConditionalEnd(text, pos) == Some(end)
    decreases |arms|
  {
    hide IsArm, AfterElse, ConditionalEnd, MatchFrom;
    assert IsArm(text, arms[0]);
    EndOfArm(text, arms[0]);
    if |arms| > 1 {
      ChainGoesOn(text, pos, arms, tail, end);
      ChainEnds(text, arms[1].start, arms[1..], tail, end);
      assert IsArm(text, arms[1]);
      ArmIsNoBrace(text, arms[1]);
    }
  }

  lemma ArmIsNoBrace(text: string, a: Arm)
    requires IsArm(text, a)
    ensures text[a.start] != '{'
  {
    BraceIsNoKeyword(text, a.start);
  }

  lemma BraceIsNoKeyword(text: string, at: nat)
    requires at < |text| && IsKeywordAt(text, at, "if")
    ensures text[at] != '{'
  {
  }

  lemma {:induction false} EndHasChain(text: string, pos: nat) returns (arms: seq<Arm>, tail: Tail)
    requires pos <= |text| && ConditionalEnd(text, pos).Some?
    ensures IsChain(text, pos, arms, tail, ConditionalEnd(text, pos).value)
    decreases |text| - pos
  {
    hide Matching, TriviaEnd, IsKeywordAt, AfterElse;
    var a := ArmAt(text, pos).value;
    assert IsArm(text, a);
    var body := AfterElse(text, a.thenClose + 1);
    if body.None? {
      arms, tail := [a], NoElse;
    } else if body.value < |text| && text[body.value] == '{' {
      arms, tail := [a], Else(body.value, Matching(text, body.value, '{', '}').value);
    } else {
      var more, last := EndHasChain(text, body.value);
      PrependArm(text, a, body.value, more, last, ConditionalEnd(text, body.value).value);
      arms, tail := [a] + more, last;
    }
  }

  lemma PrependArm(text: string, a: Arm, next: nat, more: seq<Arm>, tail: Tail, end: nat)
    requires IsArm(text, a) && IsChain(text, next, more, tail, end)
    requires a.thenClose < |text| && AfterElse(text, a.thenClose + 1) == Some(next)
    ensures IsChain(text, a.start, [a] + more, tail, end)
  {
    hide IsArm, EndsWith, AfterElse;
    var arms := [a] + more;
    forall k | 0 <= k < |arms| ensures IsArm(text, arms[k]) {
      assert k > 0 ==> IsArm(text, more[k - 1]);
    }
    forall k | 0 < k < |arms| ensures Continues(text, arms[k - 1], arms[k]) {
      assert k > 1 ==> Continues(text, more[k - 2], more[k - 1]);
    }
  }

  /** The end is found exactly for the conditionals that are chains of well-bracketed arms. */
  lemma EndIffChain(text: string, pos: nat, end: nat)
    requires pos <= |text|
    ensures ConditionalEnd(text, pos) == Some(end) <==> exists arms, tail :: IsChain(text, pos, arms, tail, end)
  {
    hide ConditionalEnd, IsChain;
    if ConditionalEnd(text, pos) == Some(end) {
      var arms, tail := EndHasChain(text, pos);
      assert IsChain(text, pos, arms, tail, end);
    }
    forall arms, tail | IsChain(text, pos, arms, tail, end) ensures ConditionalEnd(text, pos) == Some(end) {
      ChainEnds(text, pos, arms, tail, end);
    }
  }

  function Condition(text: string, a: Arm): string
    requires a.open < a.close <= |text|
  {
    text[a.open + 1..a.close]
  }

  /** What comes behind the first arm of a chain, and what is chosen of it. */
  lemma ElseOfChain(text: string, pos: nat, arms: seq<Arm>, tail: Tail, end: nat, holds: bool)
    requires IsChain(text, pos, arms, tail, end)
    ensures arms[0].thenOpen < arms[0].thenClose < end && arms[0].thenClose < |text|
    ensures (|arms| > 1 ==> arms[1].start < end) && (tail.Else? ==> tail.close < end)
    ensures ElseChoice(text, holds, arms[0].thenOpen + 1, arms[0].thenClose) ==
              if holds then Chosen(arms[0].thenOpen + 1, arms[0].thenClose, end)
              else if |arms| > 1 then Chosen(arms[1].start, end, end)
              else if tail.Else? then Chosen(tail.open + 1, tail.close, end)
              else Chosen(end, end, end)
  {
    hide MatchFrom, TriviaEnd, IsKeywordAt, ConditionalEnd;
    assert IsArm(text, arms[0]);
    if |arms| > 1 {
      ChainGoesOn(text, pos, arms, tail, end);
      ChainEnds(text, arms[1].start, arms[1..], tail, end);
      assert IsArm(text, arms[1]);
    } else if tail.Else? {
      if IsKeywordAt(text, tail.open, "if") { BraceIsNoKeyword(text, tail.open); }
    }
  }

  lemma MatchBegins(text: string, at: nat, open: char, close: char)
    requires open != close && Matching(text, at, open, close).Some?
    ensures at < |text| && text[at] == open
  {
  }

  /** What a chain leaves when its first condition is known: the body of the first arm, or else the whole
    rest of the chain as one conditional, or the body of the tail, or nothing. */
  lemma ChoiceOfChain(text: string, pos: nat, arms: seq<Arm>, tail: Tail, end: nat)
    requires IsChain(text, pos, arms, tail, end)
    ensures pos < |text| && IsConditionalAt(text, pos) && arms[0].open < arms[0].close <= |text|
            && arms[0].thenClose < end
    ensures (|arms| > 1 ==> arms[1].start < end) && (tail.Else? ==> tail.close < end)
    ensures ChoiceAt(text, pos) ==
              var (holds, error) := Evaluation(Condition(text, arms[0]));
              if error.Some? then BadChoice("invalid 'if constexpr' condition")
              else if holds then Chosen(arms[0].thenOpen + 1, arms[0].thenClose, end)
              else if |arms| > 1 then Chosen(arms[1].start, end, end)
              else if tail.Else? then Chosen(tail.open + 1, tail.close, end)
              else Chosen(end, end, end)
  {
    hide Matching, TriviaEnd, IsKeywordAt, Evaluation, ThenChoice, ElseChoice, EndsWith, Continues;
    var a := arms[0];
    assert IsArm(text, a);
    MatchBegins(text, a.open, '(', ')');
    ElseOfChain(text, pos, arms, tail, end, Evaluation(Condition(text, a)).0);
    ThenOfArm(text, a, Evaluation(Condition(text, a)).0);
  }

  lemma ThenOfArm(text: string, a: Arm, holds: bool)
    requires IsArm(text, a)
    ensures a.close < |text| && a.thenOpen < a.thenClose < |text|
    ensures ThenChoice(text, holds, a.close + 1) == ElseChoice(text, holds, a.thenOpen + 1, a.thenClose)
  {
    hide Matching, TriviaEnd, IsConditionalAt, ElseChoice;
    MatchBegins(text, a.thenOpen, '{', '}');
  }

  /** Both scanners find the same end. */
  lemma {:induction false} ScannersAgree(text: string, pos: nat)
    requires pos < |text| && IsConditionalAt(text, pos) && ChoiceAt(text, pos).Chosen?
    ensures ConditionalEnd(text, pos) == Some(ChoiceAt(text, pos).end)
  {
    hide Matching, TriviaEnd, IsKeywordAt, Evaluation, ElseChoice;
    var open := TriviaEnd(text, TriviaEnd(text, pos + 2) + 9);
    var close := Matching(text, open, '(', ')').value;
    var thenOpen := TriviaEnd(text, close + 1);
    var thenClose := Matching(text, thenOpen, '{', '}').value;
    ElseAgrees(text, Evaluation(text[open + 1..close]).0, thenOpen + 1, thenClose);
  }

  lemma ElseAgrees(text: string, selected: bool, from: nat, to: nat)
    requires from <= to < |text| && ElseChoice(text, selected, from, to).Chosen?
    ensures var body := AfterElse(text, to + 1);
            && (body.None? ==> ElseChoice(text, selected, from, to).end == to + 1)
            && (body.Some? ==> Some(ElseChoice(text, selected, from, to).end) == EndOfElse(text, body.value))
  {
    hide Matching, TriviaEnd, IsKeywordAt, ConditionalEnd;
    var body := AfterElse(text, to + 1);
    if body.Some? && IsKeywordAt(text, body.value, "if") { BraceIsNoKeyword(text, body.value); }
  }

  ghost predicate IsDecidedChain(text: string, pos: nat, arms: seq<Arm>, tail: Tail, end: nat) {
    && IsChain(text, pos, arms, tail, end)
    && arms[0].open < arms[0].close <= |text| && Evaluation(Condition(text, arms[0])).1.None?
  }

  /** A branch is chosen exactly when the whole chain is well bracketed and its first condition has a
    value. */
  lemma ChosenIffChain(text: string, pos: nat)
    requires pos < |text| && IsConditionalAt(text, pos)
    ensures ChoiceAt(text, pos).Chosen? <==> exists arms, tail, end :: IsDecidedChain(text, pos, arms, tail, end)
  {
    hide ChoiceAt, IsArm, Continues, EndsWith, IsConditionalAt, Evaluation;
    if ChoiceAt(text, pos).Chosen? {
      ScannersAgree(text, pos);
      var arms, tail := EndHasChain(text, pos);
      ChoiceOfChain(text, pos, arms, tail, ChoiceAt(text, pos).end);
      assert IsDecidedChain(text, pos, arms, tail, ChoiceAt(text, pos).end);
    }
    forall arms, tail, end | IsDecidedChain(text, pos, arms, tail, end) ensures ChoiceAt(text, pos).Chosen? {
      ChoiceOfChain(text, pos, arms, tail, end);
    }
  }

  /** Where choosing over and over ends up: a chosen rest of a chain is chosen from again. */
  function Resolved(text: string, pos: nat): (c: Choice)
    requires pos < |text| && IsConditionalAt(text, pos)
    decreases |text| - pos
  {
    var c := ChoiceAt(text, pos);
    if c.Chosen? && c.from < c.to == c.end && IsConditionalAt(text, c.from) then Resolved(text, c.from) else c
  }

  /** The first arm whose condition is true stays, or the tail if there is none, and the whole chain goes. */
  lemma {:induction false} FirstTrueArmStays(text: string, pos: nat, arms: seq<Arm>, tail: Tail, end: nat, k: nat)
    requires IsChain(text, pos, arms, tail, end) && k <= |arms|
    requires forall j :: 0 <= j < |arms| ==> arms[j].open < arms[j].close <= |text|
    requires forall j :: 0 <= j < k ==> Evaluation(Condition(text, arms[j])) == (false, None)
    requires k < |arms| ==> Evaluation(Condition(text, arms[k])) == (true, None)
    ensures pos < |text| && IsConditionalAt(text, pos)
    ensures Resolved(text, pos) ==
              if k < |arms| then Chosen(arms[k].thenOpen + 1, arms[k].thenClose, end)
              else if tail.Else? then Chosen(tail.open + 1, tail.close, end)
              else Chosen(end, end, end)
    decreases |arms|
  {
    hide ChoiceAt, IsConditionalAt, IsArm, Continues, EndsWith, Evaluation;
    ChoiceOfChain(text, pos, arms, tail, end);
    if k > 0 && |arms| > 1 {
      ChainGoesOn(text, pos, arms, tail, end);
      FirstTrueArmStays(text, arms[1].start, arms[1..], tail, end, k - 1);
    }
  }

  /** The replacement of a conditional: a scope, and the lines it would lose. */
  function Replacement(original: string, chosen: string): string {
    var kept := "if (true) {" + chosen + "}";
    kept + Repeat(if Newlines(original) > Newlines(kept) then Newlines(original) - Newlines(kept) else 0)
  }

  /** The text from a position on with its conditionals replaced by their live branches. */
  function Fold(text: string, from: nat): Folded
    requires from <= |text|
    decreases |text|, |text| - from
  {
    var pos := NextConditional(text, from);
    if pos == |text| then FoldAssertions(text[from..], 0)
    else
      match ChoiceAt(text, pos)
      case BadChoice(message) => Failed(message)
      case Chosen(a, b, end) =>
        var prefix := FoldAssertions(text[from..pos], 0);
        if prefix.Failed? then prefix else
        var chosen := Fold(text[a..b], 0);
        if chosen.Failed? then chosen else
        Prepend(prefix.text + Replacement(text[pos..end], chosen.text), Fold(text, end))
  }

  lemma ReplacementKeepsNewlines(original: string, chosen: string)
    requires Newlines(chosen) <= Newlines(original)
    ensures Newlines(Replacement(original, chosen)) == Newlines(original)
  {
    hide Repeat;
    var kept := "if (true) {" + chosen + "}";
    var n := Newlines(original) - Newlines(chosen);
    NewlinesOfBoth("if (true) {" + chosen, "}");
    NewlinesOfBoth("if (true) {", chosen);
    FixedTextIsOneLine();
    NewlinesOfRepeat(n);
    NewlinesOfBoth(kept, Repeat(n));
  }

  lemma FixedTextIsOneLine()
    ensures Newlines("if (true) {") == 0 && Newlines("}") == 0
  {
    NoNewline("if (true) {");
    NoNewline("}");
  }

  lemma {:induction false} NoNewline(s: string)
    requires forall k :: 0 <= k < |s| ==> s[k] != '\n'
    ensures Newlines(s) == 0
    decreases |s|
  {
    if s != "" { NoNewline(s[..|s| - 1]); }
  }

  lemma SliceHasNoMore(text: string, from: nat, a: nat, b: nat, to: nat)
    requires from <= a <= b <= to <= |text|
    ensures Newlines(text[a..b]) <= Newlines(text[from..to])
  {
    assert text[from..to] == text[from..a] + text[a..b] + text[b..to];
    NewlinesOfBoth(text[from..a] + text[a..b], text[b..to]);
    NewlinesOfBoth(text[from..a], text[a..b]);
  }

  /** A fold that succeeds has exactly the lines of the original. */
  lemma {:induction false} FoldKeepsNewlines(text: string, from: nat)
    requires from <= |text|
    ensures var r := Fold(text, from); r.Folded? ==> Newlines(r.text) == Newlines(text[from..])
    decreases |text|, |text| - from
  {
    hide NextConditional, ChoiceAt, FoldAssertions, Replacement;
    var pos := NextConditional(text, from);
    if pos == |text| {
      AssertionsKeepNewlines(text[from..], 0);
    } else if ChoiceAt(text, pos).Chosen? {
      var c := ChoiceAt(text, pos);
      var prefix, chosen := FoldAssertions(text[from..pos], 0), Fold(text[c.from..c.to], 0);
      var rest := Fold(text, c.end);
      AssertionsKeepNewlines(text[from..pos], 0);
      FoldKeepsNewlines(text[c.from..c.to], 0);
      FoldKeepsNewlines(text, c.end);
      WholeSlices(text[from..pos]);
      WholeSlices(text[c.from..c.to]);
      if prefix.Folded? && chosen.Folded? && rest.Folded? {
        SliceHasNoMore(text, pos, c.from, c.to, c.end);
        ReplacementKeepsNewlines(text[pos..c.end], chosen.text);
        ThreeParts(text, from, pos, c.end, prefix.text, Replacement(text[pos..c.end], chosen.text), rest.text);
      }
    }
  }

  lemma WholeSlices(s: string)
    ensures s[0..] == s
  {
  }

  // ----- live text -----

  /** The pieces of text that stay when every conditional gives way to its chosen branch, in order;
    none if some live conditional is malformed. No assertion is looked at. */
  function Live(text: string, from: nat): Option<seq<string>>
    requires from <= |text|
    decreases |text|, |text| - from
  {
    var pos := NextConditional(text, from);
    if pos == |text| then Some([text[from..]])
    else
      match ChoiceAt(text, pos)
      case BadChoice(_) => None
      case Chosen(a, b, end) =>
        var chosen, rest := Live(text[a..b], 0), Live(text, end);
        if chosen.Some? && rest.Some? then Some([text[from..pos]] + chosen.value + rest.value) else None
  }

  ghost predicate AllHold(pieces: seq<string>) {
    forall k :: 0 <= k < |pieces| ==> FoldAssertions(pieces[k], 0).Folded?
  }

  lemma AllHoldOfBoth(a: seq<string>, b: seq<string>)
    ensures AllHold(a + b) <==> AllHold(a) && AllHold(b)
  {
    hide FoldAssertions;
    var both := a + b;
    if AllHold(both) {
      forall k | 0 <= k < |a| ensures FoldAssertions(a[k], 0).Folded? { assert both[k] == a[k]; }
      forall k | 0 <= k < |b| ensures FoldAssertions(b[k], 0).Folded? { assert both[|a| + k] == b[k]; }
    }
  }

  /** A fold succeeds exactly when the live conditionals are well formed and every assertion in live
    text holds: what stands in discarded branches never matters. */
  lemma {:induction false} FoldsIffLiveHolds(text: string, from: nat)
    requires from <= |text|
    ensures Fold(text, from).Folded? <==> Live(text, from).Some? && AllHold(Live(text, from).value)
    decreases |text|, |text| - from
  {
    hide NextConditional, ChoiceAt, FoldAssertions, AllHold;
    var pos := NextConditional(text, from);
    if pos == |text| {
      OnePiece(text[from..]);
    } else if ChoiceAt(text, pos).Chosen? {
      var c := ChoiceAt(text, pos);
      FoldsIffLiveHolds(text[c.from..c.to], 0);
      FoldsIffLiveHolds(text, c.end);
      OnePiece(text[from..pos]);
      var chosen, rest := Live(text[c.from..c.to], 0), Live(text, c.end);
      if chosen.Some? && rest.Some? {
        AllHoldOfBoth([text[from..pos]] + chosen.value, rest.value);
        AllHoldOfBoth([text[from..pos]], chosen.value);
      }
    }
  }

  lemma OnePiece(piece: string)
    ensures AllHold([piece]) <==> FoldAssertions(piece, 0).Folded?
  {
    hide FoldAssertions;
    assert AllHold([piece]) ==> FoldAssertions([piece][0], 0).Folded?;
  }

  // ----- what is discarded does not matter -----

  function MovedArm(n: nat, a: Arm): Arm {
    Arm(n + a.start, n + a.open, n + a.close, n + a.thenOpen, n + a.thenClose)
  }

  lemma ArmAtShifts(a: string, b: string, pos: nat)
    requires pos <= |b| && Separates(a)
    ensures ArmAt(a + b, |a| + pos) ==
              var arm := ArmAt(b, pos); if arm.Some? then Some(MovedArm(|a|, arm.value)) else None
  {
    hide Matching, TriviaEnd, IsKeywordAt, Separates;
    KeywordShifts(a, b, pos, "if");
    if IsKeywordAt(b, pos, "if") {
      TriviaEndShifts(a, b, pos + 2);
      var word := TriviaEnd(b, pos + 2);
      KeywordShifts(a, b, word, "constexpr");
      if IsKeywordAt(b, word, "constexpr") {
        TriviaEndShifts(a, b, word + 9);
        var open := TriviaEnd(b, word + 9);
        MatchingShifts(a, b, open, '(', ')');
        var close := Matching(b, open, '(', ')');
        if close.Some? {
          TriviaEndShifts(a, b, close.value + 1);
          MatchingShifts(a, b, TriviaEnd(b, close.value + 1), '{', '}');
        }
      }
    }
  }

  lemma {:induction false} ConditionalEndShifts(a: string, b: string, pos: nat)
    requires pos <= |b| && Separates(a)
    ensures ConditionalEnd(a + b, |a| + pos) == Moved(|a|, ConditionalEnd(b, pos))
    decreases |b| - pos
  {
    hide Matching, ArmAt, AfterElse, Separates, ConditionalEnd;
    ArmAtShifts(a, b, pos);
    EndUnfolds(a + b, |a| + pos);
    EndUnfolds(b, pos);
    var arm := ArmAt(b, pos);
    if arm.Some? {
      AfterElseShifts(a, b, arm.value.thenClose + 1);
      var body := AfterElse(b, arm.value.thenClose + 1);
      if body.Some? {
        MatchingShifts(a, b, body.value, '{', '}');
        ConditionalEndShifts(a, b, body.value);
      }
    }
  }

  lemma EndUnfolds(text: string, pos: nat)
    requires pos <= |text|
    ensures ConditionalEnd(text, pos) == var arm := ArmAt(text, pos);
              if arm.None? then None
              else
                var body := AfterElse(text, arm.value.thenClose + 1);
                if body.None? then Some(arm.value.thenClose + 1) else EndOfElse(text, body.value)
  {
    hide Matching, ArmAt, AfterElse;
  }

  lemma AfterElseShifts(a: string, b: string, pos: nat)
    requires pos <= |b| && Separates(a)
    ensures AfterElse(a + b, |a| + pos) == Moved(|a|, AfterElse(b, pos))
  {
    hide TriviaEnd, IsKeywordAt, Separates;
    TriviaEndShifts(a, b, pos);
    var other := TriviaEnd(b, pos);
    KeywordShifts(a, b, other, "else");
    if IsKeywordAt(b, other, "else") { TriviaEndShifts(a, b, other + 4); }
  }

  lemma IsConditionalAtShifts(a: string, b: string, pos: nat)
    requires pos <= |b| && Separates(a)
    ensures IsConditionalAt(a + b, |a| + pos) == IsConditionalAt(b, pos)
  {
    hide TriviaEnd, IsKeywordAt, Separates;
    KeywordShifts(a, b, pos, "if");
    if IsKeywordAt(b, pos, "if") {
      TriviaEndShifts(a, b, pos + 2);
      KeywordShifts(a, b, TriviaEnd(b, pos + 2), "constexpr");
    }
  }

  lemma {:induction false} NextConditionalShifts(a: string, b: string, pos: nat)
    requires pos <= |b| && Separates(a)
    ensures NextConditional(a + b, |a| + pos) == |a| + NextConditional(b, pos)
    decreases |b| - pos
  {
    hide LiteralEnd, IsConditionalAt, Separates;
    if pos < |b| {
      LiteralEndShifts(a, b, pos);
      IsConditionalAtShifts(a, b, pos);
      if LiteralEnd(b, pos).Some? {
        NextConditionalShifts(a, b, LiteralEnd(b, pos).value);
      } else if !IsConditionalAt(b, pos) {
        NextConditionalShifts(a, b, pos + 1);
      }
    }
  }

  function MovedChoice(n: nat, c: Choice): Choice {
    if c.Chosen? then Chosen(n + c.from, n + c.to, n + c.end) else c
  }

  lemma BodyChoiceShifts(a: string, b: string, selected: bool, from: nat, to: nat, body: nat)
    requires from <= to < body <= |b| && Separates(a)
    ensures BodyChoice(a + b, selected, |a| + from, |a| + to, |a| + body)
            == MovedChoice(|a|, BodyChoice(b, selected, from, to, body))
  {
    hide Matching, IsKeywordAt, ConditionalEnd, Separates;
    KeywordShifts(a, b, body, "if");
    ConditionalEndShifts(a, b, body);
    MatchingShifts(a, b, body, '{', '}');
  }

  lemma ElseChoiceShifts(a: string, b: string, selected: bool, from: nat, to: nat)
    requires from <= to < |b| && Separates(a)
    ensures ElseChoice(a + b, selected, |a| + from, |a| + to) == MovedChoice(|a|, ElseChoice(b, selected, from, to))
  {
    hide AfterElse, BodyChoice, Separates;
    AfterElseShifts(a, b, to + 1);
    var body := AfterElse(b, to + 1);
    if body.Some? { BodyChoiceShifts(a, b, selected, from, to, body.value); }
  }

  lemma ThenChoiceShifts(a: string, b: string, selected: bool, pos: nat)
    requires pos <= |b| && Separates(a)
    ensures ThenChoice(a + b, selected, |a| + pos) == MovedChoice(|a|, ThenChoice(b, selected, pos))
  {
    hide Matching, TriviaEnd, ElseChoice, Separates;
    TriviaEndShifts(a, b, pos);
    var thenOpen := TriviaEnd(b, pos);
    MatchingShifts(a, b, thenOpen, '{', '}');
    var thenClose := Matching(b, thenOpen, '{', '}');
    if thenClose.Some? { ElseChoiceShifts(a, b, selected, thenOpen + 1, thenClose.value); }
  }

  lemma ConditionChoiceShifts(a: string, b: string, open: nat)
    requires open <= |b| && Separates(a)
    ensures ConditionChoice(a + b, |a| + open) == MovedChoice(|a|, ConditionChoice(b, open))
  {
    hide Matching, ThenChoice, Evaluation, Separates;
    MatchingShifts(a, b, open, '(', ')');
    var close := Matching(b, open, '(', ')');
    if close.Some? {
      SliceShifts(a, b, open + 1, close.value);
      ThenChoiceShifts(a, b, Evaluation(b[open + 1..close.value]).0, close.value + 1);
    }
  }

  /** The choice here, if a conditional stands here. */
  function ChoiceIfAny(text: string, pos: nat): Option<Choice>
    requires pos <= |text|
  {
    if pos < |text| && IsConditionalAt(text, pos) then Some(ChoiceAt(text, pos)) else None
  }

  lemma ChoiceShifts(a: string, b: string, pos: nat)
    requires pos < |b| && Separates(a)
    ensures ChoiceIfAny(a + b, |a| + pos) ==
              var c := ChoiceIfAny(b, pos); if c.Some? then Some(MovedChoice(|a|, c.value)) else None
  {
    hide TriviaEnd, IsKeywordAt, ConditionChoice, Separates;
    IsConditionalAtShifts(a, b, pos);
    if IsConditionalAt(b, pos) {
      TriviaEndShifts(a, b, pos + 2);
      TriviaEndShifts(a, b, TriviaEnd(b, pos + 2) + 9);
      ConditionChoiceShifts(a, b, TriviaEnd(b, TriviaEnd(b, pos + 2) + 9));
    }
  }

  /** A fold put together from what stands before a conditional, what the conditional is and what stays of
    it, and the fold of what stands behind it. */
  function Joined(front: string, conditional: string, chosen: string, rest: Folded): Folded {
    var prefix, inner := FoldAssertions(front, 0), Fold(chosen, 0);
    if prefix.Failed? then prefix else if inner.Failed? then inner
    else Prepend(prefix.text + Replacement(conditional, inner.text), rest)
  }

  lemma FoldIs(text: string, from: nat, pos: nat, c: Choice, front: string, conditional: string, chosen: string)
    requires from <= pos < |text| && pos == NextConditional(text, from) && IsConditionalAt(text, pos)
    requires c == ChoiceAt(text, pos) && c.Chosen?
    requires front == text[from..pos] && conditional == text[pos..c.end] && chosen == text[c.from..c.to]
    ensures Fold(text, from) == Joined(front, conditional, chosen, Fold(text, c.end))
  {
    hide NextConditional, ChoiceAt, FoldAssertions, Replacement, IsConditionalAt;
  }

  lemma FoldEnds(text: string, from: nat, rest: string)
    requires from <= |text| && NextConditional(text, from) == |text| && rest == text[from..]
    ensures Fold(text, from) == FoldAssertions(rest, 0)
  {
    hide NextConditional, FoldAssertions;
  }

  lemma FoldFails(text: string, from: nat, pos: nat, c: Choice)
    requires from <= pos < |text| && pos == NextConditional(text, from) && IsConditionalAt(text, pos)
    requires c == ChoiceAt(text, pos) && c.BadChoice?
    ensures Fold(text, from) == Failed(c.message)
  {
    hide NextConditional, ChoiceAt, FoldAssertions, Replacement, IsConditionalAt;
  }

  /** Text is folded as if nothing stood in front of it. */
  lemma {:induction false} FoldShifts(a: string, b: string, from: nat)
    requires from <= |b| && Separates(a)
    ensures Fold(a + b, |a| + from) == Fold(b, from)
    decreases |b| - from
  {
    hide NextConditional, ChoiceAt, Fold, Joined, Separates, IsConditionalAt;
    NextConditionalShifts(a, b, from);
    var pos := NextConditional(b, from);
    if pos == |b| {
      assert (a + b)[|a| + from..] == b[from..];
      FoldEnds(a + b, |a| + from, b[from..]);
      FoldEnds(b, from, b[from..]);
    } else {
      IsConditionalAtShifts(a, b, pos);
      ChoiceShifts(a, b, pos);
      var c := ChoiceAt(b, pos);
      if c.Chosen? {
        SliceShifts(a, b, from, pos);
        SliceShifts(a, b, c.from, c.to);
        SliceShifts(a, b, pos, c.end);
        FoldIs(a + b, |a| + from, |a| + pos, MovedChoice(|a|, c), b[from..pos], b[pos..c.end], b[c.from..c.to]);
        FoldIs(b, from, pos, c, b[from..pos], b[pos..c.end], b[c.from..c.to]);
        FoldShifts(a, b, c.end);
      } else {
        FoldFails(a + b, |a| + from, |a| + pos, c);
        FoldFails(b, from, pos, c);
      }
    }
  }

  lemma SliceShifts(a: string, b: string, from: nat, to: nat)
    requires from <= to <= |b|
    ensures (a + b)[|a| + from..|a| + to] == b[from..to]
  {
  }

  lemma {:induction false} EndsAtBrace(text: string, pos: nat)
    requires pos <= |text| && ConditionalEnd(text, pos).Some?
    ensures text[ConditionalEnd(text, pos).value - 1] == '}'
    decreases |text| - pos
  {
    hide MatchFrom, TriviaEnd, IsKeywordAt;
    var arms, tail := EndHasChain(text, pos);
    if |arms| > 1 {
      ChainGoesOn(text, pos, arms, tail, ConditionalEnd(text, pos).value);
      ChainEnds(text, arms[1].start, arms[1..], tail, ConditionalEnd(text, pos).value);
      EndsAtBrace(text, arms[1].start);
    } else {
      assert IsArm(text, arms[0]);
    }
  }

  /** The text begins with something without conditionals, and then a conditional of which `chosen` stays. */
  ghost predicate Opens(front: string, conditional: string, rest: string, chosen: string) {
    var text := front + conditional + rest;
    && conditional != "" && NextConditional(text, 0) == |front|
    && var c := ChoiceAt(text, |front|);
       c.Chosen? && c.end == |front + conditional| && text[c.from..c.to] == chosen
  }

  lemma FoldOpened(front: string, conditional: string, rest: string, chosen: string)
    requires Opens(front, conditional, rest, chosen)
    ensures Fold(front + conditional + rest, 0) == Joined(front, conditional, chosen, Fold(rest, 0))
  {
    hide NextConditional, ChoiceAt, Fold, Joined, ConditionalEnd, IsConditionalAt;
    var a := front + conditional;
    var text := a + rest;
    ScannersAgree(text, |front|);
    EndsAtBrace(text, |front|);
    assert a[|a| - 1] == text[|a| - 1];
    FoldShifts(a, rest, 0);
    assert text[0..|front|] == front && text[|front|..|a|] == conditional;
    FoldIs(text, 0, |front|, ChoiceAt(text, |front|), front, conditional, chosen);
  }

  /** Two texts that differ only in a discarded branch, by no line break, fold alike. */
  lemma DiscardedTextIsIrrelevant(front: string, one: string, other: string, rest: string, chosen: string)
    requires Opens(front, one, rest, chosen) && Opens(front, other, rest, chosen) && Newlines(one) == Newlines(other)
    ensures Fold(front + one + rest, 0) == Fold(front + other + rest, 0)
  {
    hide Opens, Fold, FoldAssertions, Newlines;
    FoldOpened(front, one, rest, chosen);
    FoldOpened(front, other, rest, chosen);
  }

  // ----- a text that is one chain -----

  /** The text in `levels` scopes, one around another, with line breaks behind each. */
  ghost predicate Wraps(text: string, inner: string, levels: nat)
    decreases levels
  {
    if levels == 0 then text == inner
    else exists body, breaks: nat :: text == Scope(body, breaks) && Wraps(body, inner, levels - 1)
  }

  function Scope(body: string, breaks: nat): string {
    "if (true) {" + body + "}" + Repeat(breaks)
  }

  /** What stays of a chain whose first arm with a true condition is number `k`, or that has none. */
  function Kept(text: string, arms: seq<Arm>, tail: Tail, k: nat): string
    requires k < |arms| ==> arms[k].thenOpen < arms[k].thenClose <= |text|
    requires k >= |arms| && tail.Else? ==> tail.open < tail.close <= |text|
  {
    if k < |arms| then text[arms[k].thenOpen + 1..arms[k].thenClose]
    else if tail.Else? then text[tail.open + 1..tail.close]
    else ""
  }

  lemma NothingFolds()
    ensures FoldAssertions("", 0) == Folded("") && Fold("", 0) == Folded("")
  {
  }

  lemma EndFolds(text: string)
    ensures Fold(text, |text|) == Folded("")
  {
    hide FoldAssertions;
    NothingFolds();
    assert text[|text|..] == "";
    FoldEnds(text, |text|, "");
  }

  lemma NextIsHere(text: string, pos: nat)
    requires pos < |text| && IsConditionalAt(text, pos)
    ensures NextConditional(text, pos) == pos
  {
    hide LiteralEnd, IsKeywordAt, TriviaEnd;
    IfIsNoLiteral(text, pos);
  }

  lemma IfIsNoLiteral(text: string, pos: nat)
    requires pos < |text| && IsKeywordAt(text, pos, "if")
    ensures LiteralEnd(text, pos).None?
  {
    assert text[pos] == 'i';
  }

  lemma KeywordSeparates(text: string, pos: nat)
    requires pos < |text| && IsConditionalAt(text, pos)
    ensures Separates(text[..pos])
  {
  }

  /** A conditional up to the end of the text folds to a scope around the fold of what is chosen. */
  lemma LastConditionalFolds(text: string, pos: nat, c: Choice, chosen: string)
    requires pos < |text| && IsConditionalAt(text, pos) && c == ChoiceAt(text, pos)
    requires c.Chosen? && c.end == |text| && chosen == text[c.from..c.to]
    ensures IsScopeOf(Fold(text, pos), Fold(chosen, 0))
  {
    hide Fold, FoldAssertions, ChoiceAt, IsConditionalAt, NextConditional, Newlines, Repeat;
    NextIsHere(text, pos);
    assert text[pos..pos] == "" && text[pos..|text|] == text[pos..];
    FoldIs(text, pos, pos, c, "", text[pos..], chosen);
    EndFolds(text);
    NothingFolds();
    var inner := Fold(chosen, 0);
    if inner.Folded? {
      var kept, lines := "if (true) {" + inner.text + "}", Newlines(text[pos..]);
      var breaks: nat := if lines > Newlines(kept) then lines - Newlines(kept) else 0;
      assert Replacement(text[pos..], inner.text) == Scope(inner.text, breaks);
      assert "" + Scope(inner.text, breaks) + "" == Scope(inner.text, breaks);
    }
  }

  ghost predicate IsScopeOf(r: Folded, inner: Folded) {
    if inner.Failed? then r == inner else exists breaks: nat :: r == Folded(Scope(inner.text, breaks))
  }

  /** The chain is as long as the text, and its places are in order. */
  ghost predicate IsLastChain(text: string, pos: nat, arms: seq<Arm>, tail: Tail) {
    && IsChain(text, pos, arms, tail, |text|)
    && (forall j :: 0 <= j < |arms| ==> arms[j].open < arms[j].close <= |text|)
    && (forall j :: 0 <= j < |arms| ==> arms[j].thenOpen < arms[j].thenClose <= |text|)
    && (tail.Else? ==> tail.open < tail.close <= |text|)
  }

  lemma ChainIsScope(text: string, pos: nat, arms: seq<Arm>, tail: Tail)
    requires IsLastChain(text, pos, arms, tail) && Evaluation(Condition(text, arms[0])).1.None?
    ensures pos < |text| && IsConditionalAt(text, pos)
    ensures Evaluation(Condition(text, arms[0])).0 ==>
              IsScopeOf(Fold(text, pos), Fold(text[arms[0].thenOpen + 1..arms[0].thenClose], 0))
    ensures !Evaluation(Condition(text, arms[0])).0 && |arms| > 1 ==>
              arms[1].start <= |text| && IsScopeOf(Fold(text, pos), Fold(text[arms[1].start..], 0))
    ensures !Evaluation(Condition(text, arms[0])).0 && |arms| == 1 ==>
              IsScopeOf(Fold(text, pos), Fold(Kept(text, arms, tail, 1), 0))
  {
    hide Fold, ChoiceAt, IsConditionalAt, IsArm, Continues, EndsWith, Evaluation, Scope, Condition;
    ChoiceOfChain(text, pos, arms, tail, |text|);
    var c := ChoiceAt(text, pos);
    LastConditionalFolds(text, pos, c, text[c.from..c.to]);
    assert |arms| > 1 ==> text[arms[1].start..|text|] == text[arms[1].start..];
    assert text[|text|..|text|] == "";
  }

  lemma WholeChainIsLast(text: string, pos: nat, arms: seq<Arm>, tail: Tail)
    requires IsChain(text, pos, arms, tail, |text|)
    ensures IsLastChain(text, pos, arms, tail)
  {
    hide Matching, TriviaEnd, IsConditionalAt;
    forall j | 0 <= j < |arms|
      ensures arms[j].open < arms[j].close <= |text| && arms[j].thenOpen < arms[j].thenClose <= |text|
    {
      assert IsArm(text, arms[j]);
    }
  }

  lemma LastChainGoesOn(text: string, pos: nat, arms: seq<Arm>, tail: Tail)
    requires IsLastChain(text, pos, arms, tail) && |arms| > 1
    ensures IsLastChain(text, arms[1].start, arms[1..], tail)
  {
    hide IsChain;
    ChainGoesOn(text, pos, arms, tail, |text|);
  }

  /** A chain of arms up to the end of the text folds to the fold of the body of its first arm whose condition is
    true, or of its tail, in as many scopes as conditions were looked at. */
  lemma {:induction false} ChainFolds(text: string, pos: nat, arms: seq<Arm>, tail: Tail, k: nat)
    requires IsLastChain(text, pos, arms, tail) && k <= |arms|
    requires forall j :: 0 <= j < k ==> Evaluation(Condition(text, arms[j])) == (false, None)
    requires k < |arms| ==> Evaluation(Condition(text, arms[k])) == (true, None)
    ensures pos <= |text|
    ensures var inner, r := Fold(Kept(text, arms, tail, k), 0), Fold(text, pos);
            if inner.Failed? then r == inner
            else r.Folded? && Wraps(r.text, inner.text, if k < |arms| then k + 1 else |arms|)
    decreases |arms|
  {
    hide Fold, IsConditionalAt, IsChain, Evaluation, Wraps, Scope, Condition;
    var inner := Fold(Kept(text, arms, tail, k), 0);
    ChainIsNotEmpty(text, pos, arms, tail);
    ChainIsScope(text, pos, arms, tail);
    if k > 0 && |arms| > 1 {
      var next := arms[1].start;
      LastChainGoesOn(text, pos, arms, tail);
      ChainFolds(text, next, arms[1..], tail, k - 1);
      assert Kept(text, arms[1..], tail, k - 1) == Kept(text, arms, tail, k);
      ChainSeparates(text, next, arms[1..], tail);
      RestFoldsAlone(text, next);
      if inner.Folded? {
        WrapsOnce(Fold(text, pos), Fold(text, next).text, inner.text, if k < |arms| then k else |arms| - 1);
      }
    } else if inner.Folded? {
      WrapsNone(inner.text);
      WrapsOnce(Fold(text, pos), inner.text, inner.text, 0);
    }
  }

  lemma ChainIsNotEmpty(text: string, pos: nat, arms: seq<Arm>, tail: Tail)
    requires IsLastChain(text, pos, arms, tail)
    ensures arms != []
  {
  }

  lemma ChainSeparates(text: string, pos: nat, arms: seq<Arm>, tail: Tail)
    requires IsLastChain(text, pos, arms, tail)
    ensures pos < |text| && IsConditionalAt(text, pos)
  {
    hide IsConditionalAt;
    assert IsArm(text, arms[0]);
  }

  lemma RestFoldsAlone(text: string, pos: nat)
    requires pos < |text| && IsConditionalAt(text, pos)
    ensures Fold(text[pos..], 0) == Fold(text, pos)
  {
    hide Fold, Separates, IsConditionalAt;
    KeywordSeparates(text, pos);
    assert text[..pos] + text[pos..] == text;
    FoldShifts(text[..pos], text[pos..], 0);
  }

  lemma WrapsNone(inner: string)
    ensures Wraps(inner, inner, 0)
  {
  }

  lemma WrapsOnce(r: Folded, body: string, inner: string, levels: nat)
    requires Wraps(body, inner, levels) && exists breaks: nat :: r == Folded(Scope(body, breaks))
    ensures r.Folded? && Wraps(r.text, inner, levels + 1)
  {
    hide Scope;
    var breaks: nat :| r == Folded(Scope(body, breaks));
    assert r.text == Scope(body, breaks) && Wraps(body, inner, levels);
  }

  // ----- the folders -----

  method FindCommas(s: string) returns (commas: seq<nat>)
    ensures commas == Commas(s, 0, Depths(0, 0, 0))
  {
    hide LiteralEnd;
    commas := [];
    var pos: nat, d := 0, Depths(0, 0, 0);
    while pos < |s|
      invariant pos <= |s| && commas + Commas(s, pos, d) == Commas(s, 0, Depths(0, 0, 0))
    {
      var skipped, next := SkipCommentOrLiteral(s, pos);
      if skipped {
        pos := next;
        continue;
      }
      if s[pos] == ',' && d == Depths(0, 0, 0) {
        assert commas + ([pos] + Commas(s, pos + 1, d)) == (commas + [pos]) + Commas(s, pos + 1, d);
        commas := commas + [pos];
      }
      d := Deeper(d, s[pos]);
      pos := pos + 1;
    }
  }

  method EvaluateCondition(condition: string) returns (value: bool, message: Option<Error>)
    ensures (value, message) == Evaluation(condition)
  {
    var evaluator := new ConstexprEvaluator(condition);
    value, message := evaluator.Evaluate();
  }

  method CheckAssertion(argument: string) returns (verdict: Option<string>)
    ensures verdict == CheckArguments(argument)
  {
    hide Evaluation, Trim, Commas;
    var commas := FindCommas(argument);
    var condition, message := Trim(argument), "";
    var k: nat := |commas|;
    assert commas[..k] == commas;
    while k > 0
      invariant k <= |commas| && condition == Trim(argument) && message == ""
      invariant SplitArguments(argument, commas) == SplitArguments(argument, commas[..k])
    {
      k := k - 1;
      assert commas[..k + 1][..k] == commas[..k] && commas[..k + 1][k] == commas[k];
      var left, right := Trim(argument[..commas[k]]), Trim(argument[commas[k] + 1..]);
      if IsQuoted(right) {
        condition, message := left, right;
        break;
      }
      var ignored, error := EvaluateCondition(left);
      if error.None? {
        condition, message := left, right;
        break;
      }
    }
    assert (condition, message) == SplitArguments(argument, commas);
    if condition == "" {
      return Some("Choreo 'static_assert' requires a condition");
    }
    var value, error := EvaluateCondition(condition);
    if error.Some? {
      return Some("invalid 'static_assert' condition");
    }
    if message != "" && !IsQuoted(message) {
      return Some("Choreo 'static_assert' message must be a string literal");
    }
    if !value {
      return Some("static assertion failed" + if |message| > 2 then ": " + message[1..|message| - 1] else "");
    }
    return None;
  }

  method CheckAssertionAt(text: string, pos: nat) returns (a: Assertion)
    requires pos <= |text| && IsKeywordAt(text, pos, "static_assert")
    ensures a == AssertionAt(text, pos)
  {
    hide CheckArguments, Matching, TriviaEnd;
    var open := SkipTrivia(text, pos + 13);
    if open >= |text| || text[open] != '(' {
      return BadAssertion("expected '(' after 'static_assert'");
    }
    var close := FindMatching(text, open, '(', ')');
    if close.None? {
      return BadAssertion("unterminated 'static_assert'");
    }
    var semicolon := SkipTrivia(text, close.value + 1);
    if semicolon >= |text| || text[semicolon] != ';' {
      return BadAssertion("expected ';' after 'static_assert'");
    }
    var verdict := CheckAssertion(text[open + 1..close.value]);
    return if verdict.Some? then BadAssertion(verdict.value) else GoodAssertion(semicolon + 1);
  }

  lemma PrependTwice(a: string, b: string, rest: Folded)
    ensures Prepend(a, Prepend(b, rest)) == Prepend(a + b, rest)
  {
    if rest.Folded? { assert a + (b + rest.text) == (a + b) + rest.text; }
  }

  lemma KeywordStep(text: string, pos: nat, word: string)
    requires pos < |text|
    ensures NextKeyword(text, pos, word) == var skip := LiteralEnd(text, pos);
              if skip.Some? then NextKeyword(text, skip.value, word)
              else if IsKeywordAt(text, pos, word) then pos else NextKeyword(text, pos + 1, word)
  {
    hide LiteralEnd, IsKeywordAt;
  }

  method FoldStaticAssertions(text: string) returns (result: Folded)
    ensures result == FoldAssertions(text, 0)
  {
    hide NextKeyword, AssertionAt, LiteralEnd, IsKeywordAt, PreserveLayout;
    ghost var goal := FoldAssertions(text, 0);
    var folded, cursor: nat, pos: nat := "", 0, 0;
    while pos < |text|
      invariant cursor <= pos <= |text|
      invariant NextKeyword(text, pos, "static_assert") == NextKeyword(text, cursor, "static_assert")
      invariant Prepend(folded, FoldAssertions(text, cursor)) == goal
    {
      KeywordStep(text, pos, "static_assert");
      var skipped, next := SkipCommentOrLiteral(text, pos);
      if skipped {
        pos := next;
        continue;
      }
      if !IsKeywordAt(text, pos, "static_assert") {
        pos := pos + 1;
        continue;
      }
      var assertion := CheckAssertionAt(text, pos);
      if assertion.BadAssertion? {
        return Failed(assertion.message);
      }
      var front := text[cursor..pos] + PreserveLayout(text[pos..assertion.end]);
      PrependTwice(folded, front, FoldAssertions(text, assertion.end));
      folded := folded + front;
      cursor := assertion.end;
      pos := cursor;
    }
    result := Folded(folded + text[cursor..]);
  }

  method FindConstexprIfEnd(text: string, pos: nat) returns (end: Option<nat>)
    requires pos <= |text|
    ensures end == ConditionalEnd(text, pos)
    decreases |text| - pos
  {
    hide Matching, TriviaEnd, IsKeywordAt;
    if !IsKeywordAt(text, pos, "if") {
      return None;
    }
    var word := SkipTrivia(text, pos + 2);
    if !IsKeywordAt(text, word, "constexpr") {
      return None;
    }
    var open := SkipTrivia(text, word + 9);
    var close := FindMatching(text, open, '(', ')');
    if close.None? {
      return None;
    }
    var thenOpen := SkipTrivia(text, close.value + 1);
    var thenClose := FindMatching(text, thenOpen, '{', '}');
    if thenClose.None? {
      return None;
    }
    var last := thenClose.value + 1;
    var other := SkipTrivia(text, last);
    if !IsKeywordAt(text, other, "else") {
      return Some(last);
    }
    var body := SkipTrivia(text, other + 4);
    if body < |text| && text[body] == '{' {
      var elseClose := FindMatching(text, body, '{', '}');
      return if elseClose.Some? then Some(elseClose.value + 1) else None;
    }
    end := FindConstexprIfEnd(text, body);
  }

  method ChooseElse(text: string, selected: bool, from: nat, to: nat) returns (c: Choice)
    requires from <= to < |text|
    ensures c == ElseChoice(text, selected, from, to)
  {
    hide Matching, TriviaEnd, ConditionalEnd, IsKeywordAt;
    var end := to + 1;
    var other := SkipTrivia(text, end);
    if !IsKeywordAt(text, other, "else") {
      return if selected then Chosen(from, to, end) else Chosen(end, end, end);
    }
    var body := SkipTrivia(text, other + 4);
    if IsKeywordAt(text, body, "if") {
      var nested := FindConstexprIfEnd(text, body);
      if nested.None? {
        return BadChoice("malformed 'else if constexpr' branch");
      }
      return if selected then Chosen(from, to, nested.value) else Chosen(body, nested.value, nested.value);
    }
    if body >= |text| || text[body] != '{' {
      return BadChoice("Choreo 'if constexpr' requires a braced 'else'");
    }
    var close := FindMatching(text, body, '{', '}');
    if close.None? {
      return BadChoice("unterminated 'if constexpr' else body");
    }
    return if selected then Chosen(from, to, close.value + 1) else Chosen(body + 1, close.value, close.value + 1);
  }

  method Choose(text: string, pos: nat) returns (c: Choice)
    requires pos < |text| && IsConditionalAt(text, pos)
    ensures c == ChoiceAt(text, pos)
  {
    hide Matching, TriviaEnd, ElseChoice, Evaluation, IsKeywordAt;
    var word := SkipTrivia(text, pos + 2);
    var open := SkipTrivia(text, word + 9);
    if open >= |text| || text[open] != '(' {
      return BadChoice("expected '(' after 'if constexpr'");
    }
    var close := FindMatching(text, open, '(', ')');
    if close.None? {
      return BadChoice("unterminated 'if constexpr' condition");
    }
    var selected, error := EvaluateCondition(text[open + 1..close.value]);
    if error.Some? {
      return BadChoice("invalid 'if constexpr' condition");
    }
    var thenOpen := SkipTrivia(text, close.value + 1);
    if thenOpen >= |text| || text[thenOpen] != '{' {
      return BadChoice("Choreo 'if constexpr' requires a braced body");
    }
    var thenClose := FindMatching(text, thenOpen, '{', '}');
    if thenClose.None? {
      return BadChoice("unterminated 'if constexpr' body");
    }
    c := ChooseElse(text, selected, thenOpen + 1, thenClose.value);
  }

  lemma ConditionalStep(text: string, pos: nat)
    requires pos < |text|
    ensures NextConditional(text, pos) == var skip := LiteralEnd(text, pos);
              if skip.Some? then NextConditional(text, skip.value)
              else if IsConditionalAt(text, pos) then pos else NextConditional(text, pos + 1)
  {
    hide LiteralEnd, IsConditionalAt;
  }

  method CountNewlines(s: string) returns (n: nat)
    ensures n == Newlines(s)
  {
    n := 0;
    for i := 0 to |s|
      invariant n == Newlines(s[..i])
    {
      assert s[..i + 1][..i] == s[..i];
      if s[i] == '\n' { n := n + 1; }
    }
    assert s[..|s|] == s;
  }

  method FoldConstexpr(text: string) returns (result: Folded)
    ensures result == Fold(text, 0)
    decreases |text|
  {
    hide NextConditional, ChoiceAt, LiteralEnd, IsConditionalAt, FoldAssertions, Newlines, Repeat;
    ghost var goal := Fold(text, 0);
    var folded, cursor: nat, pos: nat := "", 0, 0;
    while pos < |text|
      invariant cursor <= pos <= |text| && NextConditional(text, pos) == NextConditional(text, cursor)
      invariant Prepend(folded, Fold(text, cursor)) == goal
    {
      ConditionalStep(text, pos);
      var skipped, next := SkipCommentOrLiteral(text, pos);
      if skipped {
        pos := next;
        continue;
      }
      if !IsConditionalAt(text, pos) {
        pos := pos + 1;
        continue;
      }
      var choice := Choose(text, pos);
      if choice.BadChoice? {
        return Failed(choice.message);
      }
      var prefix := FoldStaticAssertions(text[cursor..pos]);
      if prefix.Failed? {
        return prefix;
      }
      var chosen := FoldConstexpr(text[choice.from..choice.to]);
      if chosen.Failed? {
        return chosen;
      }
      var replacement := "if (true) {" + chosen.text + "}";
      var originalLines := CountNewlines(text[pos..choice.end]);
      var replacementLines := CountNewlines(replacement);
      if originalLines > replacementLines {
        replacement := replacement + Repeat(originalLines - replacementLines);
      }
      assert replacement == Replacement(text[pos..choice.end], chosen.text);
      PrependTwice(folded, prefix.text + replacement, Fold(text, choice.end));
      folded := folded + (prefix.text + replacement);
      cursor := choice.end;
      pos := cursor;
    }
    var suffix := FoldStaticAssertions(text[cursor..]);
    result := Prepend(folded, suffix);
  }
}
