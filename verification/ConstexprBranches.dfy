/** Conditionals over printed trees: which branch `if constexpr` keeps, and what a fold makes of it. */
module ConstexprBranches {
  import opened Basics
  import opened ConstexprAssertions
  import opened ConstexprFolding
  import opened ConstexprParser
  import opened ConstexprTrees
  import opened ConstexprValues
  import opened TextScanning

  /** A last `else` with the blank space before it and before its brace. */
  datatype Other = Other(gap: string, before: string, body: string)

  /** A conditional with the blank space before its tokens. */
  datatype Branches = Branches(gap: string, before: string, condition: Expr, tail: string, after: string, body: string,
                               other: Option<Other>)

  function Head(b: Branches): string {
    "if" + (b.gap + ("constexpr" + (b.before + "(")))
  }

  function ConditionText(b: Branches): string {
    Print(b.condition, 0) + b.tail
  }

  function BodyText(body: string): string {
    "{" + (body + "}")
  }

  function OtherText(other: Option<Other>): string {
    match other
    case None => ""
    case Some(o) => o.gap + ("else" + (o.before + BodyText(o.body)))
  }

  function BranchText(b: Branches): string {
    Head(b) + (ConditionText(b) + (")" + (b.after + (BodyText(b.body) + OtherText(b.other)))))
  }

  /** Where the parts of the conditional stand. */
  function Open(b: Branches): nat { 11 + |b.gap| + |b.before| }

  function Close(b: Branches): nat { Open(b) + 1 + |ConditionText(b)| }

  function ThenOpen(b: Branches): nat { Close(b) + 1 + |b.after| }

  function ThenClose(b: Branches): nat { ThenOpen(b) + 1 + |b.body| }

  function ElseOpen(b: Branches, o: Other): nat { ThenClose(b) + 1 + |o.gap| + 4 + |o.before| }

  /** The braces of the bodies match, and tokens are kept apart. */
  ghost predicate IsBranches(b: Branches) {
    && IsBlank(b.gap) && b.gap != "" && IsBlank(b.before) && IsWellFormed(b.condition)
    && IsBlank(b.tail) && IsBlank(b.after)
    && Matching(BranchText(b), ThenOpen(b), '{', '}') == Some(ThenClose(b))
    && (b.other.Some? ==>
          var o := b.other.value;
          && IsBlank(o.gap) && IsBlank(o.before)
          && Matching(BranchText(b), ElseOpen(b, o), '{', '}') == Some(|BranchText(b)| - 1))
  }

  // ----- where the parts stand -----

  lemma HeadParts(text: string, b: Branches)
    requires Holds(text, 0, Head(b))
    ensures var word := 2 + |b.gap|;
            && Holds(text, 0, "if") && Holds(text, 2, b.gap) && Holds(text, word, "constexpr")
            && Holds(text, word + 9, b.before) && Open(b) == word + 9 + |b.before| < |text| && text[Open(b)] == '('
  {
    hide Holds;
    HoldsParts(text, 0, "if", b.gap + ("constexpr" + (b.before + "(")));
    HoldsParts(text, 2, b.gap, "constexpr" + (b.before + "("));
    HoldsParts(text, 2 + |b.gap|, "constexpr", b.before + "(");
    HoldsParts(text, 2 + |b.gap| + 9, b.before, "(");
    CharHere(text, 2 + |b.gap| + 9 + |b.before|, "(");
  }

  lemma CharHere(text: string, p: nat, token: string)
    requires Holds(text, p, token) && |token| == 1
    ensures p < |text| && text[p] == token[0]
  {
  }

  lemma BodyParts(text: string, p: nat, body: string)
    requires Holds(text, p, BodyText(body))
    ensures p + 1 + |body| < |text| && text[p] == '{' && Holds(text, p + 1, body) && text[p + 1 + |body|] == '}'
  {
    hide Holds;
    HoldsParts(text, p, "{", body + "}");
    HoldsParts(text, p + 1, body, "}");
    CharHere(text, p, "{");
    CharHere(text, p + 1 + |body|, "}");
  }

  lemma BranchParts(b: Branches)
    ensures var text := BranchText(b);
            && Holds(text, 0, Head(b)) && Holds(text, Open(b) + 1, ConditionText(b))
            && Close(b) < |text| && text[Close(b)] == ')' && Holds(text, Close(b) + 1, b.after)
            && ThenClose(b) < |text| && Holds(text, ThenOpen(b), BodyText(b.body))
            && Holds(text, ThenClose(b) + 1, OtherText(b.other)) && ThenClose(b) + 1 + |OtherText(b.other)| == |text|
  {
    hide Head, ConditionText, BodyText, OtherText, Holds;
    var text := BranchText(b);
    var rest := BodyText(b.body) + OtherText(b.other);
    WholeText(text);
    HeadSize(b);
    HoldsParts(text, 0, Head(b), ConditionText(b) + (")" + (b.after + rest)));
    HoldsParts(text, Open(b) + 1, ConditionText(b), ")" + (b.after + rest));
    HoldsParts(text, Close(b), ")", b.after + rest);
    HoldsParts(text, Close(b) + 1, b.after, rest);
    HoldsParts(text, ThenOpen(b), BodyText(b.body), OtherText(b.other));
    CharHere(text, Close(b), ")");
    BodySize(b.body);
  }

  lemma HeadSize(b: Branches)
    ensures |Head(b)| == Open(b) + 1
  {
  }

  lemma BodySize(body: string)
    ensures |BodyText(body)| == |body| + 2
  {
  }

  lemma WholeText(text: string)
    ensures Holds(text, 0, text)
  {
  }

  lemma NoOther()
    ensures OtherText(None) == ""
  {
  }

  lemma OtherParts(text: string, p: nat, o: Other)
    requires Holds(text, p, OtherText(Some(o)))
    ensures var word := p + |o.gap|;
            && Holds(text, p, o.gap) && Holds(text, word, "else") && Holds(text, word + 4, o.before)
            && Holds(text, word + 4 + |o.before|, BodyText(o.body))
            && |OtherText(Some(o))| == |o.gap| + 4 + |o.before| + |o.body| + 2
  {
    hide Holds, BodyText;
    HoldsParts(text, p, o.gap, "else" + (o.before + BodyText(o.body)));
    HoldsParts(text, p + |o.gap|, "else", o.before + BodyText(o.body));
    HoldsParts(text, p + |o.gap| + 4, o.before, BodyText(o.body));
    BodySize(o.body);
  }

  // ----- keywords -----

  /** A word with something else on either side is a keyword. */
  lemma KeywordHere(text: string, p: nat, word: string)
    requires Holds(text, p, word) && (p > 0 ==> !IsIdentChar(text[p - 1]))
    requires p + |word| < |text| ==> !IsIdentChar(text[p + |word|])
    ensures p <= |text| && IsKeywordAt(text, p, word)
  {
  }

  /** Blank space, or the character behind it, ends a word. */
  lemma GapEndsWord(text: string, p: nat, gap: string, q: nat)
    requires Holds(text, p, gap) && IsBlank(gap) && q == p + |gap| < |text| && !IsIdentChar(text[q])
    ensures p < |text| && !IsIdentChar(text[p])
  {
    if gap != "" {
      HoldsAt(text, p, gap, 0);
      assert gap[0] in gap;
    }
  }

  /** The last character of blank space is no letter. */
  lemma GapBeforeWord(text: string, p: nat, gap: string)
    requires Holds(text, p, gap) && IsBlank(gap) && p + |gap| > 0
    requires gap == "" ==> p <= |text| && !IsIdentChar(text[p - 1])
    ensures p + |gap| <= |text| && !IsIdentChar(text[p + |gap| - 1])
  {
    if gap != "" {
      HoldsAt(text, p, gap, |gap| - 1);
      assert gap[|gap| - 1] in gap;
    }
  }

  lemma FirstLetter(text: string, p: nat, word: string)
    requires Holds(text, p, word) && word != ""
    ensures p < |text| && text[p] == word[0]
  {
  }

  /** The keywords of the conditional are found, and its bracket behind them. */
  lemma HeadIsFound(text: string, b: Branches)
    requires Holds(text, 0, Head(b)) && IsBlank(b.gap) && b.gap != "" && IsBlank(b.before)
    ensures text != "" && IsConditionalAt(text, 0) && LiteralEnd(text, 0).None?
    ensures TriviaEnd(text, TriviaEnd(text, 2) + 9) == Open(b)
  {
    hide Holds, Head, TriviaEnd, IsKeywordAt, IsIdentChar, LiteralEnd, IsBlank;
    HeadParts(text, b);
    var word := 2 + |b.gap|;
    FirstLetter(text, 0, "if");
    FirstLetter(text, word, "constexpr");
    FirstLetter(text, 2, b.gap);
    NoLetters(text, b);
    GapBeforeWord(text, 2, b.gap);
    GapEndsWord(text, word + 9, b.before, Open(b));
    KeywordHere(text, 0, "if");
    KeywordHere(text, word, "constexpr");
    TriviaPasses(text, 2, b.gap);
    TriviaPasses(text, word + 9, b.before);
  }

  lemma NoLetters(text: string, b: Branches)
    requires |text| > 2 && text[0] == 'i' && b.gap != "" && IsBlank(b.gap) && text[2] == b.gap[0]
    ensures LiteralEnd(text, 0).None? && !IsIdentChar(text[2]) && !IsIdentChar('(')
    ensures !IsSpace('c') && !IsSpace('(') && !IsSpace('e') && !IsSpace('{')
  {
    hide Find, QuotedEnd, RawStringEnd;
    assert b.gap[0] in b.gap;
  }

  // ----- what is chosen -----

  lemma ConditionIsMatched(b: Branches)
    requires IsBranches(b)
    ensures Matching(BranchText(b), Open(b), '(', ')') == Some(Close(b))
  {
    hide Head, ConditionText, BodyText, OtherText, Holds, MatchFrom, IsTidy, IsWellFormed, BranchText, LiteralEnd;
    var text := BranchText(b);
    BranchParts(b);
    HeadParts(text, b);
    ConditionIsTidy(b);
    MatchPasses(text, Open(b) + 1, ConditionText(b), 1);
    MatchEndsHere(text, Close(b));
  }

  lemma ConditionIsTidy(b: Branches)
    requires IsWellFormed(b.condition) && IsBlank(b.tail)
    ensures IsTidy(ConditionText(b))
  {
    hide Print, IsTidy;
    TreeIsTidy(b.condition);
    BlankIsTidy(b.tail);
    TidyOfBoth(Print(b.condition, 0), b.tail);
  }

  /** What stands behind the body of the conditional. */
  lemma ElseIsFound(b: Branches)
    requires IsBranches(b)
    ensures ThenClose(b) < |BranchText(b)|
    ensures AfterElse(BranchText(b), ThenClose(b) + 1)
            == if b.other.Some? then Some(ElseOpen(b, b.other.value)) else None
    ensures b.other.Some? ==> ElseOpen(b, b.other.value) < |BranchText(b)| - 1
    ensures b.other.Some? ==> BranchText(b)[ElseOpen(b, b.other.value)] == '{'
  {
    hide Head, ConditionText, BodyText, OtherText, Holds, TriviaEnd, IsKeywordAt, Matching, IsIdentChar,
         BranchText, IsBlank;
    var text, end := BranchText(b), ThenClose(b) + 1;
    BranchParts(b);
    BodyParts(text, ThenOpen(b), b.body);
    NoOther();
    match b.other {
      case None => NothingBehind(text);
      case Some(o) =>
        OtherParts(text, end, o);
        BodyParts(text, ElseOpen(b, o), o.body);
        FirstLetter(text, end + |o.gap|, "else");
        BracesAreNoLetters();
        GapBeforeWord(text, end, o.gap);
        GapEndsWord(text, end + |o.gap| + 4, o.before, ElseOpen(b, o));
        KeywordHere(text, end + |o.gap|, "else");
        TriviaPasses(text, end, o.gap);
        TriviaPasses(text, end + |o.gap| + 4, o.before);
    }
  }

  lemma BracesAreNoLetters()
    ensures !IsIdentChar('}') && !IsIdentChar('{') && !IsSpace('{') && !IsSpace('e')
  {
  }

  lemma NothingBehind(text: string)
    ensures AfterElse(text, |text|).None?
  {
    hide LiteralEnd;
    assert TriviaEnd(text, |text|) == |text|;
    assert !StartsAt(text, |text|, "else");
  }

  /** The part of the text that stays. */
  function Kept(b: Branches, holds: bool): string {
    if holds then b.body else if b.other.Some? then b.other.value.body else ""
  }

  /** The conditional as a chain of one arm. */
  lemma BranchesAreChain(b: Branches)
    requires IsBranches(b)
    ensures var text := BranchText(b);
            var arm := Arm(0, Open(b), Close(b), ThenOpen(b), ThenClose(b));
            var tail := if b.other.Some? then Else(ElseOpen(b, b.other.value), |text| - 1) else NoElse;
            IsChain(text, 0, [arm], tail, |text|)
  {
    hide Head, ConditionText, BodyText, OtherText, Holds, TriviaEnd, Matching, IsConditionalAt, BranchText, AfterElse;
    var text := BranchText(b);
    BranchParts(b);
    HeadIsFound(text, b);
    ConditionIsMatched(b);
    ElseIsFound(b);
    BraceAfterCondition(b);
    NoOther();
  }

  lemma BraceAfterCondition(b: Branches)
    requires IsBranches(b)
    ensures Close(b) < |BranchText(b)| && TriviaEnd(BranchText(b), Close(b) + 1) == ThenOpen(b)
  {
    hide Head, ConditionText, BodyText, OtherText, Holds, TriviaEnd, Matching, BranchText, IsBlank;
    BranchParts(b);
    BodyParts(BranchText(b), ThenOpen(b), b.body);
    BracesAreNoLetters();
    TriviaPasses(BranchText(b), Close(b) + 1, b.after);
  }

  /** The text of a conditional keeps its body if the condition means a number other than 0, its `else` body or
    nothing if it means 0, and is refused if the condition has no value. */
  lemma ChoiceOfTree(b: Branches)
    requires IsBranches(b)
    ensures var text, out := BranchText(b), Meaning(b.condition);
            && text != "" && IsConditionalAt(text, 0)
            && var c := ChoiceAt(text, 0);
               if out.Fault? then c.BadChoice?
               else c.Chosen? && c.end == |text| && text[c.from..c.to] == Kept(b, out.value != 0)
  {
    hide Head, ConditionText, BodyText, OtherText, Holds, Matching, IsConditionalAt, BranchText, AfterElse,
         ChoiceAt, Evaluation, IsChain, Meaning, IsBranches;
    var text := BranchText(b);
    BranchParts(b);
    BranchesAreChain(b);
    var arm := Arm(0, Open(b), Close(b), ThenOpen(b), ThenClose(b));
    var tail := if b.other.Some? then Else(ElseOpen(b, b.other.value), |text| - 1) else NoElse;
    ChoiceOfChain(text, 0, [arm], tail, |text|);
    ConditionMeans(b);
    BodiesHere(b);
  }

  lemma ConditionMeans(b: Branches)
    requires IsBranches(b)
    ensures Open(b) < Close(b) <= |BranchText(b)|
    ensures var r, out := Evaluation(BranchText(b)[Open(b) + 1..Close(b)]), Meaning(b.condition);
            if out.Fault? then r.1.Some? else r == (out.value != 0, None)
  {
    hide Head, BodyText, OtherText, BranchText, Evaluation, Meaning, Matching, Print;
    BranchParts(b);
    assert BranchText(b)[Open(b) + 1..Close(b)] == ConditionText(b);
    PrintedTreeEvaluates(b.condition, b.tail);
  }

  lemma BodiesHere(b: Branches)
    requires IsBranches(b)
    ensures ThenClose(b) < |BranchText(b)| && BranchText(b)[ThenOpen(b) + 1..ThenClose(b)] == b.body
    ensures b.other.Some? ==>
              var o := b.other.value;
              && ElseOpen(b, o) + 1 <= |BranchText(b)| - 1
              && BranchText(b)[ElseOpen(b, o) + 1..|BranchText(b)| - 1] == o.body
  {
    hide Head, ConditionText, BodyText, OtherText, BranchText, Matching;
    BranchParts(b);
    BodyParts(BranchText(b), ThenOpen(b), b.body);
    if b.other.Some? {
      var o := b.other.value;
      OtherParts(BranchText(b), ThenClose(b) + 1, o);
      BodyParts(BranchText(b), ElseOpen(b, o), o.body);
    }
  }

  // ----- what a fold makes of it -----

  /** A scope around the kept text, and the lines that went with the rest. */
  ghost predicate IsScope(folded: string, original: string, kept: string) {
    exists lines: string ::
      && (forall c :: c in lines ==> c == '\n') && folded == "if (true) {" + kept + "}" + lines
      && Newlines(folded) == Newlines(original)
  }

  /** The fold of a conditional is the fold of what is kept, in a scope of its own and with all its lines; it fails
    exactly if the condition has no value or that fold fails. */
  lemma FoldOfBranches(b: Branches)
    requires IsBranches(b)
    ensures var r, out := Fold(BranchText(b), 0), Meaning(b.condition);
            if out.Fault? then r.Failed?
            else match Fold(Kept(b, out.value != 0), 0)
                 case Failed(_) => r.Failed?
                 case Folded(kept) => r.Folded? && IsScope(r.text, BranchText(b), kept)
  {
    hide BranchText, IsConditionalAt, ChoiceAt, Meaning, IsBranches, FoldAssertions, Replacement, Fold, Kept,
         Newlines, LiteralEnd;
    var text := BranchText(b);
    ChoiceOfTree(b);
    StandsFirst(b);
    FoldFails(text);
    var c := ChoiceAt(text, 0);
    if c.Chosen? {
      var kept := text[c.from..c.to];
      FoldIs(text, 0, 0, c, "", text, kept) by { assert text[0..0] == "" && text[0..|text|] == text; }
      EmptyFolds(text);
      if Fold(kept, 0).Folded? { ScopeHere(text, kept, Fold(kept, 0).text, c); }
    }
  }

  lemma StandsFirst(b: Branches)
    requires IsBranches(b)
    ensures NextConditional(BranchText(b), 0) == 0
  {
    hide BranchText, IsConditionalAt, LiteralEnd;
    BranchParts(b);
    HeadIsFound(BranchText(b), b);
  }

  lemma FoldFails(text: string)
    requires text != "" && NextConditional(text, 0) == 0 && IsConditionalAt(text, 0)
    ensures ChoiceAt(text, 0).BadChoice? ==> Fold(text, 0).Failed?
  {
    hide IsConditionalAt, ChoiceAt, FoldAssertions, Replacement, NextConditional;
  }

  lemma EmptyFolds(text: string)
    ensures FoldAssertions("", 0) == Folded("") && Fold(text, |text|) == Folded("")
  {
    hide AssertionAt, ChoiceAt;
    assert ""[0..] == "" && text[|text|..] == "";
    assert NextKeyword("", 0, "static_assert") == 0;
  }

  lemma ScopeHere(text: string, original: string, kept: string, c: Choice)
    requires Fold(original, 0) == Folded(kept) && c.Chosen? && c.from <= c.to <= |text|
    requires original == text[c.from..c.to]
    ensures IsScope("" + Replacement(text, kept) + "", text, kept)
  {
    hide Fold, Newlines;
    FoldKeepsNewlines(original, 0);
    WholeSlices(original);
    SliceHasNoMore(text, 0, c.from, c.to, |text|);
    assert text[0..|text|] == text;
    ReplacementKeepsNewlines(text, kept);
    var front := "if (true) {" + kept + "}";
    var lines := Replacement(text, kept)[|front|..];
    assert Replacement(text, kept) == front + lines;
    assert "" + Replacement(text, kept) + "" == Replacement(text, kept);
  }
}
