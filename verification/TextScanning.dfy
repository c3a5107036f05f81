/** Scanning source text: comments and literals are passed over as wholes, keywords stand alone, and
  brackets are matched outside comments and literals.
 */
module TextScanning {
  import opened Basics
  import opened ConstexprValues

  // ----- searching -----

  /** The first place from `from` on where the piece stands, or the end of the text. */
  function Find(text: string, piece: string, from: nat): (at: nat)
    ensures from <= |text| ==> from <= at <= |text|
    ensures at < |text| ==> StartsAt(text, at, piece)
    decreases |text| - from
  {
    if from >= |text| then |text| else if StartsAt(text, from, piece) then from else Find(text, piece, from + 1)
  }

  /** Past the closing quote, or at the end. */
  function QuotedEnd(text: string, pos: nat, quote: char): (end: nat)
    requires pos <= |text|
    ensures pos <= end <= |text|
    decreases |text| - pos
  {
    if pos == |text| then pos
    else if text[pos] == '\\' then (if pos + 2 <= |text| then QuotedEnd(text, pos + 2, quote) else |text|)
    else if text[pos] == quote then pos + 1
    else QuotedEnd(text, pos + 1, quote)
  }

  function RawStringEnd(text: string, pos: nat): (end: nat)
    requires StartsAt(text, pos, "R\"")
    ensures pos < end <= |text|
  {
    var open := Find(text, "(", pos + 2);
    if open == |text| then |text|
    else
      var close := ")" + text[pos + 2..open] + "\"";
      var at := Find(text, close, open + 1);
      if at == |text| then |text| else at + |close|
  }

  /** Where the comment or literal that starts here ends. */
  function LiteralEnd(text: string, pos: nat): (end: Option<nat>)
    requires pos < |text|
    ensures end.Some? ==> pos < end.value <= |text|
  {
    if StartsAt(text, pos, "//") then Some(Find(text, "\n", pos + 2))
    else if StartsAt(text, pos, "/*") then
      var at := Find(text, "*/", pos + 2);
      Some(if at == |text| then |text| else at + 2)
    else if StartsAt(text, pos, "R\"") then Some(RawStringEnd(text, pos))
    else if text[pos] == '"' || text[pos] == '\'' then Some(QuotedEnd(text, pos + 1, text[pos]))
    else None
  }

  /** Past blank space and comments. */
  function TriviaEnd(text: string, pos: nat): (end: nat)
    requires pos <= |text|
    ensures pos <= end <= |text|
    decreases |text| - pos
  {
    if pos == |text| then pos
    else if IsSpace(text[pos]) then TriviaEnd(text, pos + 1)
    else if StartsAt(text, pos, "//") || StartsAt(text, pos, "/*") then TriviaEnd(text, LiteralEnd(text, pos).value)
    else pos
  }

  predicate IsKeywordAt(text: string, pos: nat, word: string): (found: bool)
    requires pos <= |text|
    ensures found ==> pos + |word| <= |text|
  {
    WordAt(text, pos, word) && (pos > 0 ==> !IsIdentChar(text[pos - 1]))
  }

  /** The bracket that closes `depth` open ones. */
  function MatchFrom(text: string, pos: nat, depth: nat, open: char, close: char): (r: Option<nat>)
    requires pos <= |text| && depth > 0 && open != close
    ensures r.Some? ==> pos <= r.value < |text| && text[r.value] == close
    decreases |text| - pos
  {
    if pos == |text| then None
    else
      var skip := LiteralEnd(text, pos);
      if skip.Some? then MatchFrom(text, skip.value, depth, open, close)
      else if text[pos] == open then MatchFrom(text, pos + 1, depth + 1, open, close)
      else if text[pos] != close then MatchFrom(text, pos + 1, depth, open, close)
      else if depth == 1 then Some(pos)
      else MatchFrom(text, pos + 1, depth - 1, open, close)
  }

  /** The bracket that closes the one here. */
  function Matching(text: string, at: nat, open: char, close: char): (r: Option<nat>)
    requires open != close
    ensures r.Some? ==> at < r.value < |text| && text[r.value] == close
  {
    if at >= |text| || text[at] != open then None else MatchFrom(text, at + 1, 1, open, close)
  }

  /** Brackets opened less brackets closed in the code from one place to another, where a comment or
    literal counts for nothing. */
  function Balance(text: string, from: nat, to: nat, open: char, close: char): int
    requires from <= |text|
    decreases |text| - from
  {
    if from >= to || from == |text| then 0
    else
      var skip := LiteralEnd(text, from);
      if skip.Some? then Balance(text, skip.value, to, open, close)
      else Step(text[from], open, close) + Balance(text, from + 1, to, open, close)
  }

  /** A place the scan from `from` stops at, outside comments and literals. */
  predicate IsCode(text: string, from: nat, at: nat)
    requires from <= |text|
    decreases |text| - from
  {
    if from == |text| || from > at then false
    else
      var skip := LiteralEnd(text, from);
      if skip.Some? then IsCode(text, skip.value, at) else from == at || IsCode(text, from + 1, at)
  }

  lemma {:induction false} CodeIsAhead(text: string, from: nat, at: nat)
    requires from <= |text| && IsCode(text, from, at)
    ensures from <= at < |text|
    decreases |text| - from
  {
    hide LiteralEnd;
    var skip := LiteralEnd(text, from);
    if skip.Some? {
      CodeIsAhead(text, skip.value, at);
    } else if from != at {
      CodeIsAhead(text, from + 1, at);
    }
  }

  /** Before `limit`, no closing bracket in the code balances. */
  ghost predicate StaysOpen(text: string, pos: nat, depth: int, open: char, close: char, limit: nat)
    requires pos <= |text|
  {
    forall k: nat {:trigger IsCode(text, pos, k)} ::
      k < limit && IsCode(text, pos, k) && k < |text| && text[k] == close ==>
      depth + Balance(text, pos, k, open, close) > 1
  }

  lemma OpenThroughLiteral(text: string, pos: nat, depth: int, open: char, close: char, limit: nat)
    requires pos < |text| && LiteralEnd(text, pos).Some?
    requires StaysOpen(text, LiteralEnd(text, pos).value, depth, open, close, limit)
    ensures StaysOpen(text, pos, depth, open, close, limit)
  {
    hide LiteralEnd;
    var end := LiteralEnd(text, pos).value;
    forall k: nat | k < limit && IsCode(text, pos, k) && k < |text| && text[k] == close
      ensures depth + Balance(text, pos, k, open, close) > 1
    {
      CodeIsAhead(text, end, k);
      assert IsCode(text, end, k);
    }
  }

  function Step(c: char, open: char, close: char): int {
    if c == open then 1 else if c == close then -1 else 0
  }

  lemma OpenThroughCode(text: string, pos: nat, depth: int, open: char, close: char, limit: nat)
    requires pos < |text| && LiteralEnd(text, pos).None? && (text[pos] == close && pos < limit ==> depth > 1)
    requires StaysOpen(text, pos + 1, depth + Step(text[pos], open, close), open, close, limit)
    ensures StaysOpen(text, pos, depth, open, close, limit)
  {
    hide LiteralEnd;
    forall k: nat | k < limit && IsCode(text, pos, k) && k < |text| && text[k] == close
      ensures depth + Balance(text, pos, k, open, close) > 1
    {
      if k != pos {
        assert IsCode(text, pos + 1, k);
        CodeIsAhead(text, pos + 1, k);
      }
    }
  }

  /** The bracket found is the first closing one in the code up to which the brackets balance; when
    none is found there is no such bracket. */
  lemma {:induction false} MatchIsFirstBalanced(text: string, pos: nat, depth: nat, open: char, close: char)
    requires pos <= |text| && depth > 0 && open != close
    ensures var r := MatchFrom(text, pos, depth, open, close);
            && StaysOpen(text, pos, depth, open, close, if r.Some? then r.value else |text|)
            && (r.Some? ==> IsCode(text, pos, r.value) && depth + Balance(text, pos, r.value, open, close) == 1)
    decreases |text| - pos
  {
    hide LiteralEnd, StaysOpen;
    var r := MatchFrom(text, pos, depth, open, close);
    var limit := if r.Some? then r.value else |text|;
    if pos == |text| {
      NothingAhead(text, depth, open, close, limit);
    } else if LiteralEnd(text, pos).Some? {
      MatchIsFirstBalanced(text, LiteralEnd(text, pos).value, depth, open, close);
      OpenThroughLiteral(text, pos, depth, open, close, limit);
      if r.Some? { CodeIsAhead(text, LiteralEnd(text, pos).value, r.value); }
    } else if text[pos] == close && depth == 1 {
      NothingBefore(text, pos, depth, open, close);
    } else {
      MatchIsFirstBalanced(text, pos + 1, depth + Step(text[pos], open, close), open, close);
      OpenThroughCode(text, pos, depth, open, close, limit);
    }
  }

  lemma NothingAhead(text: string, depth: int, open: char, close: char, limit: nat)
    ensures StaysOpen(text, |text|, depth, open, close, limit)
  {
  }

  lemma NothingBefore(text: string, pos: nat, depth: int, open: char, close: char)
    requires pos <= |text|
    ensures StaysOpen(text, pos, depth, open, close, pos)
  {
    forall k: nat | k < pos && IsCode(text, pos, k) ensures false
    {
      CodeIsAhead(text, pos, k);
    }
  }

  // ----- what stands in front does not matter -----

  /** The text behind `a` is scanned as if it stood alone, unless a word could run over from `a`. */
  predicate Separates(a: string) {
    a != "" ==> !IsIdentChar(a[|a| - 1])
  }

  lemma StartsAtShifts(a: string, b: string, k: nat, token: string)
    ensures StartsAt(a + b, |a| + k, token) == StartsAt(b, k, token)
  {
    if k + |token| <= |b| {
      assert (a + b)[|a| + k..|a| + k + |token|] == b[k..k + |token|];
    }
  }

  lemma {:induction false} FindShifts(a: string, b: string, piece: string, from: nat)
    requires from <= |b|
    ensures Find(a + b, piece, |a| + from) == |a| + Find(b, piece, from)
    decreases |b| - from
  {
    hide StartsAt;
    StartsAtShifts(a, b, from, piece);
    if from < |b| { FindShifts(a, b, piece, from + 1); }
  }

  lemma {:induction false} QuotedEndShifts(a: string, b: string, pos: nat, quote: char)
    requires pos <= |b|
    ensures QuotedEnd(a + b, |a| + pos, quote) == |a| + QuotedEnd(b, pos, quote)
    decreases |b| - pos
  {
    if pos < |b| {
      if b[pos] == '\\' {
        if pos + 2 <= |b| { QuotedEndShifts(a, b, pos + 2, quote); }
      } else if b[pos] != quote {
        QuotedEndShifts(a, b, pos + 1, quote);
      }
    }
  }

  lemma RawStringEndShifts(a: string, b: string, pos: nat)
    requires StartsAt(b, pos, "R\"")
    ensures StartsAt(a + b, |a| + pos, "R\"") && RawStringEnd(a + b, |a| + pos) == |a| + RawStringEnd(b, pos)
  {
    hide Find;
    StartsAtShifts(a, b, pos, "R\"");
    FindShifts(a, b, "(", pos + 2);
    var open := Find(b, "(", pos + 2);
    if open < |b| {
      assert (a + b)[|a| + pos + 2..|a| + open] == b[pos + 2..open];
      FindShifts(a, b, ")" + b[pos + 2..open] + "\"", open + 1);
    }
  }

  function Moved(n: nat, r: Option<nat>): Option<nat> {
    if r.Some? then Some(n + r.value) else None
  }

  lemma LiteralEndShifts(a: string, b: string, pos: nat)
    requires pos < |b|
    ensures LiteralEnd(a + b, |a| + pos) == Moved(|a|, LiteralEnd(b, pos))
  {
    hide StartsAt, Find, RawStringEnd, QuotedEnd;
    StartsAtShifts(a, b, pos, "//");
    StartsAtShifts(a, b, pos, "/*");
    StartsAtShifts(a, b, pos, "R\"");
    if StartsAt(b, pos, "//") {
      SlashesFit(b, pos, "//");
      FindShifts(a, b, "\n", pos + 2);
    } else if StartsAt(b, pos, "/*") {
      SlashesFit(b, pos, "/*");
      FindShifts(a, b, "*/", pos + 2);
    } else if StartsAt(b, pos, "R\"") {
      RawStringEndShifts(a, b, pos);
    } else {
      QuotedEndShifts(a, b, pos + 1, b[pos]);
    }
  }

  lemma SlashesFit(b: string, pos: nat, token: string)
    requires StartsAt(b, pos, token)
    ensures pos + |token| <= |b|
  {
  }

  lemma {:induction false} TriviaEndShifts(a: string, b: string, pos: nat)
    requires pos <= |b|
    ensures TriviaEnd(a + b, |a| + pos) == |a| + TriviaEnd(b, pos)
    decreases |b| - pos
  {
    hide StartsAt, LiteralEnd;
    if pos < |b| {
      StartsAtShifts(a, b, pos, "//");
      StartsAtShifts(a, b, pos, "/*");
      LiteralEndShifts(a, b, pos);
      if IsSpace(b[pos]) {
        TriviaEndShifts(a, b, pos + 1);
      } else if StartsAt(b, pos, "//") || StartsAt(b, pos, "/*") {
        CommentEnds(b, pos);
        TriviaEndShifts(a, b, LiteralEnd(b, pos).value);
      }
    }
  }

  lemma CommentEnds(b: string, pos: nat)
    requires pos < |b| && (StartsAt(b, pos, "//") || StartsAt(b, pos, "/*"))
    ensures LiteralEnd(b, pos).Some?
  {
  }

  lemma KeywordShifts(a: string, b: string, pos: nat, word: string)
    requires pos <= |b| && Separates(a)
    ensures IsKeywordAt(a + b, |a| + pos, word) == IsKeywordAt(b, pos, word)
  {
    StartsAtShifts(a, b, pos, word);
  }

  lemma {:induction false} MatchFromShifts(a: string, b: string, pos: nat, depth: nat, open: char, close: char)
    requires pos <= |b| && depth > 0 && open != close
    ensures MatchFrom(a + b, |a| + pos, depth, open, close) == Moved(|a|, MatchFrom(b, pos, depth, open, close))
    decreases |b| - pos
  {
    hide LiteralEnd;
    if pos < |b| {
      LiteralEndShifts(a, b, pos);
      var skip := LiteralEnd(b, pos);
      if skip.Some? {
        MatchFromShifts(a, b, skip.value, depth, open, close);
      } else if b[pos] == open {
        MatchFromShifts(a, b, pos + 1, depth + 1, open, close);
      } else if b[pos] != close {
        MatchFromShifts(a, b, pos + 1, depth, open, close);
      } else if depth > 1 {
        MatchFromShifts(a, b, pos + 1, depth - 1, open, close);
      }
    }
  }

  lemma MatchingShifts(a: string, b: string, at: nat, open: char, close: char)
    requires open != close
    ensures Matching(a + b, |a| + at, open, close) == Moved(|a|, Matching(b, at, open, close))
  {
    if at < |b| { MatchFromShifts(a, b, at + 1, 1, open, close); }
  }

  // ----- the scanners -----

  method SkipQuoted(text: string, pos: nat, quote: char) returns (end: nat)
    requires pos < |text|
    ensures end == QuotedEnd(text, pos + 1, quote)
  {
    end := pos + 1;
    while end < |text|
      invariant end <= |text| && QuotedEnd(text, end, quote) == QuotedEnd(text, pos + 1, quote)
    {
      if text[end] == '\\' {
        end := if end + 2 < |text| then end + 2 else |text|;
        continue;
      }
      if text[end] == quote {
        return end + 1;
      }
      end := end + 1;
    }
  }

  /** Moves past a comment or literal, if one starts here. */
  method SkipCommentOrLiteral(text: string, pos: nat) returns (skipped: bool, pos': nat)
    requires pos < |text|
    ensures skipped == LiteralEnd(text, pos).Some?
    ensures pos' == if skipped then LiteralEnd(text, pos).value else pos
  {
    hide StartsAt, RawStringEnd;
    if StartsAt(text, pos, "//") {
      return true, Find(text, "\n", pos + 2);
    }
    if StartsAt(text, pos, "/*") {
      var end := Find(text, "*/", pos + 2);
      return true, if end == |text| then |text| else end + 2;
    }
    if StartsAt(text, pos, "R\"") {
      return true, RawStringEnd(text, pos);
    }
    if text[pos] == '"' || text[pos] == '\'' {
      var end := SkipQuoted(text, pos, text[pos]);
      return true, end;
    }
    return false, pos;
  }

  method SkipTrivia(text: string, pos: nat) returns (end: nat)
    requires pos <= |text|
    ensures end == TriviaEnd(text, pos)
  {
    end := pos;
    while end < |text|
      invariant end <= |text| && TriviaEnd(text, end) == TriviaEnd(text, pos)
    {
      if IsSpace(text[end]) {
        end := end + 1;
        continue;
      }
      var before := end;
      var skipped, next := SkipCommentOrLiteral(text, end);
      if skipped {
        if StartsAt(text, before, "//") || StartsAt(text, before, "/*") {
          end := next;
          continue;
        }
        return before;
      }
      break;
    }
  }

  lemma MatchUnfolds(text: string, pos: nat, depth: nat, open: char, close: char)
    requires pos < |text| && depth > 0 && open != close
    ensures MatchFrom(text, pos, depth, open, close) ==
              var skip := LiteralEnd(text, pos);
              if skip.Some? then MatchFrom(text, skip.value, depth, open, close)
              else if text[pos] == close && depth == 1 then Some(pos)
              else MatchFrom(text, pos + 1, depth + Step(text[pos], open, close), open, close)
  {
    hide LiteralEnd;
  }

  method FindMatching(text: string, at: nat, open: char, close: char) returns (r: Option<nat>)
    requires open != close
    ensures r == Matching(text, at, open, close)
  {
    if at >= |text| || text[at] != open {
      return None;
    }
    r := MatchLoop(text, at + 1, open, close);
  }

  method MatchLoop(text: string, start: nat, open: char, close: char) returns (r: Option<nat>)
    requires start <= |text| && open != close
    ensures r == MatchFrom(text, start, 1, open, close)
  {
    hide LiteralEnd, MatchFrom;
    ghost var goal := MatchFrom(text, start, 1, open, close);
    var depth: nat, pos: nat := 1, start;
    while pos < |text|
      invariant pos <= |text| && depth > 0
      invariant MatchFrom(text, pos, depth, open, close) == goal
    {
      MatchUnfolds(text, pos, depth, open, close);
      var skipped, next := SkipCommentOrLiteral(text, pos);
      if skipped {
        pos := next;
        continue;
      }
      if text[pos] == open {
        depth := depth + 1;
      } else if text[pos] == close {
        depth := depth - 1;
        if depth == 0 {
          return Some(pos);
        }
      }
      pos := pos + 1;
    }
    MatchEnds(text, depth, open, close);
    return None;
  }

  lemma MatchEnds(text: string, depth: nat, open: char, close: char)
    requires depth > 0 && open != close
    ensures MatchFrom(text, |text|, depth, open, close).None?
  {
  }
}
