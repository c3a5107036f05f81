/** What the scanners pass over, in terms of the text: which comments and literals there are, where the first
  keyword stands, and what blank space is.
 */
module ScanningLaws {
  import opened Basics
  import opened ConstexprFolding
  import opened ConstexprTrees
  import opened ConstexprValues
  import opened TextScanning

  // ----- characters -----

  lemma CharacterClasses(c: char)
    ensures IsSpace(c) <==> c in {' ', '\t', '\n', '\r'} || c as int in {11, 12}
    ensures IsDigit(c) <==> '0' as int <= c as int < '0' as int + 10
    ensures IsIdentChar(c) <==> IsDigit(c) || c == '_' || 0 <= c as int - 'a' as int < 26
                                 || 0 <= c as int - 'A' as int < 26
    ensures IsTypeChar(c) <==> IsIdentChar(c) || c == ':'
    ensures IsHexDigit(c) ==> HexDigit(c) < 16 && (IsDigit(c) <==> HexDigit(c) < 10)
  {
    assert '\t' as int == 9 && '\n' as int == 10 && '\r' as int == 13;
  }

  // ----- searching -----

  /** The place found is the first one. */
  lemma {:induction false} FindIsFirst(text: string, piece: string, from: nat, k: nat)
    requires from <= k < |text|
    ensures k < Find(text, piece, from) ==> !StartsAt(text, k, piece)
    ensures k == Find(text, piece, from) ==> StartsAt(text, k, piece)
    decreases |text| - from
  {
    hide StartsAt;
    if !StartsAt(text, from, piece) && from < k { FindIsFirst(text, piece, from + 1, k); }
  }

  lemma {:induction false} FindsNone(text: string, piece: string, from: nat)
    requires from <= |text| && forall k :: from <= k < |text| ==> !StartsAt(text, k, piece)
    ensures Find(text, piece, from) == |text|
    decreases |text| - from
  {
    hide StartsAt;
    if from < |text| { FindsNone(text, piece, from + 1); }
  }

  lemma {:induction false} FindIs(text: string, piece: string, from: nat, at: nat)
    requires from <= at < |text| && StartsAt(text, at, piece)
    requires forall k :: from <= k < at ==> !StartsAt(text, k, piece)
    ensures Find(text, piece, from) == at
    decreases at - from
  {
    hide StartsAt;
    if from < at { FindIs(text, piece, from + 1, at); }
  }

  // ----- comments and literals -----

  datatype Piece =
    | LineComment(body: string)
    | BlockComment(body: string)
    | Quote(mark: char, body: string)
    | Raw(delimiter: string, body: string)

  function Spelled(piece: Piece): (s: string)
    ensures s != ""
  {
    match piece
    case LineComment(body) => "//" + body
    case BlockComment(body) => "/*" + (body + "*/")
    case Quote(mark, body) => [mark] + (body + [mark])
    case Raw(delimiter, body) => "R\"" + (delimiter + ("(" + (body + Closing(delimiter))))
  }

  function Closing(delimiter: string): string {
    ")" + delimiter + "\""
  }

  /** The end does not stand in the body, not even over its end. */
  ghost predicate EndsFirst(body: string, end: string) {
    forall k :: 0 <= k < |body| ==> !StartsAt(body + end, k, end)
  }

  /** Between the marks this is one literal. */
  predicate IsQuotedBody(mark: char, body: string)
    decreases |body|
  {
    if body == "" then true
    else if body[0] == '\\' then |body| >= 2 && IsQuotedBody(mark, body[2..])
    else body[0] != mark && IsQuotedBody(mark, body[1..])
  }

  ghost predicate IsPiece(piece: Piece) {
    match piece
    case LineComment(body) => '\n' !in body
    case BlockComment(body) => EndsFirst(body, "*/")
    case Quote(mark, body) => mark in {'"', '\''} && IsQuotedBody(mark, body)
    case Raw(delimiter, body) => '(' !in delimiter && EndsFirst(body, Closing(delimiter))
  }

  /** A comment up to the end of a line does not take the end of the line along. */
  ghost predicate IsWhole(text: string, p: nat, piece: Piece) {
    && IsPiece(piece) && Holds(text, p, Spelled(piece))
    && (piece.LineComment? ==> p + |Spelled(piece)| == |text| || text[p + |Spelled(piece)|] == '\n')
  }

  lemma TwoCharToken(text: string, p: nat, a: char, b: char)
    ensures StartsAt(text, p, [a, b]) <==> p + 1 < |text| && text[p] == a && text[p + 1] == b
  {
    if p + 1 < |text| { assert text[p..p + 2] == [text[p], text[p + 1]]; }
  }

  /** Comments and literals begin with these characters, and nothing else does. */
  lemma Openers(text: string, p: nat)
    requires p < |text|
    ensures var next := if p + 1 < |text| then text[p + 1] else '\0';
            LiteralEnd(text, p).Some? <==>
              || (text[p] == '/' && next in {'/', '*'}) || (text[p] == 'R' && next == '"') || text[p] in {'"', '\''}
    ensures StartsAt(text, p, "//") <==> p + 1 < |text| && text[p] == '/' && text[p + 1] == '/'
    ensures StartsAt(text, p, "/*") <==> p + 1 < |text| && text[p] == '/' && text[p + 1] == '*'
    ensures StartsAt(text, p, "R\"") <==> p + 1 < |text| && text[p] == 'R' && text[p + 1] == '"'
  {
    hide StartsAt, Find, QuotedEnd, RawStringEnd;
    TwoCharToken(text, p, '/', '/');
    TwoCharToken(text, p, '/', '*');
    TwoCharToken(text, p, 'R', '"');
    assert ['/', '/'] == "//" && ['/', '*'] == "/*" && ['R', '"'] == "R\"";
  }

  /** Where each of them ends. */
  lemma EndOfLiteral(text: string, p: nat)
    requires p < |text|
    ensures StartsAt(text, p, "//") ==> LiteralEnd(text, p) == Some(Find(text, "\n", p + 2))
    ensures StartsAt(text, p, "/*") ==>
              LiteralEnd(text, p) == Some(var at := Find(text, "*/", p + 2); if at == |text| then at else at + 2)
    ensures StartsAt(text, p, "R\"") ==> LiteralEnd(text, p) == Some(RawStringEnd(text, p))
    ensures text[p] in {'"', '\''} ==> LiteralEnd(text, p) == Some(QuotedEnd(text, p + 1, text[p]))
  {
    hide StartsAt, Find, QuotedEnd, RawStringEnd;
    Openers(text, p);
  }

  /** A token within a slice stands there in the text. */
  lemma SliceStarts(text: string, p: nat, s: string, k: nat, token: string)
    requires Holds(text, p, s) && k + |token| <= |s|
    ensures StartsAt(text, p + k, token) <==> StartsAt(s, k, token)
  {
    var here, there := s[k..k + |token|], text[p + k..p + k + |token|];
    forall i | 0 <= i < |token| ensures here[i] == there[i] {
      HoldsAt(text, p, s, k + i);
    }
    assert here == there;
  }

  /** Where the body of a piece is followed by its end, the end is found there. */
  lemma EndIsFound(text: string, p: nat, body: string, end: string)
    requires Holds(text, p, body + end) && EndsFirst(body, end) && end != ""
    ensures Find(text, end, p) == p + |body|
  {
    HoldsParts(text, p, body, end);
    forall k | p <= k < p + |body| ensures !StartsAt(text, k, end) {
      SliceStarts(text, p, body + end, k - p, end);
    }
    FindIs(text, end, p, p + |body|);
  }

  lemma {:induction false} QuotedBodyEnds(text: string, p: nat, mark: char, body: string)
    requires IsQuotedBody(mark, body) && mark != '\\' && Holds(text, p, body + [mark])
    ensures QuotedEnd(text, p, mark) == p + |body| + 1
    decreases |body|
  {
    HoldsAt(text, p, body + [mark], 0);
    if body == "" {
      assert (body + [mark])[0] == mark;
    } else {
      assert (body + [mark])[0] == body[0];
      var n := if body[0] == '\\' then 2 else 1;
      assert body + [mark] == body[..n] + (body[n..] + [mark]);
      HoldsParts(text, p, body[..n], body[n..] + [mark]);
      QuotedBodyEnds(text, p + n, mark, body[n..]);
    }
  }

  lemma HoldStarts(text: string, p: nat, token: string)
    requires Holds(text, p, token)
    ensures StartsAt(text, p, token) && p + |token| <= |text|
  {
  }

  lemma LineCommentEnds(text: string, p: nat, body: string)
    requires Holds(text, p, "//" + body) && '\n' !in body
    requires p + 2 + |body| == |text| || text[p + 2 + |body|] == '\n'
    ensures p < |text| && LiteralEnd(text, p) == Some(p + 2 + |body|)
  {
    hide Find, LiteralEnd, StartsAt, Holds;
    HoldsParts(text, p, "//", body);
    HoldStarts(text, p, "//");
    HoldStarts(text, p + 2, body);
    EndOfLiteral(text, p);
    var end := p + 2 + |body|;
    forall k | p + 2 <= k < end ensures !StartsAt(text, k, "\n") {
      HoldsAt(text, p + 2, body, k - p - 2);
      OneCharToken(text, k, '\n');
    }
    if end < |text| {
      OneCharToken(text, end, '\n');
      FindIs(text, "\n", p + 2, end);
    } else {
      FindsNone(text, "\n", p + 2);
    }
  }

  lemma BlockCommentEnds(text: string, p: nat, body: string)
    requires Holds(text, p, "/*" + (body + "*/")) && EndsFirst(body, "*/")
    ensures p < |text| && LiteralEnd(text, p) == Some(p + 4 + |body|)
  {
    hide Find, EndsFirst, LiteralEnd, StartsAt, Holds;
    HoldsParts(text, p, "/*", body + "*/");
    HoldStarts(text, p, "/*");
    HoldStarts(text, p + 2, body + "*/");
    EndOfLiteral(text, p);
    EndIsFound(text, p + 2, body, "*/");
  }

  lemma QuoteEnds(text: string, p: nat, mark: char, body: string)
    requires Holds(text, p, [mark] + (body + [mark])) && mark in {'"', '\''} && IsQuotedBody(mark, body)
    ensures p < |text| && LiteralEnd(text, p) == Some(p + 2 + |body|)
  {
    hide QuotedEnd, LiteralEnd, StartsAt;
    HoldsParts(text, p, [mark], body + [mark]);
    HoldsAt(text, p, [mark], 0);
    EndOfLiteral(text, p);
    QuotedBodyEnds(text, p + 1, mark, body);
  }

  lemma RawEnds(text: string, p: nat, delimiter: string, body: string)
    requires Holds(text, p, "R\"" + (delimiter + ("(" + (body + Closing(delimiter)))))
    requires '(' !in delimiter && EndsFirst(body, Closing(delimiter))
    ensures p < |text| && LiteralEnd(text, p) == Some(p + 3 + |delimiter| + |body| + |Closing(delimiter)|)
  {
    hide Find, EndsFirst, LiteralEnd, StartsAt, Holds, Closing;
    var open, end := p + 2 + |delimiter|, Closing(delimiter);
    HoldsParts(text, p, "R\"", delimiter + ("(" + (body + end)));
    HoldsParts(text, p + 2, delimiter, "(" + (body + end));
    HoldsParts(text, open, "(", body + end);
    HoldStarts(text, p, "R\"");
    HoldStarts(text, open, "(");
    HoldStarts(text, open + 1, body + end);
    EndOfLiteral(text, p);
    forall k | p + 2 <= k < open ensures !StartsAt(text, k, "(") {
      HoldsAt(text, p + 2, delimiter, k - p - 2);
      OneCharToken(text, k, '(');
    }
    FindIs(text, "(", p + 2, open);
    DelimiterHere(text, p, delimiter);
    EndIsFound(text, open + 1, body, end);
  }

  lemma DelimiterHere(text: string, p: nat, delimiter: string)
    requires Holds(text, p + 2, delimiter)
    ensures p + 2 + |delimiter| <= |text| && text[p + 2..p + 2 + |delimiter|] == delimiter
    ensures ")" + text[p + 2..p + 2 + |delimiter|] + "\"" == Closing(delimiter) && Closing(delimiter) != ""
  {
  }

  /** A comment or literal that is closed is passed over as a whole. */
  lemma PieceIsSkipped(text: string, p: nat, piece: Piece)
    requires IsWhole(text, p, piece)
    ensures p < |text| && LiteralEnd(text, p) == Some(p + |Spelled(piece)|)
  {
    hide LiteralEnd, EndsFirst, IsQuotedBody, Holds, Closing;
    match piece
    case LineComment(body) => LineCommentEnds(text, p, body);
    case BlockComment(body) => BlockCommentEnds(text, p, body);
    case Quote(mark, body) => QuoteEnds(text, p, mark, body);
    case Raw(delimiter, body) => RawEnds(text, p, delimiter, body);
  }

  // ----- what is passed over before the end of the text is closed -----

  lemma {:induction false} QuotedEndCloses(text: string, p: nat, mark: char)
    requires p <= |text| && mark != '\\' && QuotedEnd(text, p, mark) < |text|
    ensures var end := QuotedEnd(text, p, mark);
            p < end && text[end - 1] == mark && IsQuotedBody(mark, text[p..end - 1])
    decreases |text| - p
  {
    if text[p] != mark || text[p] == '\\' {
      var n := if text[p] == '\\' then 2 else 1;
      QuotedEndCloses(text, p + n, mark);
      var end := QuotedEnd(text, p, mark);
      assert text[p..end - 1][0] == text[p] && text[p..end - 1][n..] == text[p + n..end - 1];
    } else {
      assert text[p..p] == "";
    }
  }

  /** The body before the place found, and the end found there. */
  lemma FoundEnd(text: string, p: nat, end: string)
    requires p <= |text| && end != "" && Find(text, end, p) < |text|
    ensures var at := Find(text, end, p); Holds(text, p, text[p..at] + end) && EndsFirst(text[p..at], end)
  {
    hide Find;
    var at := Find(text, end, p);
    var body := text[p..at];
    HoldsParts(text, p, body, end);
    forall k | 0 <= k < |body| ensures !StartsAt(body + end, k, end) {
      FindIsFirst(text, end, p, p + k);
      SliceStarts(text, p, body + end, k, end);
    }
  }

  lemma StartsHold(text: string, p: nat, token: string)
    requires StartsAt(text, p, token)
    ensures Holds(text, p, token)
  {
  }

  lemma BlockIsClosed(text: string, p: nat, end: nat) returns (piece: Piece)
    requires p < |text| && StartsAt(text, p, "/*") && LiteralEnd(text, p) == Some(end) && end < |text|
    ensures IsWhole(text, p, piece) && end == p + |Spelled(piece)|
  {
    hide Find, EndsFirst, LiteralEnd, StartsAt;
    Openers(text, p);
    EndOfLiteral(text, p);
    StartsHold(text, p, "/*");
    var at := Find(text, "*/", p + 2);
    FoundEnd(text, p + 2, "*/");
    HoldsParts(text, p, "/*", text[p + 2..at] + "*/");
    piece := BlockComment(text[p + 2..at]);
  }

  lemma LineIsClosed(text: string, p: nat, end: nat) returns (piece: Piece)
    requires p < |text| && StartsAt(text, p, "//") && LiteralEnd(text, p) == Some(end) && end < |text|
    ensures IsWhole(text, p, piece) && end == p + |Spelled(piece)|
  {
    hide Find, LiteralEnd, StartsAt;
    EndOfLiteral(text, p);
    StartsHold(text, p, "//");
    var body := text[p + 2..end];
    FindIsFirst(text, "\n", p + 2, end);
    OneCharToken(text, end, '\n');
    forall c | c in body ensures c != '\n' {
      var k :| 0 <= k < |body| && body[k] == c;
      FindIsFirst(text, "\n", p + 2, p + 2 + k);
      OneCharToken(text, p + 2 + k, '\n');
    }
    HoldsParts(text, p, "//", body);
    piece := LineComment(body);
  }

  lemma QuoteIsClosed(text: string, p: nat, end: nat) returns (piece: Piece)
    requires p < |text| && text[p] in {'"', '\''} && LiteralEnd(text, p) == Some(end) && end < |text|
    ensures IsWhole(text, p, piece) && end == p + |Spelled(piece)|
  {
    hide QuotedEnd, LiteralEnd, StartsAt;
    EndOfLiteral(text, p);
    var mark := text[p];
    QuotedEndCloses(text, p + 1, mark);
    var body := text[p + 1..end - 1];
    assert text[p..end] == [mark] + (body + [mark]);
    piece := Quote(mark, body);
  }

  lemma RawIsClosed(text: string, p: nat, end: nat) returns (piece: Piece)
    requires p < |text| && StartsAt(text, p, "R\"") && LiteralEnd(text, p) == Some(end) && end < |text|
    ensures IsWhole(text, p, piece) && end == p + |Spelled(piece)|
  {
    hide Find, EndsFirst, LiteralEnd, StartsAt, Holds, Closing;
    EndOfLiteral(text, p);
    StartsHold(text, p, "R\"");
    HoldStarts(text, p, "R\"");
    var open := Find(text, "(", p + 2);
    var delimiter := text[p + 2..open];
    NoneBefore(text, p + 2, open);
    DelimiterHere(text, p, delimiter) by { SliceHolds(text, p + 2, open); }
    var close := Closing(delimiter);
    var at := Find(text, close, open + 1);
    var body := text[open + 1..at];
    FindIsFirst(text, "(", p + 2, open);
    StartsHold(text, open, "(");
    FoundEnd(text, open + 1, close);
    SliceHolds(text, p + 2, open);
    HoldsParts(text, open, "(", body + close);
    HoldsParts(text, p + 2, delimiter, "(" + (body + close));
    HoldsParts(text, p, "R\"", delimiter + ("(" + (body + close)));
    piece := Raw(delimiter, body);
  }

  lemma SliceHolds(text: string, p: nat, q: nat)
    requires p <= q <= |text|
    ensures Holds(text, p, text[p..q])
  {
  }

  /** No bracket stands before the first one. */
  lemma NoneBefore(text: string, p: nat, open: nat)
    requires p <= open <= |text| && open == Find(text, "(", p)
    ensures '(' !in text[p..open]
  {
    var before := text[p..open];
    forall c | c in before ensures c != '(' {
      var k :| 0 <= k < |before| && before[k] == c;
      FindIsFirst(text, "(", p, p + k);
      OneCharToken(text, p + k, '(');
    }
  }

  /** What is passed over is a comment or literal that is closed, or goes on to the end of the text. */
  lemma SkippedIsPiece(text: string, p: nat, end: nat)
    requires p < |text| && LiteralEnd(text, p) == Some(end)
    ensures end == |text| || exists piece :: IsWhole(text, p, piece) && end == p + |Spelled(piece)|
  {
    hide LiteralEnd, IsPiece, Holds;
    Openers(text, p);
    if end < |text| {
      var piece;
      if StartsAt(text, p, "//") {
        piece := LineIsClosed(text, p, end);
      } else if StartsAt(text, p, "/*") {
        piece := BlockIsClosed(text, p, end);
      } else if StartsAt(text, p, "R\"") {
        piece := RawIsClosed(text, p, end);
      } else {
        piece := QuoteIsClosed(text, p, end);
      }
    }
  }

  // ----- blank space and keywords -----

  /** Only blank space and comments stand here. */
  ghost predicate IsTrivia(text: string, from: nat, to: nat)
    requires from <= |text|
    decreases |text| - from
  {
    || from == to
    || (from < |text| && IsSpace(text[from]) && IsTrivia(text, from + 1, to))
    || (from < |text| && IsCommentAt(text, from) && LiteralEnd(text, from).Some?
        && IsTrivia(text, LiteralEnd(text, from).value, to))
  }

  predicate IsCommentAt(text: string, p: nat)
    requires p < |text|
  {
    text[p] == '/' && p + 1 < |text| && text[p + 1] in {'/', '*'}
  }

  /** Blank space and comments are passed over, as far as they go. */
  lemma {:induction false} TriviaIsPassed(text: string, p: nat)
    requires p <= |text|
    ensures var end := TriviaEnd(text, p);
            && IsTrivia(text, p, end)
            && (end < |text| ==> !IsSpace(text[end]) && !IsCommentAt(text, end))
    decreases |text| - p
  {
    hide LiteralEnd, StartsAt, IsSpace;
    if p < |text| {
      Openers(text, p);
      if IsSpace(text[p]) {
        TriviaIsPassed(text, p + 1);
      } else if IsCommentAt(text, p) {
        TriviaIsPassed(text, LiteralEnd(text, p).value);
      }
    }
  }

  /** The keyword found is the first one in the code. */
  lemma {:induction false} KeywordIsFirst(text: string, p: nat, word: string, k: nat)
    requires p <= |text| && IsCode(text, p, k) && k <= |text|
    ensures k < NextKeyword(text, p, word) ==> !IsKeywordAt(text, k, word)
    ensures k == NextKeyword(text, p, word) ==> IsKeywordAt(text, k, word)
    decreases |text| - p
  {
    hide LiteralEnd, IsKeywordAt;
    CodeIsAhead(text, p, k);
    if LiteralEnd(text, p).Some? {
      KeywordIsFirst(text, LiteralEnd(text, p).value, word, k);
    } else if !IsKeywordAt(text, p, word) && k != p {
      KeywordIsFirst(text, p + 1, word, k);
    }
  }

  lemma {:induction false} KeywordIsCode(text: string, p: nat, word: string)
    requires p <= |text| && NextKeyword(text, p, word) < |text|
    ensures IsCode(text, p, NextKeyword(text, p, word))
    decreases |text| - p
  {
    hide LiteralEnd, IsKeywordAt;
    if LiteralEnd(text, p).Some? {
      KeywordIsCode(text, LiteralEnd(text, p).value, word);
    } else if !IsKeywordAt(text, p, word) {
      KeywordIsCode(text, p + 1, word);
    }
  }

  /** A keyword is a word of its own. */
  lemma KeywordIsWord(text: string, p: nat, word: string)
    requires p <= |text|
    ensures IsKeywordAt(text, p, word) <==>
              && Holds(text, p, word) && (p > 0 ==> !IsIdentChar(text[p - 1]))
              && (p + |word| < |text| ==> !IsIdentChar(text[p + |word|]))
  {
  }

  /** And so is the conditional found, of two keywords. */
  lemma {:induction false} ConditionalIsFirst(text: string, p: nat, k: nat)
    requires p <= |text| && IsCode(text, p, k) && k <= |text|
    ensures k < NextConditional(text, p) ==> !IsConditionalAt(text, k)
    ensures k == NextConditional(text, p) ==> IsConditionalAt(text, k)
    decreases |text| - p
  {
    hide LiteralEnd, IsConditionalAt;
    CodeIsAhead(text, p, k);
    if LiteralEnd(text, p).Some? {
      ConditionalIsFirst(text, LiteralEnd(text, p).value, k);
    } else if !IsConditionalAt(text, p) && k != p {
      ConditionalIsFirst(text, p + 1, k);
    }
  }

  lemma {:induction false} ConditionalIsCode(text: string, p: nat)
    requires p <= |text| && NextConditional(text, p) < |text|
    ensures IsCode(text, p, NextConditional(text, p))
    decreases |text| - p
  {
    hide LiteralEnd, IsConditionalAt;
    if LiteralEnd(text, p).Some? {
      ConditionalIsCode(text, LiteralEnd(text, p).value);
    } else if !IsConditionalAt(text, p) {
      ConditionalIsCode(text, p + 1);
    }
  }
}
