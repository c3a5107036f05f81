/** Characters, tokens, literals and checked 64-bit arithmetic of compile-time conditions. */
module ConstexprValues {
  import opened Basics

  const INT64_MIN: int := -0x8000_0000_0000_0000
  const INT64_MAX: int := 0x7FFF_FFFF_FFFF_FFFF

  predicate InRange(v: int) {
    INT64_MIN <= v <= INT64_MAX
  }

  datatype Error =
    | Overflow
    | DivisionByZero
    | RemainderByZero
    | Syntax(message: string)

  // ----- characters -----

  predicate IsSpace(c: char) {
    c == ' ' || 9 <= c as int <= 13
  }

  predicate IsDigit(c: char) {
    '0' <= c <= '9'
  }

  predicate IsHexDigit(c: char) {
    IsDigit(c) || 'a' <= c <= 'f' || 'A' <= c <= 'F'
  }

  predicate IsIdentChar(c: char) {
    IsDigit(c) || 'a' <= c <= 'z' || 'A' <= c <= 'Z' || c == '_'
  }

  predicate IsSuffixChar(c: char) {
    c == 'u' || c == 'U' || c == 'l' || c == 'L'
  }

  predicate IsTypeChar(c: char) {
    IsIdentChar(c) || c == ':'
  }

  /** The end of the longest run of such characters from a position. */
  function RunEnd(text: string, pos: nat, p: char -> bool): (end: nat)
    requires pos <= |text|
    ensures pos <= end <= |text|
    ensures forall k :: pos <= k < end ==> p(text[k])
    ensures end < |text| ==> !p(text[end])
    decreases |text| - pos
  {
    if pos < |text| && p(text[pos]) then RunEnd(text, pos + 1, p) else pos
  }

  lemma {:induction false} RunEndIs(text: string, pos: nat, p: char -> bool, end: nat)
    requires pos <= end <= |text| && (forall k :: pos <= k < end ==> p(text[k])) && (end < |text| ==> !p(text[end]))
    ensures RunEnd(text, pos, p) == end
    decreases end - pos
  {
    if pos < end { RunEndIs(text, pos + 1, p, end); }
  }

  function Skip(text: string, pos: nat): (end: nat)
    requires pos <= |text|
    ensures pos <= end <= |text|
  {
    RunEnd(text, pos, IsSpace)
  }

  lemma SkipTwice(text: string, pos: nat)
    requires pos <= |text|
    ensures Skip(text, Skip(text, pos)) == Skip(text, pos)
  {
  }

  predicate StartsAt(text: string, pos: nat, token: string) {
    pos + |token| <= |text| && text[pos..pos + |token|] == token
  }

  /** The word stands here and does not go on. */
  predicate WordAt(text: string, pos: nat, word: string): (found: bool)
    ensures found ==> pos + |word| <= |text|
  {
    StartsAt(text, pos, word) && EndsWord(text, pos + |word|)
  }

  predicate EndsWord(text: string, pos: nat) {
    pos < |text| ==> !IsIdentChar(text[pos])
  }

  // ----- integer literals -----

  function HexDigit(c: char): nat
    requires IsHexDigit(c)
  {
    if IsDigit(c) then c as int - '0' as int
    else if 'a' <= c <= 'f' then c as int - 'a' as int + 10
    else c as int - 'A' as int + 10
  }

  /** The number a run of digits spells, if each is below the base. */
  function Digits(s: string, base: nat): Option<nat> {
    if s == [] then Some(0)
    else
      var front, c := Digits(s[..|s| - 1], base), s[|s| - 1];
      if front.Some? && IsHexDigit(c) && HexDigit(c) < base then Some(front.value * base + HexDigit(c)) else None
  }

  predicate HasHexPrefix(s: string) {
    |s| >= 2 && s[0] == '0' && (s[1] == 'x' || s[1] == 'X')
  }

  /** A spelling of a 64-bit literal: hexadecimal, octal or decimal by its first characters. */
  function LiteralValue(s: string): (r: Option<int>)
    ensures r.Some? ==> 0 <= r.value <= INT64_MAX
  {
    if s == [] then None
    else
      var v := if HasHexPrefix(s) then (if |s| > 2 then Digits(s[2..], 16) else None)
               else if s[0] == '0' then Digits(s, 8)
               else Digits(s, 10);
      if v.Some? && v.value <= INT64_MAX then Some(v.value) else None
  }

  /** Where the digits of a literal end. */
  function NumberEnd(text: string, pos: nat): (end: nat)
    requires pos <= |text|
    ensures pos <= end <= |text|
  {
    if HasHexPrefix(text[pos..]) then RunEnd(text, pos + 2, IsHexDigit) else RunEnd(text, pos, IsDigit)
  }

  // ----- scalar types -----

  function CanonicalType(name: string): Option<string> {
    var names := map[
      "f64" := "f64", "double" := "f64", "f32" := "f32", "float" := "f32", "tf32" := "tf32",
      "f16" := "f16", "half" := "f16", "bf16" := "bf16", "bfp16" := "bf16",
      "f8" := "f8_e4m3", "f8_e4m3" := "f8_e4m3", "f8_e5m2" := "f8_e5m2", "f8_ue4m3" := "f8_ue4m3",
      "f8_ue8m0" := "f8_ue8m0", "f6_e2m3" := "f6_e2m3", "f6_e3m2" := "f6_e3m2", "f4_e2m1" := "f4_e2m1",
      "u64" := "u64", "s64" := "s64", "u32" := "u32", "s32" := "s32", "int" := "s32", "u16" := "u16",
      "s16" := "s16", "u8" := "u8", "s8" := "s8", "u6" := "u6", "s6" := "s6", "u4" := "u4", "s4" := "s4",
      "u2" := "u2", "s2" := "s2", "bin1" := "bin1", "u1" := "u1", "bool" := "bool"];
    if name in names then Some(names[name]) else None
  }

  function StripNamespace(name: string): string {
    if "choreo::" <= name then name[8..] else name
  }

  // ----- operators -----

  datatype Op = OrOp | AndOp | EqOp | NeOp | LeOp | GeOp | LtOp | GtOp | AddOp | SubOp | MulOp | DivOp | RemOp

  function Spelling(op: Op): (s: string)
    ensures |s| > 0
  {
    match op
    case OrOp => "||"
    case AndOp => "&&"
    case EqOp => "=="
    case NeOp => "!="
    case LeOp => "<="
    case GeOp => ">="
    case LtOp => "<"
    case GtOp => ">"
    case AddOp => "+"
    case SubOp => "-"
    case MulOp => "*"
    case DivOp => "/"
    case RemOp => "%"
  }

  const UNARY := 6

  function LevelOf(op: Op): (level: nat)
    ensures level < UNARY
  {
    match op
    case OrOp => 0
    case AndOp => 1
    case EqOp => 2
    case NeOp => 2
    case LeOp => 3
    case GeOp => 3
    case LtOp => 3
    case GtOp => 3
    case AddOp => 4
    case SubOp => 4
    case _ => 5
  }

  /** The operator of a level at a position, in the order the parser tries them. */
  function OpAt(level: nat, text: string, pos: nat): (r: Option<Op>)
    ensures r.Some? ==> LevelOf(r.value) == level && StartsAt(text, pos, Spelling(r.value))
  {
    if level == 0 then (if StartsAt(text, pos, "||") then Some(OrOp) else None)
    else if level == 1 then (if StartsAt(text, pos, "&&") then Some(AndOp) else None)
    else if level == 2 then
      (if StartsAt(text, pos, "==") then Some(EqOp) else if StartsAt(text, pos, "!=") then Some(NeOp) else None)
    else if level == 3 then
      (if StartsAt(text, pos, "<=") then Some(LeOp) else if StartsAt(text, pos, ">=") then Some(GeOp)
       else if StartsAt(text, pos, "<") then Some(LtOp) else if StartsAt(text, pos, ">") then Some(GtOp) else None)
    else if level == 4 then
      (if StartsAt(text, pos, "+") then Some(AddOp) else if StartsAt(text, pos, "-") then Some(SubOp) else None)
    else if level == 5 then
      (if StartsAt(text, pos, "*") then Some(MulOp) else if StartsAt(text, pos, "/") then Some(DivOp)
       else if StartsAt(text, pos, "%") then Some(RemOp) else None)
    else None
  }

  predicate IsOpChar(c: char) {
    c in "|&=!<>+-*/%"
  }

  lemma TokenChars(text: string, pos: nat, op: Op)
    ensures StartsAt(text, pos, Spelling(op)) ==>
              && pos + |Spelling(op)| <= |text| && IsOpChar(text[pos]) && text[pos] == Spelling(op)[0]
              && (|Spelling(op)| == 2 ==> text[pos + 1] == Spelling(op)[1])
  {
  }

  lemma NoOpAt(level: nat, text: string, pos: nat)
    requires pos <= |text| && (pos < |text| ==> !IsOpChar(text[pos]))
    ensures OpAt(level, text, pos).None?
  {
    hide IsOpChar, StartsAt;
    forall op { TokenChars(text, pos, op); }
  }

  /** An operator not followed by an equals sign is found at its own level and at no other. */
  lemma OpAtIs(op: Op, text: string, pos: nat)
    requires StartsAt(text, pos, Spelling(op))
    requires pos + |Spelling(op)| < |text| ==> text[pos + |Spelling(op)|] != '='
    ensures OpAt(LevelOf(op), text, pos) == Some(op)
    ensures forall level: nat :: level != LevelOf(op) ==> OpAt(level, text, pos).None?
  {
    hide OpAt;
    forall level: nat ensures OpAt(level, text, pos) == if level == LevelOf(op) then Some(op) else None
    {
      OpAtLevelIs(op, level, text, pos);
    }
  }

  lemma OpAtLevelIs(op: Op, level: nat, text: string, pos: nat)
    requires StartsAt(text, pos, Spelling(op))
    requires pos + |Spelling(op)| < |text| ==> text[pos + |Spelling(op)|] != '='
    ensures OpAt(level, text, pos) == if level == LevelOf(op) then Some(op) else None
  {
    hide IsOpChar, StartsAt;
    TokenChars(text, pos, op);
    var r := OpAt(level, text, pos);
    if r.Some? { TokenChars(text, pos, r.value); }
  }

  // ----- checked arithmetic -----

  function Abs(a: int): nat {
    if a < 0 then -a else a
  }

  /** Division of C: toward zero. */
  function TruncatedQuotient(a: int, b: int): int
    requires b != 0
  {
    var q := Abs(a) / Abs(b);
    if (a < 0) == (b < 0) then q else -q
  }

  /** The remainder takes the sign of the dividend. */
  function TruncatedRemainder(a: int, b: int): int
    requires b != 0
  {
    var r := Abs(a) % Abs(b);
    if a < 0 then -r else r
  }

  lemma {:induction false} MultipleGrows(q: nat, d: nat)
    requires d > 0
    ensures q * d >= q && (d >= 2 ==> q * d >= 2 * q)
    decreases d
  {
    if d > 1 {
      MultipleGrows(q, d - 1);
      assert q * d == q * (d - 1) + q;
    }
  }

  lemma DivisionShrinks(m: nat, d: nat)
    requires d > 0
    ensures 0 <= m / d <= m && (d >= 2 ==> 2 * (m / d) <= m) && 0 <= m % d <= m
  {
    var q, r := m / d, m % d;
    DivisionParts(m, d);
    MultipleGrows(q, d);
  }

  lemma DivisionParts(m: nat, d: nat)
    requires d > 0
    ensures m / d * d + m % d == m && m / d >= 0 && m % d >= 0
  {
  }

  lemma DivisionInRange(a: int, b: int)
    requires InRange(a) && InRange(b) && b != 0
    ensures !(a == INT64_MIN && b == -1) ==> InRange(TruncatedQuotient(a, b))
    ensures InRange(TruncatedRemainder(a, b))
  {
    DivisionShrinks(Abs(a), Abs(b));
  }

  datatype Outcome = Val(value: int) | Fault(error: Error)

  function Checked(v: int): Outcome {
    if InRange(v) then Val(v) else Fault(Overflow)
  }

  function Truth(b: bool): int {
    if b then 1 else 0
  }

  /** Both operands evaluated. */
  function Apply(op: Op, a: int, b: int): Outcome
  {
    match op
    case OrOp => Val(Truth(a != 0 || b != 0))
    case AndOp => Val(Truth(a != 0 && b != 0))
    case EqOp => Val(Truth(a == b))
    case NeOp => Val(Truth(a != b))
    case LeOp => Val(Truth(a <= b))
    case GeOp => Val(Truth(a >= b))
    case LtOp => Val(Truth(a < b))
    case GtOp => Val(Truth(a > b))
    case AddOp => Checked(a + b)
    case SubOp => Checked(a - b)
    case MulOp => Checked(a * b)
    case DivOp =>
      if b == 0 then Fault(DivisionByZero)
      else if a == INT64_MIN && b == -1 then Fault(Overflow)
      else Val(TruncatedQuotient(a, b))
    case RemOp =>
      if b == 0 then Fault(RemainderByZero)
      else if a == INT64_MIN && b == -1 then Fault(Overflow)
      else Val(TruncatedRemainder(a, b))
  }

  lemma ApplyInRange(op: Op, a: int, b: int)
    requires InRange(a) && InRange(b)
    ensures Apply(op, a, b).Val? ==> InRange(Apply(op, a, b).value)
  {
    hide TruncatedQuotient, TruncatedRemainder;
    if b != 0 { DivisionInRange(a, b); }
  }
}
