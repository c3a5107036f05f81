/** What the operators, numerals and type names of compile-time conditions mean, in laws that do not compute
  them.
 */
module ConstexprLaws {
  import opened Basics
  import opened ConstexprValues

  // ----- division -----

  /** Quotient and remainder belong together, and the remainder is smaller than the divisor and takes the sign of
    the dividend. */
  ghost predicate Divides(a: int, b: int, q: int, r: int) {
    && a == q * b + r && Abs(r) < Abs(b)
    && (r > 0 ==> a > 0) && (r < 0 ==> a < 0)
  }

  lemma DivisionTruncates(a: int, b: int)
    requires b != 0
    ensures Divides(a, b, TruncatedQuotient(a, b), TruncatedRemainder(a, b))
  {
    var m: int, d: int := Abs(a), Abs(b);
    var q: int := m / d;
    DivisionParts(m, d);
    assert q * -d == -(q * d) && -q * d == -(q * d) && -q * -d == q * d;
  }

  /** There are no other two such numbers. */
  lemma DivisionIsUnique(a: int, b: int, q: int, r: int)
    requires b != 0 && Divides(a, b, q, r)
    ensures q == TruncatedQuotient(a, b) && r == TruncatedRemainder(a, b)
  {
    DivisionTruncates(a, b);
    var q', r' := TruncatedQuotient(a, b), TruncatedRemainder(a, b);
    assert (q - q') * b == r' - r;
    if q != q' { MultipleIsFar(q - q', b); }
  }

  lemma MultipleIsFar(k: int, b: int)
    requires k != 0
    ensures Abs(k * b) >= Abs(b)
  {
    MultipleGrows(Abs(b), Abs(k));
    assert Abs(k * b) == Abs(k) * Abs(b);
  }

  lemma QuotientLaws(a: int, b: int)
    requires InRange(a) && InRange(b)
    ensures Apply(DivOp, a, b) == Fault(DivisionByZero) <==> b == 0
    ensures Apply(RemOp, a, b) == Fault(RemainderByZero) <==> b == 0
    ensures Apply(DivOp, a, b) == Fault(Overflow) <==> a == INT64_MIN && b == -1
    ensures Apply(RemOp, a, b) == Fault(Overflow) <==> a == INT64_MIN && b == -1
    ensures Apply(DivOp, a, b).Val? <==> Apply(RemOp, a, b).Val?
    ensures Apply(DivOp, a, b).Val? ==> Divides(a, b, Apply(DivOp, a, b).value, Apply(RemOp, a, b).value)
  {
    if b != 0 { DivisionTruncates(a, b); }
  }

  // ----- sums and products -----

  /** A sum is what takes back to either summand, and fails exactly if nothing in range does; a difference is what
    adds up. */
  lemma SumLaws(a: int, b: int)
    requires InRange(a) && InRange(b)
    ensures forall c :: Apply(AddOp, a, b) == Val(c) <==> InRange(c) && c - a == b
    ensures forall c :: Apply(SubOp, a, b) == Val(c) <==> InRange(c) && Apply(AddOp, c, b) == Val(a)
    ensures Apply(AddOp, a, b).Val? || Apply(AddOp, a, b) == Fault(Overflow)
    ensures Apply(SubOp, a, b).Val? || Apply(SubOp, a, b) == Fault(Overflow)
  {
  }

  /** Products from sums: nothing times `b` is nothing, one more time adds `b`, and the sign changes with either. */
  lemma ProductLaws(a: int, b: int, c: int)
    requires InRange(a) && InRange(b)
    ensures Apply(MulOp, 0, b) == Val(0)
    ensures a >= 0 && Apply(MulOp, a, b) == Val(c) ==> Apply(MulOp, a + 1, b) == Apply(AddOp, c, b)
    ensures Apply(MulOp, a, b) == Apply(MulOp, b, a)
    ensures InRange(-c) && Apply(MulOp, a, b) == Val(c) ==> Apply(MulOp, -a, b) == Val(-c)
    ensures Apply(MulOp, a, b).Val? || Apply(MulOp, a, b) == Fault(Overflow)
    ensures Apply(MulOp, a, b).Val? <==> exists p :: InRange(p) && p == a * b
  {
    assert (a + 1) * b == a * b + b && -a * b == -(a * b) && a * b == b * a;
  }

  // ----- comparisons and connectives -----

  predicate Holds(op: Op, a: int, b: int) {
    Apply(op, a, b) == Val(1)
  }

  /** Comparisons are 1 or 0, and all of them come from `<` and `==`, which are order and equality. */
  lemma ComparisonLaws(a: int, b: int)
    ensures forall op :: 2 <= LevelOf(op) <= 3 ==> Apply(op, a, b) == Val(1) || Apply(op, a, b) == Val(0)
    ensures Holds(EqOp, a, b) <==> a == b
    ensures Holds(LtOp, a, b) <==> b - a > 0
    ensures Holds(NeOp, a, b) <==> !Holds(EqOp, a, b)
    ensures Holds(LeOp, a, b) <==> Holds(LtOp, a, b) || Holds(EqOp, a, b)
    ensures Holds(GtOp, a, b) <==> Holds(LtOp, b, a)
    ensures Holds(GeOp, a, b) <==> Holds(LeOp, b, a)
  {
  }

  /** Any number but 0 counts as true. */
  lemma ConnectiveLaws(a: int, b: int)
    ensures forall op :: LevelOf(op) < 2 ==> Apply(op, a, b) == Val(1) || Apply(op, a, b) == Val(0)
    ensures Holds(AndOp, a, b) <==> a != 0 && b != 0
    ensures !Holds(OrOp, a, b) <==> a == 0 && b == 0
  {
  }

  /** The operators bind as in C, from the loosest to the tightest. */
  lemma OperatorsBindAsInC()
    ensures LevelOf(OrOp) < LevelOf(AndOp) < LevelOf(EqOp) == LevelOf(NeOp) < LevelOf(LtOp) == LevelOf(LeOp)
    ensures LevelOf(LtOp) == LevelOf(GtOp) == LevelOf(GeOp) < LevelOf(AddOp) == LevelOf(SubOp) < LevelOf(MulOp)
    ensures LevelOf(MulOp) == LevelOf(DivOp) == LevelOf(RemOp) < UNARY
    ensures Spelling(OrOp) == "||" && Spelling(AndOp) == "&&" && Spelling(EqOp) == "==" && Spelling(NeOp) == "!="
    ensures Spelling(LtOp) == "<" && Spelling(LeOp) == "<=" && Spelling(GtOp) == ">" && Spelling(GeOp) == ">="
    ensures Spelling(AddOp) == "+" && Spelling(SubOp) == "-" && Spelling(MulOp) == "*" && Spelling(DivOp) == "/"
    ensures Spelling(RemOp) == "%"
  {
  }

  // ----- numerals -----

  function Digit(d: nat): char
    requires d < 16
  {
    "0123456789abcdef"[d]
  }

  function Numeral(n: nat, base: nat): (s: string)
    requires 2 <= base <= 16
    ensures |s| > 0
  {
    if n < base then [Digit(n)] else Numeral(n / base, base) + [Digit(n % base)]
  }

  lemma DigitReadsBack(d: nat)
    requires d < 16
    ensures IsHexDigit(Digit(d)) && HexDigit(Digit(d)) == d
    ensures 10 <= d ==> IsHexDigit("ABCDEF"[d - 10]) && HexDigit("ABCDEF"[d - 10]) == d
  {
  }

  /** The numeral of a number spells it. */
  lemma {:induction false} NumeralSpells(n: nat, base: nat)
    requires 2 <= base <= 16
    ensures Digits(Numeral(n, base), base) == Some(n)
  {
    hide Digit, IsHexDigit, HexDigit;
    var s := Numeral(n, base);
    var front, c := s[..|s| - 1], s[|s| - 1];
    var last := if n < base then n else n % base;
    DigitReadsBack(last);
    assert c == Digit(last);
    if n < base {
      assert front == "" && Digits(front, base) == Some(0);
    } else {
      NumeralSpells(n / base, base);
      assert front == Numeral(n / base, base);
      assert n == n / base * base + n % base;
    }
  }

  lemma {:induction false} NumeralStarts(n: nat, base: nat)
    requires 2 <= base <= 16
    ensures Numeral(n, base)[0] == '0' ==> n == 0
    ensures n == 0 ==> Numeral(n, base) == "0"
    ensures |Numeral(n, base)| >= 2 ==> Numeral(n, base)[1] != 'x' && Numeral(n, base)[1] != 'X'
  {
    hide Digit;
    if n < base {
      DigitIs(n);
    } else {
      var front := Numeral(n / base, base);
      NumeralStarts(n / base, base);
      DigitIs(n % base);
      QuotientIsPositive(n, base);
      assert Numeral(n, base)[0] == front[0];
    }
  }

  lemma DigitIs(d: nat)
    requires d < 16
    ensures (Digit(d) == '0' <==> d == 0) && Digit(d) != 'x' && Digit(d) != 'X'
  {
  }

  lemma QuotientIsPositive(n: nat, base: nat)
    requires 0 < base <= n
    ensures n / base >= 1
  {
  }

  /** Decimal, octal and hexadecimal literals have the value they spell, up to the largest 64-bit integer. */
  lemma LiteralsSpell(n: nat)
    ensures LiteralValue(Numeral(n, 10)) == if n <= INT64_MAX then Some(n) else None
    ensures LiteralValue("0" + Numeral(n, 8)) == if n <= INT64_MAX then Some(n) else None
    ensures LiteralValue("0x" + Numeral(n, 16)) == if n <= INT64_MAX then Some(n) else None
    ensures LiteralValue("0X" + Numeral(n, 16)) == if n <= INT64_MAX then Some(n) else None
  {
    hide Numeral, LiteralValue, Digits;
    DecimalSpells(n);
    OctalSpells(n);
    HexSpells(n, 'x');
    HexSpells(n, 'X');
    assert ['0', 'x'] == "0x" && ['0', 'X'] == "0X";
  }

  lemma DecimalSpells(n: nat)
    ensures LiteralValue(Numeral(n, 10)) == if n <= INT64_MAX then Some(n) else None
  {
    hide Numeral, Digits;
    NumeralSpells(n, 10);
    NumeralStarts(n, 10);
    if n == 0 { assert Digits("0", 8) == Some(0) by { ZeroSpells(); } }
  }

  lemma ZeroSpells()
    ensures Digits("0", 8) == Some(0)
  {
    assert "0"[..0] == "";
  }

  lemma OctalSpells(n: nat)
    ensures LiteralValue("0" + Numeral(n, 8)) == if n <= INT64_MAX then Some(n) else None
  {
    hide Numeral, Digits;
    NumeralSpells(n, 8);
    LeadingZero(Numeral(n, 8), 8);
    OctalDigit(n);
    assert ("0" + Numeral(n, 8))[1] == Numeral(n, 8)[0];
  }

  lemma HexSpells(n: nat, x: char)
    requires x == 'x' || x == 'X'
    ensures LiteralValue(['0', x] + Numeral(n, 16)) == if n <= INT64_MAX then Some(n) else None
  {
    hide Numeral, Digits;
    NumeralSpells(n, 16);
    assert (['0', x] + Numeral(n, 16))[2..] == Numeral(n, 16);
  }

  lemma {:induction false} OctalDigit(n: nat)
    ensures '0' <= Numeral(n, 8)[0] <= '7'
  {
    if n >= 8 { OctalDigit(n / 8); }
  }

  lemma {:induction false} LeadingZero(s: string, base: nat)
    requires base > 0
    ensures Digits("0" + s, base) == Digits(s, base)
  {
    var t := "0" + s;
    if s == "" {
      assert t[..0] == "" && t[|t| - 1] == '0';
    } else {
      LeadingZero(s[..|s| - 1], base);
      assert t[..|t| - 1] == "0" + s[..|s| - 1] && t[|t| - 1] == s[|s| - 1];
    }
  }

  // ----- types -----

  /** The names that stand for another type. */
  lemma AliasesStandFor()
    ensures CanonicalType("double") == Some("f64") && CanonicalType("float") == Some("f32")
    ensures CanonicalType("half") == Some("f16") && CanonicalType("bfp16") == Some("bf16")
    ensures CanonicalType("f8") == Some("f8_e4m3") && CanonicalType("int") == Some("s32")
  {
  }
}
