/** Products, quotients and remainders behind names, so that proofs can hide what they do not need. */
module Arithmetic {
  function Times(a: nat, b: nat): (p: nat)
    ensures a > 0 && b > 0 ==> p > 0
  {
    a * b
  }

  function Quotient(a: nat, d: nat): nat
    requires d > 0
  {
    a / d
  }

  function Remainder(a: nat, d: nat): (r: nat)
    requires d > 0
    ensures r < d
  {
    a % d
  }

  lemma Division(a: nat, d: nat)
    requires d > 0
    ensures Times(Quotient(a, d), d) + Remainder(a, d) == a
  {
  }

  lemma Gap(a: nat, b: nat, d: nat)
    ensures a < b ==> Times(a, d) + d <= Times(b, d)
  {
    if a < b {
      var k := b - a - 1;
      assert b * d == a * d + d + k * d && k * d >= 0;
    }
  }

  lemma DivisionIs(a: nat, d: nat, q: nat, r: nat)
    requires r < d && a == Times(q, d) + r
    ensures Quotient(a, d) == q && Remainder(a, d) == r
  {
    hide Times, Quotient, Remainder;
    Division(a, d);
    Gap(q, Quotient(a, d), d);
    Gap(Quotient(a, d), q, d);
  }

  lemma WholeDivision(a: nat, d: nat, q: nat)
    requires d > 0
    ensures a == Times(q, d) ==> Remainder(a, d) == 0
  {
    hide Times, Remainder;
    if a == Times(q, d) { DivisionIs(a, d, q, 0); }
  }

  lemma Distribute(a: nat, b: nat, d: nat)
    ensures Times(a + b, d) == Times(a, d) + Times(b, d)
  {
  }

  lemma Associate(a: nat, b: nat, c: nat)
    ensures Times(Times(a, b), c) == Times(a, Times(b, c))
  {
  }

  lemma Units(a: nat)
    ensures Times(1, a) == a && Times(a, 1) == a && Times(0, a) == 0
  {
  }

  lemma Small(a: nat, d: nat)
    requires a < d
    ensures Quotient(a, d) == 0 && Remainder(a, d) == a
  {
    Units(d);
    DivisionIs(a, d, 0, a);
  }

  lemma Cancel(a: nat, b: nat, d: nat)
    requires d > 0
    ensures Times(a, d) == Times(b, d) ==> a == b
    ensures Times(a, d) < Times(b, d) ==> a < b
  {
    hide Times;
    Gap(a, b, d);
    Gap(b, a, d);
  }

  lemma NestedDivision(a: nat, t: nat, w: nat)
    requires t > 0 && w > 0
    ensures Quotient(a, Times(t, w)) == Quotient(Quotient(a, w), t)
  {
    hide Times, Quotient, Remainder;
    var q, r := Quotient(a, w), Remainder(a, w);
    var u, v := Quotient(q, t), Remainder(q, t);
    Division(a, w);
    Division(q, t);
    Distribute(Times(u, t), v, w);
    Associate(u, t, w);
    Gap(v, t, w);
    DivisionIs(a, Times(t, w), u, Times(v, w) + r);
  }
}
