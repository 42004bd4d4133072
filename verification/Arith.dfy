/** Products, quotients and remainders by repeated addition and subtraction, so that
    proofs about block numbers need no nonlinear arithmetic.  The three lemmas at the
    end identify them with the built-in operators that the methods use. */
module Arith {

  function Times(a: nat, b: nat): nat {
    if a == 0 then 0 else b + Times(a - 1, b)
  }

  function Quot(x: nat, s: nat): nat
    requires s > 0
  {
    if x < s then 0 else 1 + Quot(x - s, s)
  }

  function Rem(x: nat, s: nat): (r: nat)
    requires s > 0
    ensures r < s
  {
    if x < s then x else Rem(x - s, s)
  }

  lemma {:induction false} TimesMono(a: nat, b: nat, s: nat)
    requires a <= b
    ensures Times(a, s) <= Times(b, s)
    decreases b
  {
    if a < b { TimesMono(a, b - 1, s); }
  }

  lemma {:induction false} QuotRem(x: nat, s: nat)
    requires s > 0
    ensures x == Times(Quot(x, s), s) + Rem(x, s)
  {
    if x >= s { QuotRem(x - s, s); }
  }

  /** Digits in base s are what Quot and Rem find. */
  lemma {:induction false} Digits(a: nat, r: nat, s: nat)
    requires r < s
    ensures Quot(Times(a, s) + r, s) == a && Rem(Times(a, s) + r, s) == r
  {
    if a > 0 { Digits(a - 1, r, s); }
  }

  lemma {:induction false} QuotBound(x: nat, s: nat, n: nat)
    requires s > 0 && x < Times(n, s)
    ensures Quot(x, s) < n
  {
    if x >= s { QuotBound(x - s, s, n - 1); }
  }

  lemma {:induction false} QuotMono(x: nat, y: nat, s: nat)
    requires s > 0 && x <= y
    ensures Quot(x, s) <= Quot(y, s)
    decreases y
  {
    if x >= s { QuotMono(x - s, y - s, s); }
  }

  lemma DigitBound(a: nat, r: nat, n: nat, s: nat)
    requires a < n && r < s
    ensures Times(a, s) + r < Times(n, s)
  {
    TimesMono(a + 1, n, s);
  }

  lemma {:induction false} TimesIsMul(a: nat, b: nat)
    ensures Times(a, b) == a * b
  {
    if a > 0 { TimesIsMul(a - 1, b); }
  }

  lemma DivUnique(a: nat, r: nat, b: nat, t: nat, s: nat)
    requires r < s && t < s && a * s + r == b * s + t
    ensures a == b && r == t
  {
    TimesIsMul(a, s);
    TimesIsMul(b, s);
    Digits(a, r, s);
    Digits(b, t, s);
  }

  lemma QuotIsDiv(x: nat, s: nat)
    requires s > 0
    ensures 0 <= x / s && Quot(x, s) == x / s && 0 <= x % s < s && Rem(x, s) == x % s
  {
    QuotRem(x, s);
    TimesIsMul(Quot(x, s), s);
    DivUnique(Quot(x, s), Rem(x, s), x / s, x % s, s);
  }
}
