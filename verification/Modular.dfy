/** Powers and remainders: what square-and-multiply computes. */
module Modular {
  import opened Arith

  function Pow(b: nat, e: nat): nat {
    if e == 0 then 1 else b * Pow(b, e - 1)
  }

  lemma {:induction false} PlusMultiple(y: nat, x: nat, m: nat)
    requires m > 0
    ensures (y + x * m) % m == y % m
  {
    DivisionBounds(y, m);
    var q := y / m;
    assert (q + x) * m == q * m + x * m;
    DivisionUnique(y + x * m, m, q + x, y % m);
  }

  lemma {:induction false} ModLeft(a: nat, b: nat, m: nat)
    requires m > 0
    ensures (a % m) * b % m == a * b % m
  {
    DivisionBounds(a, m);
    ModParts(a / m, a % m, b, m);
  }

  lemma {:induction false} ModParts(q: nat, r: nat, b: nat, m: nat)
    requires m > 0
    ensures (q * m + r) * b % m == r * b % m
  {
    PlusMultiple(r * b, q * b, m);
    Spread(q, m, r, b);
  }

  lemma Spread(q: nat, m: nat, r: nat, b: nat)
    ensures (q * m + r) * b == r * b + q * b * m
  {
    assert (q * m + r) * b == q * m * b + r * b;
    assert q * m * b == q * b * m;
  }

  lemma ModMul(a: nat, b: nat, m: nat)
    requires m > 0
    ensures (a % m) * (b % m) % m == a * b % m
  {
    ModLeft(b, a % m, m);
    ModLeft(a, b, m);
  }

  lemma {:induction false} PowAdd(b: nat, x: nat, y: nat)
    ensures Pow(b, x + y) == Pow(b, x) * Pow(b, y)
  {
    if x > 0 {
      PowAdd(b, x - 1, y);
      assert b * Pow(b, x - 1) * Pow(b, y) == b * (Pow(b, x - 1) * Pow(b, y));
    }
  }

  lemma {:induction false} PowMul(b: nat, x: nat, y: nat)
    ensures Pow(Pow(b, x), y) == Pow(b, x * y)
  {
    if y == 0 {
      assert x * 0 == 0;
    } else {
      PowMul(b, x, y - 1);
      assert x * y == x + x * (y - 1);
      PowAdd(b, x, x * (y - 1));
    }
  }

  /** Reducing the base changes no power's remainder. */
  lemma {:induction false} PowMod(b: nat, e: nat, m: nat)
    requires m > 0
    ensures Pow(b % m, e) % m == Pow(b, e) % m
  {
    if e > 0 {
      PowMod(b, e - 1, m);
      ModMul(b % m, Pow(b % m, e - 1), m);
      ModMul(b, Pow(b, e - 1), m);
      assert b % m % m == b % m by {
        PlusMultiple(b % m, 0, m);
        DivisionUnique(b % m, m, 0, b % m);
      }
    }
  }

  /** Halving an exponent squares the base. */
  lemma PowHalf(b: nat, e: nat)
    ensures Pow(b, e) == (if e % 2 == 1 then b else 1) * Pow(b * b, e / 2)
  {
    PowMul(b, 2, e / 2);
    assert Pow(b, 1) == b && Pow(b, 2) == b * b;
    if e % 2 == 1 {
      assert e == 1 + 2 * (e / 2);
      PowAdd(b, 1, 2 * (e / 2));
    } else {
      assert e == 2 * (e / 2);
    }
  }

  /** One turn of the loop keeps r * b^e mod m. */
  lemma {:induction false} TurnKeeps(r: nat, b: nat, e: nat, m: nat)
    requires m > 0 && e > 0
    ensures var r' := if e % 2 == 1 then r * b % m else r;
            r' * Pow(b * b % m, e / 2) % m == r * Pow(b, e) % m
  {
    var p := Pow(b * b, e / 2);
    var r' := if e % 2 == 1 then r * b % m else r;
    PowHalf(b, e);
    calc {
      r' * Pow(b * b % m, e / 2) % m;
      { ModMul(r', Pow(b * b % m, e / 2), m); PowMod(b * b, e / 2, m); ModMul(r', p, m); }
      r' * p % m;
      { if e % 2 == 1 { ModLeft(r * b, p, m); } }
      (if e % 2 == 1 then r * b else r) * p % m;
      { if e % 2 == 1 { assert r * b * p == r * (b * p); } }
      r * Pow(b, e) % m;
    }
  }

  /** _modPow: the remainder of b to the e, for every exponent and every modulus. */
  method ModPow(b: nat, e: nat, m: nat) returns (r: nat)
    requires m > 0
    ensures r == Pow(b, e) % m
  {
    hide Pow;
    if m == 1 {
      return 0;
    }
    r := 1;
    var base: nat, exp: nat := b % m, e;
    PowMod(b, e, m);
    ModLeft(1, Pow(base, e), m);
    PowZero(base);
    while exp > 0
      invariant r < m
      invariant r * Pow(base, exp) % m == Pow(b, e) % m
      decreases exp
    {
      TurnKeeps(r, base, exp, m);
      if exp % 2 == 1 {
        r := r * base % m;
      }
      exp := exp / 2;
      base := base * base % m;
    }
    PowZero(base);
    assert r * 1 % m == r by {
      DivisionUnique(r, m, 0, r);
    }
  }

  lemma PowZero(b: nat)
    ensures Pow(b, 0) == 1
  {
  }
}
