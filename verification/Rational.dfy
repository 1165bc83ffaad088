/** Integer powers with negative exponents, as reals. */
module Rational {
  import opened Arith

  /** b^e for any integer e. */
  function RPow(b: nat, e: int): real
    requires b > 0
  {
    if e >= 0 then Pow(b, e) as real
    else
      PowPos(b, -e);
      1.0 / (Pow(b, -e) as real)
  }

  lemma RPowPos(b: nat, e: int)
    requires b > 0
    ensures RPow(b, e) > 0.0
  {
    PowPos(b, if e >= 0 then e else -e);
  }

  lemma RPowInverse(b: nat, e: int)
    requires b > 0
    ensures RPow(b, e) * RPow(b, -e) == 1.0
  {
    PowPos(b, if e >= 0 then e else -e);
    if e == 0 { assert Pow(b, 0) == 1; }
  }

  lemma RMulAssoc(a: real, b: real, c: real)
    ensures a * (b * c) == (a * b) * c
  {
  }

  lemma RPowSucc(b: nat, e: int)
    requires b > 0
    ensures RPow(b, e + 1) == (b as real) * RPow(b, e)
  {
    if e >= 0 {
      CastMul(b, Pow(b, e));
    } else {
      var p := Pow(b, -e - 1);
      PowPos(b, -e - 1);
      CastMul(b, p);
      assert Pow(b, -e) == b * p;
      Cancel(b as real, p as real);
      if e == -1 { assert Pow(b, 0) == 1; }
    }
  }

  lemma Cancel(b: real, p: real)
    requires b > 0.0 && p > 0.0
    ensures b * p > 0.0 && b * (1.0 / (b * p)) == 1.0 / p
  {
    var r := 1.0 / (b * p);
    assert r * (b * p) == 1.0;
    assert (b * r) * p == 1.0;
  }

  lemma CastMul(a: int, b: int)
    ensures (a * b) as real == (a as real) * (b as real)
  {
  }

  lemma {:induction false} RPowAdd(b: nat, m: int, n: int)
    requires b > 0
    ensures RPow(b, m + n) == RPow(b, m) * RPow(b, n)
    decreases if n >= 0 then n else -n
  {
    hide RPow, Pow;
    if n > 0 {
      RPowAdd(b, m, n - 1);
      RPowSucc(b, n - 1);
      RPowSucc(b, m + n - 1);
      StepUp(b as real, RPow(b, m), RPow(b, n - 1), RPow(b, n), RPow(b, m + n - 1), RPow(b, m + n));
    } else if n < 0 {
      RPowAdd(b, m, n + 1);
      RPowSucc(b, n);
      RPowSucc(b, m + n);
      StepDown(b as real, RPow(b, m), RPow(b, n), RPow(b, n + 1), RPow(b, m + n), RPow(b, m + n + 1));
    } else {
      RPowZero(b);
    }
  }

  lemma StepUp(c: real, x: real, y: real, y1: real, z: real, z1: real)
    requires y1 == c * y && z1 == c * z && z == x * y
    ensures z1 == x * y1
  {
  }

  lemma StepDown(c: real, x: real, y: real, y1: real, z: real, z1: real)
    requires c > 0.0 && y1 == c * y && z1 == c * z && z1 == x * y1
    ensures z == x * y
  {
    assert c * z == c * (x * y);
    RCancel(c, z, x * y);
  }

  lemma RPowZero(b: nat)
    requires b > 0
    ensures RPow(b, 0) == 1.0
  {
  }

  lemma RCancel(c: real, a: real, b: real)
    requires c > 0.0
    ensures c * a == c * b <==> a == b
    ensures c * a <= c * b <==> a <= b
    ensures c * a < c * b <==> a < b
  {
    if a < b { assert c * (b - a) > 0.0; }
    if b < a { assert c * (a - b) > 0.0; }
  }

  lemma RCancelRight(c: real, a: real, b: real)
    requires c > 0.0
    ensures a * c < b * c <==> a < b
    ensures a * c <= b * c <==> a <= b
    ensures a * c == b * c <==> a == b
  {
    RCancel(c, a, b);
  }

  lemma NatRPow(b: nat, n: nat)
    requires b > 0
    ensures RPow(b, n) == Pow(b, n) as real
  {
  }

  lemma NegRPow(b: nat, n: nat)
    requires b > 0
    ensures Pow(b, n) > 0 && RPow(b, 0 - n) == 1.0 / (Pow(b, n) as real)
  {
    PowPos(b, n);
    if n == 0 { PowUnit(b); }
  }

  lemma RPowProduct(a: nat, b: nat, e: int)
    requires a > 0 && b > 0
    ensures a * b > 0
    ensures RPow(a * b, e) == RPow(a, e) * RPow(b, e)
  {
    hide Pow, RPow;
    MulPos(a, b);
    var n := if e >= 0 then e else -e;
    NatProduct(a, b, n);
    if e >= 0 {
      NatRPow(a, n);
      NatRPow(b, n);
      NatRPow(a * b, n);
    } else {
      NegRPow(a, n);
      NegRPow(b, n);
      NegRPow(a * b, n);
      NegativePowers(a, b, n);
    }
  }

  lemma NatProduct(a: nat, b: nat, n: nat)
    ensures Pow(a * b, n) as real == (Pow(a, n) as real) * (Pow(b, n) as real)
  {
    hide Pow;
    PowProduct(a, b, n);
    CastMul(Pow(a, n), Pow(b, n));
  }

  lemma NegativePowers(a: nat, b: nat, n: nat)
    requires a > 0 && b > 0
    ensures var p, q := Pow(a, n) as real, Pow(b, n) as real;
            p > 0.0 && q > 0.0 && p * q > 0.0 && 1.0 / (p * q) == (1.0 / p) * (1.0 / q)
  {
    PowPos(a, n);
    PowPos(b, n);
    InverseProduct(Pow(a, n) as real, Pow(b, n) as real);
  }

  lemma InverseProduct(p: real, q: real)
    requires p > 0.0 && q > 0.0
    ensures p * q > 0.0 && 1.0 / (p * q) == (1.0 / p) * (1.0 / q)
  {
    var r := (1.0 / p) * (1.0 / q);
    assert (1.0 / p) * p == 1.0 && (1.0 / q) * q == 1.0;
    assert r * (p * q) == ((1.0 / p) * p) * ((1.0 / q) * q);
  }

  /** 10^e = 2^e * 5^e. */
  lemma TenSplit(e: int)
    ensures RPow(10, e) == RPow(2, e) * RPow(5, e)
  {
    RPowProduct(2, 5, e);
  }

  lemma RPowMono(b: nat, m: int, n: int)
    requires b > 0 && m <= n
    ensures RPow(b, m) <= RPow(b, n)
  {
    hide RPow, Pow;
    assert RPow(b, n) == RPow(b, m) * RPow(b, n - m) by { RPowAdd(b, m, n - m); }
    RPowPos(b, m);
    RPowAtLeastOne(b, n - m);
    Stretch(RPow(b, m), RPow(b, n - m), RPow(b, n));
  }

  lemma Stretch(x: real, y: real, z: real)
    requires x > 0.0 && y >= 1.0 && z == x * y
    ensures z >= x
  {
    assert x * (y - 1.0) >= 0.0;
  }

  lemma RPowAtLeastOne(b: nat, n: nat)
    requires b > 0
    ensures RPow(b, n) >= 1.0
  {
    PowPos(b, n);
  }
}
