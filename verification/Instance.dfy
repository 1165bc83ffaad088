/** An input of bigcomp on which its last test goes wrong: 53 digits just below the half-way point above 1 + 2^-52. */
module BigcompInstance {
  import opened Arith
  import opened Rational
  import opened Words
  import opened Pow5
  import opened Ieee
  import opened DoubleBits
  import opened Decimal
  import opened Scaling
  import opened ShortestDigits
  import opened Correction
  import opened BigcompDigits
  import opened Midpoint
  import opened JsonStrings

  /** 1 + 2^-52, an odd double. */
  const W0: Word := 0x3ff0_0000
  const W1: Word := 1

  /** (2^53 + 3) * 2^-53 without its 54th and last digit, 5. */
  const DIGITS: Bytes := "10000" + "00000000" + "00033306" + "69073875" + "46962127" + "08950042" + "72460937"

  lemma Append(s: seq<char>, c: char)
    ensures DigitsVal(s + [c]) == 10 * DigitsVal(s) + DigitOf(c)
  {
    assert (s + [c])[..|s|] == s;
  }

  lemma Eight(s: seq<char>, t: seq<char>)
    requires |t| == 8
    ensures DigitsVal(s + t) == DigitsVal(s) * 1_0000_0000 + DigitOf(t[0]) * 1000_0000 + DigitOf(t[1]) * 100_0000
      + DigitOf(t[2]) * 10_0000 + DigitOf(t[3]) * 1_0000 + DigitOf(t[4]) * 1000 + DigitOf(t[5]) * 100
          + DigitOf(t[6]) * 10 + DigitOf(t[7])
  {
    hide DigitsVal;
    Four(s, t[..4]);
    Four(s + t[..4], t[4..]);
    assert s + t[..4] + t[4..] == s + t;
  }

  lemma Four(s: seq<char>, t: seq<char>)
    requires |t| == 4
    ensures DigitsVal(s + t) == DigitsVal(s) * 1_0000 + DigitOf(t[0]) * 1000 + DigitOf(t[1]) * 100
            + DigitOf(t[2]) * 10 + DigitOf(t[3])
  {
    hide DigitsVal;
    Append(s, t[0]);
    Append(s + [t[0]], t[1]);
    Append(s + [t[0]] + [t[1]], t[2]);
    Append(s + [t[0]] + [t[1]] + [t[2]], t[3]);
    assert s + [t[0]] + [t[1]] + [t[2]] + [t[3]] == s + t;
  }

  lemma DigitsAre()
    ensures |DIGITS| == 53 && DigitsVal(DIGITS) == 10000_00000000_00033306_69073875_46962127_08950042_72460937
  {
    hide DigitsVal;
    FirstHalf();
    var a := "10000" + "00000000" + "00033306" + "69073875";
    Eight(a, "46962127");
    Eight(a + "46962127", "08950042");
    Eight(a + "46962127" + "08950042", "72460937");
  }

  lemma FirstHalf()
    ensures DigitsVal("10000" + "00000000" + "00033306" + "69073875") == 10000_00000000_00033306_69073875
  {
    hide DigitsVal;
    OneValue();
    Four("1", "0000");
    assert "1" + "0000" == "10000";
    Eight("10000", "00000000");
    Eight("10000" + "00000000", "00033306");
    Eight("10000" + "00000000" + "00033306", "69073875");
  }

  /** 5^53, and the same digits as the half-way point, followed by a 5. */
  lemma Fives()
    ensures Pow(5, 53) == 11102230246251565404236316680908203125
    ensures 0x20_0000_0000_0003 * Pow(5, 53) == 10 * DigitsVal(DIGITS) + 5
  {
    assert Pow(5, 3) == 125 && Pow(5, 5) == 3125;
    PowAdd(5, 5, 5);
    PowAdd(5, 10, 10);
    PowAdd(5, 20, 20);
    PowAdd(5, 40, 10);
    PowAdd(5, 50, 3);
    hide Pow, DigitsVal;
    DigitsAre();
  }

  /** 2^-53 in units of 10^-53. */
  lemma TinyUnit()
    ensures RPow(2, -53) == (Pow(5, 53) as real) * RPow(10, -53) && RPow(10, -53) > 0.0
    ensures RPow(10, -52) == 10.0 * RPow(10, -53)
  {
    hide Pow, RPow;
    TenSplit(-53);
    RPowInverse(5, 53);
    NatRPow(5, 53);
    RPowPos(10, -53);
    RPowSucc(10, -53);
    Reciprocal(RPow(5, 53), RPow(5, -53), RPow(2, -53), RPow(10, -53));
  }

  lemma Reciprocal(f: real, f1: real, u: real, t: real)
    requires f * f1 == 1.0 && t == u * f1
    ensures u == f * t
  {
    assert f * (u * f1) == u * (f * f1);
  }

  lemma TenTo53()
    ensures Pow(10, 53) == 1_00000_00000_00000_00000_00000_00000_00000_00000_00000_00000_000
  {
    assert Pow(10, 3) == 1000 && Pow(10, 5) == 100000;
    PowAdd(10, 5, 5);
    PowAdd(10, 10, 10);
    PowAdd(10, 20, 20);
    PowAdd(10, 40, 10);
    PowAdd(10, 50, 3);
  }

  lemma One()
    ensures 1_00000_00000_00000_00000_00000_00000_00000_00000_00000_00000_000.0 * RPow(10, -53) == 1.0 == RPow(10, 0)
  {
    hide RPow, Pow;
    TenTo53();
    NatRPow(10, 53);
    RPowInverse(10, 53);
    RPowZero(10);
  }

  lemma OddDouble()
    ensures var n := Join(W0, W1);
            && 0 < n < INFINITY && n % 2 == 1 && HalfGapUp(n) == -53
            && DoubleValue(n) == 9007199254740994.0 * RPow(2, -53)
            && DoubleValue(n + 1) == DoubleValue(n) + 2.0 * RPow(2, -53)
  {
    hide Pow, RPow, DoubleValue;
    var n := Join(W0, W1);
    JoinFields(W0, W1);
    assert n == W0 * BASE + W1;
    ValueInGaps(n);
    NextValue(n);
  }

  lemma DigitsEnd()
    ensures EndsAt(DIGITS, 53) && DIGITS[0] != '0' && Counted(DIGITS, 53, 53, 53) == DIGITS
  {
    assert AllDigits(DIGITS);
    assert DIGITS[..53] == DIGITS;
  }

  /** The digits lie between the double and its upper neighbour, below the half-way point by one more digit. */
  lemma JustBelow()
    ensures var n, x := Join(W0, W1), LongDecimal(DIGITS, 0);
            && DoubleValue(n) <= x <= DoubleValue(n + 1) && RPow(10, 0) <= HalfWayUp(n)
            && x < HalfWayUp(n) && OneMoreDigit(x, -53, HalfWayUp(n))
  {
    hide Pow, RPow, DoubleValue, DigitsVal;
    var n, x, N, t := Join(W0, W1), LongDecimal(DIGITS, 0), DigitsVal(DIGITS), RPow(10, -53);
    OddDouble();
    DigitsAre();
    Fives();
    TinyUnit();
    One();
    assert x == (N as real) * RPow(10, -52);
    InUnits(n, x, N, t);
    assert HalfWayUp(n) == x + DecimalValue(5, -53);
  }

  lemma InUnits(n: Bits, x: real, N: int, t: real)
    requires 0 < n < INFINITY && t > 0.0 && x == (N as real) * (10.0 * t)
    requires RPow(2, HalfGapUp(n)) == 11102230246251565404236316680908203125.0 * t
    requires DoubleValue(n) == 9007199254740994.0 * RPow(2, HalfGapUp(n))
             && DoubleValue(n + 1) == DoubleValue(n) + 2.0 * RPow(2, HalfGapUp(n))
    requires N == 10000_00000000_00033306_69073875_46962127_08950042_72460937
    ensures DoubleValue(n) <= x <= DoubleValue(n + 1) && HalfWayUp(n) == x + 5.0 * t
    ensures HalfWayUp(n) == 100000000000000033306690738754696212708950042724609375.0 * t
  {
    hide RPow, DoubleValue;
  }

  /** bigcomp returns the upper neighbour, although the digits read as the double itself. */
  method WrongNeighbour(cache: Cache) returns (r: Outcome)
    requires cache.Valid()
    modifies cache.Repr
    ensures cache.Valid() && fresh(cache.Repr - old(cache.Repr))
    ensures var n, x := Join(W0, W1), LongDecimal(DIGITS, 0);
            && Final(r, 0) && ReadsAs(x, n) && Result(r, 0) == n + 1 && !ReadsAs(x, Result(r, 0))
  {
    hide Pow, RPow, DoubleValue, DigitsVal, LongDecimal, ReadsAs, HalfWayUp, EndsAt, Counted, OneMoreDigit, Cache.Valid;
    DigitsEnd();
    OddDouble();
    JustBelow();
    JoinFields(W0, W1);
    r := Bigcomp(W0, W1, 0, DIGITS, 53, 53, 53, -52, cache);
    Between(LongDecimal(DIGITS, 0), Join(W0, W1));
  }

  lemma OneValue()
    ensures DigitsVal("1") == 1
  {
    assert "1"[..0] == [];
  }
}
