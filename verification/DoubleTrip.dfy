/** strtod undoes dtoa: any text that denotes the shortest digits of a double is read as that double. */
module NumberRoundTrips {
  import opened Arith
  import opened Rational
  import opened Words
  import opened Pow5
  import opened Ieee
  import opened Decimal
  import opened ShortestDigits
  import opened Refinement
  import opened RelativeErrors
  import opened JsonStrings
  import opened Scanner
  import opened ScanNumber
  import opened ReadBack
  import opened LongDecimals
  import opened Strtod

  /** Without its zeros at the end a number is no larger than with them. */
  lemma LeastDigits(V: int, a: int, D: int, b: int)
    requires V > 0 && D > 0 && V % 10 != 0 && DecimalValue(V, a) == DecimalValue(D, b)
    ensures V <= D
  {
    hide Pow, RPow, DecimalValue;
    if a < b {
      ScaleValue(D, b, a, b - a);
      SameValue(V, D * Pow(10, b - a), a);
      PowStep(10, b - a - 1);
      Rotate(D, 10, Pow(10, b - a - 1));
      DivModUnique(V, 10, D * Pow(10, b - a - 1), 0);
    } else {
      ScaleValue(V, a, b, a - b);
      SameValue(V * Pow(10, a - b), D, b);
      PowPos(10, a - b);
      MulMono(V, 1, Pow(10, a - b));
    }
  }

  lemma SameValue(A: int, B: int, e: int)
    requires DecimalValue(A, e) == DecimalValue(B, e)
    ensures A == B
  {
    hide RPow;
    RPowPos(10, e);
    RCancelRight(RPow(10, e), A as real, B as real);
  }

  lemma EndsNonzero(c: seq<char>)
    requires c != [] && AllDigits(c) && c[|c| - 1] != '0'
    ensures DigitsVal(c) % 10 != 0
  {
    var k := |c| - 1;
    DivModUnique(DigitsVal(c), 10, DigitsVal(c[..k]), DigitOf(c[k]));
  }

  /** A number of 18 significant digits or fewer is never misjudged, however many zeros it is written with. */
  lemma FewNotMisjudged(m: Mantissa, c: seq<char>, e: int, D: int, f: int)
    requires Clean(c, m.nz1, m.y) && DecimalValue(DigitsVal(c), e) == DecimalValue(D, f)
    requires 0 < D < Pow(10, 18)
    ensures !Misjudged(m, c, e)
  {
    hide Pow, RPow, DigitsVal, DecimalValue, Head;
    var k := |c| - m.nz1;
    assert c[..k][k - 1] == c[k - 1];
    EndsNonzero(c[..k]);
    DropTail(c, k, e);
    PrefixPositive(c, k);
    LeastDigits(DigitsVal(c[..k]), e + (|c| - k), D, f);
    DigitsLead(c[..k]);
    if k > 18 { PowMono(10, 18, k - 1); }
  }

  /** Whatever text denotes the shortest digits of n, reading it gives n. */
  method ReadShortest(n: Bits, digits: seq<char>, k: int, data: Bytes, start: nat, shl32: Word,
      nearest: real -> Bits, cache: Cache)
    returns (s: Scanned, r: nat, end: nat)
    requires n < INFINITY && ShortestFor(n, digits, k) && Terminated(data) && start < |data| && cache.Valid()
    requires Rounds(nearest)
    requires var num := Greedy(From(data, start));
             num.Decimal? && NumberValue(num) == Printed(digits, k) && -19999 <= num.exp <= 19999
    modifies cache.Repr
    ensures cache.Valid() && fresh(cache.Repr - old(cache.Repr))
    ensures s.Found? && r == n && end == start + Greedy(From(data, start)).len
  {
    hide Pow, RPow, DigitsVal, DecimalValue, ReadsAs, Greedy, From, Misjudged, ShortestFor, Clean, Digits, Cache.Valid;
    hide NumberValue;
    ShortestBound(n, digits, k);
    s, r, end := ReadNumber(data, start, shl32, nearest, cache);
    ghost var num := Greedy(From(data, start));
    ScannedValue(s, data, start, num);
    if s.Found? {
      ScannedClean(s, data, start, num);
      var c := Digits(s.m, data);
      FewNotMisjudged(s.m, c, s.e, DigitsVal(digits), k - |digits| + 1);
      ReadsUnique(Printed(digits, k), r, n);
    }
  }

  lemma ShortestBound(n: Bits, digits: seq<char>, k: int)
    requires ShortestFor(n, digits, k)
    ensures 0 < DigitsVal(digits) < Pow(10, 18) && Printed(digits, k) > 0.0 && ReadsAs(Printed(digits, k), n)
    ensures Printed(digits, k) == DecimalValue(DigitsVal(digits), k - |digits| + 1)
  {
    hide Pow, RPow, ReadsAs, ShortestFor, DigitsVal;
    ShortestText(n, digits, k);
    DigitsBound(digits);
    PowMono(10, |digits|, 18);
    PrefixPositive(digits, |digits|);
    RPowPos(10, k - |digits| + 1);
    Positive(DigitsVal(digits) as real, RPow(10, k - |digits| + 1));
  }

  lemma ShortestText(n: Bits, digits: seq<char>, k: int)
    requires ShortestFor(n, digits, k)
    ensures AllDigits(digits) && 0 < |digits| <= 17 && digits[0] != '0' && ReadsAs(Printed(digits, k), n)
    ensures Printed(digits, k) == DecimalValue(DigitsVal(digits), k - |digits| + 1)
  {
    hide Pow, RPow, ReadsAs, ClosestFor, DigitsVal;
  }
}
