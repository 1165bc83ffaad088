/** The number formatter fpconv_g_fmt: the three layouts of a decimal, and what they denote. */
module GFmt {
  import opened Arith
  import opened StrBufs
  import opened JsonStrings
  import opened NumberGrammar
  import opened Decimal
  import opened Scanner
  import opened DecimalTexts
  import opened ScanNumber
  import opened ShortestDigits

  function Zeros(n: nat): (z: Bytes)
    ensures |z| == n && AllZeros(z)
  {
    seq(n, _ => '0')
  }

  /** t is n with at least two digits, as printf's %.2d writes it. */
  ghost predicate IsExponent(t: Bytes, n: nat) {
    AllDigits(t) && |t| >= 2 && DigitsVal(t) == n && (|t| > 2 ==> t[0] != '0')
  }

  predicate Exponential(decpt: int, precision: nat) { decpt <= -4 || decpt > precision }

  /** The digits d of 0.d * 10^decpt, laid out; t is the exponent where there is one. */
  function Layout(d: Bytes, decpt: int, precision: nat, t: Bytes): Bytes
    requires d != []
  {
    if Exponential(decpt, precision) then
      [d[0]] + (if |d| > 1 then "." + d[1..] else "") + "e" + (if decpt - 1 < 0 then "-" else "+") + t
    else if decpt <= 0 then "0." + Zeros(-decpt) + d
    else if |d| <= decpt then d + Zeros(decpt - |d|)
    else d[..decpt] + "." + d[decpt..]
  }

  function Magnify(n: int): nat { if n < 0 then -n else n }

  /** dtoa's digits: none superfluous in front. Zero is the digit 0 with decpt 1. */
  predicate FromDtoa(d: Bytes, decpt: int) {
    d != [] && AllDigits(d) && (d[0] != '0' || (d == "0" && decpt == 1))
  }

  // ----- writing -----

  /** *b++ = c. */
  method Put(b: array<Byte>, p: nat, c: Byte) returns (q: nat)
    requires p < b.Length
    modifies b
    ensures q == p + 1 && b[..q] == old(b[..p]) + [c]
  {
    b[p] := c;
    q := p + 1;
  }

  method PutZeros(b: array<Byte>, p: nat, n: nat) returns (q: nat)
    requires p + n <= b.Length
    modifies b
    ensures q == p + n && b[..q] == old(b[..p]) + Zeros(n)
  {
    q := p;
    var i := 0;
    while i < n
      invariant 0 <= i <= n && q == p + i && b[..q] == old(b[..p]) + Zeros(i)
    {
      q := Put(b, q, '0');
      i := i + 1;
    }
  }

  /** while ((*b++ = *s++)); b--. */
  method Copy(b: array<Byte>, p: nat, s: Bytes) returns (q: nat)
    requires p + |s| < b.Length
    modifies b
    ensures q == p + |s| && b[..q] == old(b[..p]) + s && b[q] == '\0'
  {
    q := p;
    var i := 0;
    while i < |s|
      invariant 0 <= i <= |s| && q == p + i && b[..q] == old(b[..p]) + s[..i]
    {
      q := Put(b, q, s[i]);
      i := i + 1;
    }
    assert s[..i] == s;
    b[q] := '\0';
  }

  /** One digit of the exponent: its weight is the top one, and what is left moves up by ten. */
  lemma ExponentStep(n: nat, w: nat, v: nat, k: nat, rest: nat)
    requires k > 0 && n * Pow(10, w) == v * (10 * k) + rest && rest < 10 * k
    ensures 0 <= rest / k <= 9
    ensures n * Pow(10, w + 1) == (10 * v + rest / k) * (10 * k) + (rest - rest / k * k) * 10
    ensures 0 <= (rest - rest / k * k) * 10 < 10 * k
  {
    var i, r := rest / k, rest % k;
    assert rest == i * k + r;
    if i >= 10 { MulMono(k, 10, i); }
    PowStep(10, w);
    Rotate(n, 10, Pow(10, w));
    StepArith(v, k, i, r);
  }

  lemma StepArith(v: int, k: int, i: int, r: int)
    ensures 10 * (v * (10 * k) + (i * k + r)) == (10 * v + i) * (10 * k) + r * 10
  {
    assert (10 * v + i) * (10 * k) == 10 * (v * (10 * k)) + 10 * (i * k);
  }

  /** After as many digits as n has, nothing is left. */
  lemma ExponentEnds(n: nat, v: nat, k: nat, rest: nat, J: nat)
    requires J >= 1 && k == Pow(10, J - 1) && n * Pow(10, J - 1) == v * (10 * k) + rest && rest < 10 * k
    ensures n == 10 * v + rest / k
  {
    PowPos(10, J - 1);
    var i, r := rest / k, rest % k;
    assert rest == i * k + r;
    assert n * k == (10 * v + i) * k + r by { assert (10 * v + i) * k == v * (10 * k) + i * k; }
    DivModUnique(n * k, k, 10 * v + i, r);
    DivModUnique(n * k, k, n, 0);
  }

  /** A first digit of a number as long as its digits is not zero. */
  lemma LeadsNonzero(t: Bytes)
    requires t != [] && AllDigits(t) && DigitsVal(t) >= Pow(10, |t| - 1)
    ensures t[0] != '0'
  {
    FirstDigit(t[0], t[1..]);
    assert [t[0]] + t[1..] == t;
  }

  lemma FirstDigit(c: Byte, u: Bytes)
    requires IsDigit(c) && AllDigits(u)
    ensures c == '0' ==> DigitsVal([c] + u) < Pow(10, |u|)
  {
    hide Pow, DigitsVal;
    DigitsConcat([c], u);
    DigitsBound(u);
    NoDigits();
    OneMore([], c);
    assert [] + [c] == [c];
  }

  /** The exponent loops: the size of the number first, then its digits from the top. */
  method PutExponent(b: array<Byte>, p: nat, n: nat) returns (q: nat, ghost t: Bytes)
    requires n < 1000 && p + 3 < b.Length
    modifies b
    ensures IsExponent(t, n) && |t| <= 3 && q == p + |t| && b[..q] == old(b[..p]) + t
  {
    hide Pow, DigitsVal;
    var j: nat, k: nat := 2, 10;
    PowUnit(10);
    while 10 * k <= n
      invariant j >= 2 && k == Pow(10, j - 1) && k >= 10 && (j > 2 ==> k <= n) && (j == 2 ==> k == 10)
      invariant (j == 3 ==> k == 100) && (j > 3 ==> k >= 1000)
      decreases n - k
      modifies {}
    {
      PowStep(10, j - 1);
      j := j + 1;
      k := k * 10;
    }
    ghost var J := j;
    PowStep(10, J - 1);
    var decpt := n;
    q, t := p, [];
    ghost var v: nat := 0;
    NoDigits();
    assert b[..p] + [] == b[..p];
    while true
      invariant 1 <= j <= J && |t| == J - j && q == p + |t| && AllDigits(t) && v == DigitsVal(t)
      invariant b[..q] == old(b[..p]) + t
      invariant n * Pow(10, |t|) == v * (10 * k) + decpt && 0 <= decpt < 10 * k
      decreases j
    {
      var i := decpt / k;
      ExponentStep(n, |t|, v, k, decpt);
      OneMore(t, DigitChar(i));
      q := Put(b, q, DigitChar(i));
      ghost var t0 := t;
      t := t + [DigitChar(i)];
      j := j - 1;
      if j <= 0 {
        ExponentEnds(n, v, k, decpt, J);
        if J > 2 { LeadsNonzero(t); }
        return;
      }
      v := 10 * v + i;
      decpt := decpt - i * k;
      decpt := decpt * 10;
    }
  }

  /** One digit, and the others after a point. */
  method PutScientific(b: array<Byte>, p: nat, d: Bytes) returns (q: nat)
    requires d != [] && p + |d| + 1 < b.Length
    modifies b
    ensures q <= p + |d| + 1 && b[..q] == old(b[..p]) + ([d[0]] + (if |d| > 1 then "." + d[1..] else ""))
  {
    q := Put(b, p, d[0]);
    if |d| > 1 {
      q := Put(b, q, '.');
      q := Copy(b, q, d[1..]);
    }
  }

  lemma Joined(before: Bytes, x: Bytes, y: Bytes, z: Bytes, t: Bytes)
    ensures before + x + y + z + t == before + (x + y + z + t)
  {
  }

  /** The exponential layout. */
  method PutExponential(b: array<Byte>, p: nat, d: Bytes, decpt: int) returns (q: nat, ghost t: Bytes)
    requires d != [] && p + |d| + 6 < b.Length && -999 < decpt < 1000
    modifies b
    ensures IsExponent(t, Magnify(decpt - 1)) && |t| <= 3 && q < b.Length && b[q] == '\0'
    ensures b[..q] == old(b[..p])
            + ([d[0]] + (if |d| > 1 then "." + d[1..] else "") + "e" + (if decpt - 1 < 0 then "-" else "+") + t)
  {
    hide IsExponent;
    q := PutScientific(b, p, d);
    q := Put(b, q, 'e');
    var n := decpt - 1;
    if n < 0 {
      q := Put(b, q, '-');
      n := -n;
    } else {
      q := Put(b, q, '+');
    }
    q, t := PutExponent(b, q, n);
    Joined(old(b[..p]), [d[0]] + (if |d| > 1 then "." + d[1..] else ""), "e", if decpt - 1 < 0 then "-" else "+", t);
    b[q] := '\0';
  }

  /** The layout without exponent for a number of at least one: the point goes in after decpt digits. */
  method PutPlain(b: array<Byte>, p: nat, d: Bytes, decpt0: int) returns (q: nat)
    requires d != [] && decpt0 > 0 && p + |d| + 1 < b.Length && p + decpt0 + 1 < b.Length
    modifies b
    ensures q < b.Length && b[q] == '\0'
    ensures b[..q] == old(b[..p]) + (if |d| <= decpt0 then d + Zeros(decpt0 - |d|) else d[..decpt0] + "." + d[decpt0..])
  {
    ghost var before := b[..p];
    var decpt, i := decpt0, 0;
    q := p;
    while i < |d|
      invariant 0 <= i <= |d| && decpt == decpt0 - i && q == p + i + (if decpt0 < |d| && decpt0 <= i then 1 else 0)
      invariant b[..q] == before + (if decpt0 < |d| && decpt0 <= i then d[..decpt0] + "." + d[decpt0..i] else d[..i])
    {
      q := Put(b, q, d[i]);
      i := i + 1;
      decpt := decpt - 1;
      if decpt == 0 && i < |d| {
        q := Put(b, q, '.');
      }
    }
    if decpt > 0 {
      q := PutZeros(b, q, decpt);
    }
    b[q] := '\0';
  }

  /** The layout without exponent for a number below one. */
  method PutSmall(b: array<Byte>, p: nat, d: Bytes, decpt: int) returns (q: nat)
    requires decpt <= 0 && p + 2 - decpt + |d| < b.Length
    modifies b
    ensures q < b.Length && b[q] == '\0' && b[..q] == old(b[..p]) + ("0." + Zeros(-decpt) + d)
  {
    ghost var before := b[..p];
    q := Put(b, p, '0');
    q := Put(b, q, '.');
    q := PutZeros(b, q, -decpt);
    q := Copy(b, q, d);
    assert b[..q] == before + ("0." + Zeros(-decpt) + d);
  }

  /** fpconv_g_fmt, given what dtoa returned; decpt 9999 comes with the text of an infinity or NaN. */
  method Format(b: array<Byte>, sign: bool, d: Bytes, decpt: int, precision: nat) returns (len: nat, ghost t: Bytes)
    requires d != [] && |d| <= precision && (decpt == 9999 || -999 < decpt < 1000) && precision + 8 < b.Length
    requires decpt == 9999 ==> |d| + 1 < b.Length
    modifies b
    ensures len < b.Length && b[len] == '\0'
    ensures b[..len] == (if sign then "-" else "") + (if decpt == 9999 then d else Layout(d, decpt, precision, t))
    ensures decpt != 9999 && Exponential(decpt, precision) ==> IsExponent(t, Magnify(decpt - 1)) && |t| <= 3
  {
    t := [];
    var p := 0;
    if sign {
      p := Put(b, p, '-');
    }
    ghost var before := b[..p];
    assert before == if sign then "-" else "";
    if decpt == 9999 {
      len := Copy(b, p, d);
    } else if decpt <= -4 || decpt > precision {
      len, t := PutExponential(b, p, d, decpt);
    } else if decpt <= 0 {
      len := PutSmall(b, p, d, decpt);
    } else {
      len := PutPlain(b, p, d, decpt);
    }
  }

  // ----- what the text is -----

  /** The parts of a layout: digits before and after the point, exponent. */
  function Parts(d: Bytes, decpt: int, precision: nat): (Bytes, Bytes, int)
    requires d != []
  {
    if Exponential(decpt, precision) then (d[..1], d[1..], decpt - 1)
    else if decpt <= 0 then ("0", Zeros(-decpt) + d, 0)
    else if |d| <= decpt then (d + Zeros(decpt - |d|), [], 0)
    else (d[..decpt], d[decpt..], 0)
  }

  function ExpText(e: int, exponential: bool, t: Bytes): Bytes {
    if exponential then "e" + (if e < 0 then "-" else "+") + t else ""
  }

  function PointText(fp: Bytes): Bytes { if fp == [] then "" else "." + fp }

  lemma LayoutParts(d: Bytes, decpt: int, precision: nat, t: Bytes)
    requires d != []
    ensures var (ip, fp, e) := Parts(d, decpt, precision);
            Layout(d, decpt, precision, t) == ip + PointText(fp) + ExpText(e, Exponential(decpt, precision), t)
  {
    if Exponential(decpt, precision) {
      assert d[..1] == [d[0]];
    } else if decpt <= 0 {
      assert "0." + Zeros(-decpt) + d == "0" + ("." + (Zeros(-decpt) + d)) + "";
    } else if |d| <= decpt {
      assert d + Zeros(decpt - |d|) + "" + "" == d + Zeros(decpt - |d|);
    } else {
      assert d[..decpt] + "." + d[decpt..] == d[..decpt] + ("." + d[decpt..]) + "";
    }
  }

  lemma PartsShape(d: Bytes, decpt: int, precision: nat)
    requires FromDtoa(d, decpt) && precision >= 1
    ensures var (ip, fp, e) := Parts(d, decpt, precision);
            JsonInt(ip) && JsonFrac(PointText(fp)) && AllDigits(fp) && (!Exponential(decpt, precision) ==> e == 0)
  {
    var (ip, fp, e) := Parts(d, decpt, precision);
    assert AllDigits(ip) && AllDigits(fp);
    assert fp != [] ==> PointText(fp)[1..] == fp;
  }

  lemma ExpShape(e: int, t: Bytes)
    requires AllDigits(t) && t != []
    ensures JsonExp(ExpText(e, true, t))
  {
    assert ExpText(e, true, t)[2..] == t;
  }

  /** The text of every finite number is a JSON number. */
  lemma FormatIsJson(sign: bool, d: Bytes, decpt: int, precision: nat, t: Bytes)
    requires FromDtoa(d, decpt) && precision >= 1
             && (Exponential(decpt, precision) ==> IsExponent(t, Magnify(decpt - 1)))
    ensures JsonNumber((if sign then "-" else "") + Layout(d, decpt, precision, t))
  {
    hide DigitsVal, Layout, Parts, PointText, ExpText, Exponential, JsonInt, JsonFrac, JsonExp, JsonNumber;
    LayoutParts(d, decpt, precision, t);
    PartsShape(d, decpt, precision);
    var (ip, fp, e) := Parts(d, decpt, precision);
    var minus, exp := if sign then "-" else "", ExpText(e, Exponential(decpt, precision), t);
    if Exponential(decpt, precision) { ExpShape(e, t); } else { EmptyExp(e, t); }
    Composed(minus, ip, PointText(fp), exp);
  }

  lemma EmptyExp(e: int, t: Bytes)
    ensures JsonExp(ExpText(e, false, t))
  {
  }

  lemma Composed(minus: Bytes, whole: Bytes, frac: Bytes, exp: Bytes)
    requires (minus == "" || minus == "-") && JsonInt(whole) && JsonFrac(frac) && JsonExp(exp)
    ensures JsonNumber(minus + (whole + frac + exp))
  {
    hide JsonInt, JsonFrac, JsonExp;
    assert minus + (whole + frac + exp) == minus + whole + frac + exp;
  }

  /** With at most 14 digits and the exponents that doubles reach, no text exceeds 21 bytes. */
  lemma FormatLength(sign: bool, d: Bytes, decpt: int, precision: nat, t: Bytes)
    requires FromDtoa(d, decpt) && |d| <= precision && precision >= 1 && (Exponential(decpt, precision) ==> |t| <= 3)
    ensures |(if sign then "-" else "") + Layout(d, decpt, precision, t)| <= precision + 7
  {
  }

  // ----- reading it back -----

  /** What follows a number without being part of it. */
  /** Reading the text gives the sign, the parts and nothing of what follows. */
  lemma FormatRescans(sign: bool, d: Bytes, decpt: int, precision: nat, t: Bytes, rest: Bytes)
    requires FromDtoa(d, decpt) && precision >= 1 && Ended(rest)
    requires Exponential(decpt, precision) ==> IsExponent(t, Magnify(decpt - 1))
    ensures var text := (if sign then "-" else "") + Layout(d, decpt, precision, t);
            var (ip, fp, e) := Parts(d, decpt, precision);
            Greedy(text + rest) == Decimal(sign, ip, fp, e, |text|)
  {
    hide DigitsVal, Layout, Exponential, Greedy, IsExponent, Parts, ExpText, PointText;
    LayoutParts(d, decpt, precision, t);
    var (ip, fp, e) := Parts(d, decpt, precision);
    PartsSome(d, decpt, precision);
    PartsRescan(if sign then "-" else "", ip, fp, e, Exponential(decpt, precision), t, rest);
  }

  lemma PartsRescan(minus: Bytes, ip: Bytes, fp: Bytes, e: int, exponential: bool, t: Bytes, rest: Bytes)
    requires SignText(minus) && ip != [] && AllDigits(ip) && AllDigits(fp) && Ended(rest)
    requires if exponential then IsExponent(t, Magnify(e)) else e == 0
    ensures var body := ip + PointText(fp) + ExpText(e, exponential, t);
            Greedy(minus + body + rest) == Decimal(minus == "-", ip, fp, e, |minus + body|)
  {
    hide DigitsVal, Greedy, IsExponent, Ended;
    var point, exp := PointText(fp), ExpText(e, exponential, t);
    var body := ip + point + exp;
    assert minus + body + rest == [] + minus + (body + rest);
    if exponential {
      var esign := if e < 0 then "-" else "+";
      ExponentIs(t, e);
      assert exp == ['e'] + esign + t;
      NotStarted(rest);
      ScientificRead([], minus, ip, fp != [], fp, exp, 'e', esign, t, rest);
    } else {
      assert body == ip + point;
      PlainRead([], minus, ip, fp != [], fp, rest);
    }
  }

  lemma NotStarted(rest: Bytes)
    requires Ended(rest)
    ensures !IsDigit(Peek(rest, 0))
  {
  }

  lemma ExponentIs(t: Bytes, e: int)
    requires IsExponent(t, Magnify(e))
    ensures AllDigits(t) && t != [] && SignedValue(if e < 0 then "-" else "+", t) == e
  {
    hide DigitsVal;
  }

  lemma PartsSome(d: Bytes, decpt: int, precision: nat)
    requires FromDtoa(d, decpt) && precision >= 1
    ensures var (ip, fp, e) := Parts(d, decpt, precision);
            && ip != [] && AllDigits(ip) && AllDigits(fp)
            && (if Exponential(decpt, precision) then e == decpt - 1 else e == 0)
  {
  }

  lemma SmallValue(d: Bytes, decpt: int)
    requires decpt <= 0
    ensures DigitsVal("0" + (Zeros(-decpt) + d)) == DigitsVal(d)
  {
    hide DigitsVal, Pow;
    PowUnit(10);
    assert "0" + (Zeros(-decpt) + d) == ("0" + Zeros(-decpt)) + d + [];
    DropZeros("0" + Zeros(-decpt), d, []);
  }

  lemma WholeValue(d: Bytes, n: nat)
    ensures DecimalValue(DigitsVal(d + Zeros(n)), 0) == DecimalValue(DigitsVal(d), n)
  {
    hide DigitsVal, Pow, DecimalValue;
    assert d + Zeros(n) == [] + d + Zeros(n);
    DropZeros([], d, Zeros(n));
    ScaleValue(DigitsVal(d), n, 0, n);
  }

  /** The text denotes exactly 0.d * 10^decpt. */
  lemma PartsValue(d: Bytes, decpt: int, precision: nat)
    requires FromDtoa(d, decpt)
    ensures var (ip, fp, e) := Parts(d, decpt, precision);
            DecimalValue(DigitsVal(ip + fp), e - |fp|) == DecimalValue(DigitsVal(d), decpt - |d|)
  {
    hide DigitsVal, DecimalValue, Exponential;
    if Exponential(decpt, precision) {
      assert d[..1] + d[1..] == d;
    } else if decpt <= 0 {
      SmallValue(d, decpt);
    } else if |d| <= decpt {
      WholeValue(d, decpt - |d|);
      assert d + Zeros(decpt - |d|) + [] == d + Zeros(decpt - |d|);
    } else {
      assert d[..decpt] + d[decpt..] == d;
    }
  }

  lemma ZeroParts(d: Bytes, decpt: int, precision: nat)
    requires FromDtoa(d, decpt) && precision >= 1
    ensures var (ip, fp, e) := Parts(d, decpt, precision);
            AllZeros(ip + fp) <==> d == "0"
  {
    var (ip, fp, e) := Parts(d, decpt, precision);
    var digits := ip + fp;
    if Exponential(decpt, precision) || decpt > 0 {
      assert digits[0] == d[0];
    } else {
      assert digits[1 - decpt] == d[0];
    }
  }

  lemma FoundPositive(r: Scanned, data: Bytes, start: nat, n: Number)
    requires Right(r, data, start, n) && r.Found? && n.Decimal?
    ensures !AllZeros(n.ip + n.fp)
  {
    hide DigitsVal, Clean, Pow, Digits;
    CleanPositive(r.m, data);
    PowPos(10, |n.fp| - r.m.nf);
    MulPos(DigitsVal(Digits(r.m, data)), Pow(10, |n.fp| - r.m.nf));
    if AllZeros(n.ip + n.fp) { DigitsZeros(n.ip + n.fp); }
  }

  lemma PartsRange(d: Bytes, decpt: int, precision: nat)
    requires d != [] && -999 < decpt < 1000
    ensures var (ip, fp, e) := Parts(d, decpt, precision); -999 <= e <= 999
  {
  }

  /** Formatting and scanning again recovers the same decimal. */
  lemma FormatRoundTrip(sign: bool, d: Bytes, decpt: int, precision: nat, t: Bytes, data: Bytes, r: Scanned)
    requires FromDtoa(d, decpt) && precision >= 1 && -999 < decpt < 1000
    requires Exponential(decpt, precision) ==> IsExponent(t, Magnify(decpt - 1))
    requires data == (if sign then "-" else "") + Layout(d, decpt, precision, t) + "\0"
    requires Right(r, data, 0, Greedy(From(data, 0)))
    ensures (r.Found? || r.Zero?) && r.sign == sign && r.end == |data| - 1
    ensures r.Found? ==> Inside(r.m, data)
    ensures r.Found? ==> DecimalValue(DigitsVal(Digits(r.m, data)), r.e) == DecimalValue(DigitsVal(d), decpt - |d|)
    ensures r.Zero? <==> d == "0"
  {
    hide DigitsVal, DecimalValue, Layout, Greedy, Counts, Digits, Parts;
    var text := (if sign then "-" else "") + Layout(d, decpt, precision, t);
    assert From(data, 0) == text + [];
    FormatRescans(sign, d, decpt, precision, t, []);
    PartsRange(d, decpt, precision);
    PartsValue(d, decpt, precision);
    ScannedValue(r, data, 0, Greedy(text + []));
    ZeroParts(d, decpt, precision);
    if r.Found? { FoundPositive(r, data, 0, Greedy(text + [])); }
  }
}
