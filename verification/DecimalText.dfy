/** What the scanner of fpconv_strtod makes of a number's text, letter by letter. */
module DecimalTexts {
  import opened StrBufs
  import opened JsonStrings
  import opened Decimal
  import opened Scanner

  /** Blanks in front of a number: tab, line feed, vertical tab, form feed, carriage return, space. */
  predicate Blanks(w: Bytes) {
    forall i :: 0 <= i < |w| ==> w[i] as int in {9, 10, 11, 12, 13, 32}
  }

  predicate SignText(s: Bytes) { s == "" || s == "+" || s == "-" }

  /** The exponent part: e or E, a sign or none, digits. */
  predicate ExponentPart(x: Bytes, letter: Byte, sign: Bytes, d: Bytes) {
    (letter == 'e' || letter == 'E') && SignText(sign) && AllDigits(d) && d != [] && x == [letter] + sign + d
  }

  function SignedValue(sign: Bytes, d: Bytes): int { if sign == "-" then -DigitsVal(d) else DigitsVal(d) }

  lemma ExponentRead(x: Bytes, letter: Byte, sign: Bytes, d: Bytes, rest: Bytes)
    requires ExponentPart(x, letter, sign, d) && !IsDigit(Peek(rest, 0))
    ensures Exponent(x + rest) == (SignedValue(sign, d), |x|)
  {
    hide Run, DigitsVal;
    var s, k := x + rest, 1 + |sign|;
    assert s[0] == letter && s[k..] == d + rest;
    assert s[1] == (if sign == [] then d[0] else sign[0]);
    RunIs(d, rest);
  }

  /** The letter of an exponent, perhaps a sign, and no digit. */
  predicate NoExponentDigits(rest: Bytes) {
    !IsDigit(if Peek(rest, 1) == '+' || Peek(rest, 1) == '-' then Peek(rest, 2) else Peek(rest, 1))
  }

  /** Nothing that would go on with a number. */
  predicate Ended(rest: Bytes) {
    var c := Peek(rest, 0);
    !IsDigit(c) && c != '.' && c != 'x' && c != 'X' && (c == 'e' || c == 'E' ==> NoExponentDigits(rest))
  }

  lemma NoExponentRead(rest: Bytes)
    requires Ended(rest)
    ensures Exponent(rest) == (0, 0)
  {
    hide Run;
    var k := if Peek(rest, 1) == '+' || Peek(rest, 1) == '-' then 2 else 1;
    if |rest| >= k && (rest[0] == 'e' || rest[0] == 'E') {
      assert Peek(rest[k..], 0) == Peek(rest, k);
      NoRun(rest[k..]);
    }
  }

  lemma NoRun(s: Bytes)
    requires !IsDigit(Peek(s, 0))
    ensures Run(s) == []
  {
  }

  lemma WithoutPoint(s: Bytes, ip: Bytes, more: Bytes)
    requires Run(s) == ip && ip != [] && |ip| <= |s| && s[|ip|..] == more && Peek(more, 0) != '.'
    requires Peek(s, 0) == '0' ==> Peek(s, 1) != 'x' && Peek(s, 1) != 'X'
    ensures Scanner.Unsigned(s) == Decimal(false, ip, [], Exponent(more).0, |ip| + Exponent(more).1)
  {
    hide Run, Exponent, Peek, AllDigits, IsDigit;
    assert more[0..] == more;
  }

  lemma WithPoint(s: Bytes, ip: Bytes, tail: Bytes, fp: Bytes, more: Bytes)
    requires Run(s) == ip && ip + fp != [] && |ip| <= |s| && s[|ip|..] == tail && Peek(tail, 0) == '.' && tail != []
    requires Run(tail[1..]) == fp && 1 + |fp| <= |tail| && tail[1 + |fp|..] == more
    requires Peek(s, 0) == '0' ==> Peek(s, 1) != 'x' && Peek(s, 1) != 'X'
    ensures Scanner.Unsigned(s) == Decimal(false, ip, fp, Exponent(more).0, |ip| + 1 + |fp| + Exponent(more).1)
  {
    hide Run, Exponent, Peek, AllDigits, IsDigit;
  }

  lemma NotHex(ip: Bytes, t: Bytes)
    requires AllDigits(ip) && Peek(t, 0) != 'x' && Peek(t, 0) != 'X' && !IsDigit(Peek(t, 0))
    ensures Peek(ip + t, 0) == '0' ==> Peek(ip + t, 1) != 'x' && Peek(ip + t, 1) != 'X'
  {
    if ip == [] {
      assert ip + t == t;
    } else {
      assert Peek(ip + t, 1) == if |ip| > 1 then ip[1] else Peek(t, 0);
    }
  }

  lemma PointTexts(ip: Bytes, fp: Bytes, more: Bytes)
    ensures var t := "." + fp + more;
            ip + ("." + fp) + more == ip + t && (ip + t)[|ip|..] == t && t[1..] == fp + more && t[1 + |fp|..] == more
  {
  }

  /** Digits with a point among them or not, and what follows that: an exponent or the end. */
  lemma UnsignedRead(ip: Bytes, point: bool, fp: Bytes, more: Bytes)
    requires AllDigits(ip) && AllDigits(fp) && ip + fp != [] && (!point ==> fp == [] && Peek(more, 0) != '.')
    requires !IsDigit(Peek(more, 0)) && Peek(more, 0) != 'x' && Peek(more, 0) != 'X'
    ensures var s, q := ip + (if point then "." + fp else "") + more, |ip| + (if point then 1 + |fp| else 0);
            Scanner.Unsigned(s) == Decimal(false, ip, fp, Exponent(more).0, q + Exponent(more).1)
  {
    hide Run, Exponent, Scanner.Unsigned;
    if point {
      var t := "." + fp + more;
      var s := ip + t;
      PointTexts(ip, fp, more);
      RunIs(ip, t);
      RunIs(fp, more);
      NotHex(ip, t);
      WithPoint(s, ip, t, fp, more);
    } else {
      var s := ip + more;
      assert ip + "" + more == s && s[|ip|..] == more;
      RunIs(ip, more);
      NotHex(ip, more);
      WithoutPoint(s, ip, more);
    }
  }

  lemma {:induction false} BlanksSkipped(w: Bytes, s: Bytes)
    requires Blanks(w)
    ensures SkipBlank(w + s) == SkipBlank(s)
  {
    if w == [] {
      assert w + s == s;
    } else {
      assert (w + s)[1..] == w[1..] + s && w[0] as int in {9, 10, 11, 12, 13, 32};
      BlanksSkipped(w[1..], s);
    }
  }

  /** Blanks and a sign in front. */
  lemma GreedyRead(w: Bytes, sign: Bytes, s: Bytes)
    requires Blanks(w) && SignText(sign) && s != [] && (IsDigit(s[0]) || s[0] == '.')
    ensures Greedy(w + sign + s) == Signed(Scanner.Unsigned(s), sign == "-", |w| + |sign|)
  {
    hide Scanner.Unsigned;
    var t := sign + s;
    assert w + sign + s == w + t;
    BlanksSkipped(w, t);
    assert t[0] == (if sign == [] then s[0] else sign[0]);
    assert SkipBlank(t) == t;
    if sign == [] { assert t == s; } else { assert t[1..] == s; }
  }

  /** The text of a decimal number with an exponent. */
  lemma ScientificRead(w: Bytes, sign: Bytes, ip: Bytes, point: bool, fp: Bytes, x: Bytes, letter: Byte, esign: Bytes,
      d: Bytes, rest: Bytes)
    requires Blanks(w) && SignText(sign) && AllDigits(ip) && AllDigits(fp) && ip + fp != [] && (!point ==> fp == [])
    requires ExponentPart(x, letter, esign, d) && !IsDigit(Peek(rest, 0))
    ensures var body := ip + (if point then "." + fp else "") + x;
            Greedy(w + sign + (body + rest)) ==
            Decimal(sign == "-", ip, fp, SignedValue(esign, d), |w| + |sign| + |body|)
  {
    hide Exponent, Scanner.Unsigned, DigitsVal, Greedy;
    var mid := if point then "." + fp else "";
    var body := ip + mid + x;
    assert (x + rest)[0] == letter;
    ExponentRead(x, letter, esign, d, rest);
    UnsignedRead(ip, point, fp, x + rest);
    assert body + rest == ip + mid + (x + rest);
    assert (body + rest)[0] == if ip != [] then ip[0] else '.';
    GreedyRead(w, sign, body + rest);
  }

  /** And without. */
  lemma PlainRead(w: Bytes, sign: Bytes, ip: Bytes, point: bool, fp: Bytes, rest: Bytes)
    requires Blanks(w) && SignText(sign) && AllDigits(ip) && AllDigits(fp) && ip + fp != [] && (!point ==> fp == [])
    requires Ended(rest)
    ensures var body := ip + (if point then "." + fp else "");
            Greedy(w + sign + (body + rest)) == Decimal(sign == "-", ip, fp, 0, |w| + |sign| + |body|)
  {
    hide Exponent, Scanner.Unsigned, Greedy;
    var body := ip + (if point then "." + fp else "");
    NoExponentRead(rest);
    UnsignedRead(ip, point, fp, rest);
    assert (body + rest)[0] == if ip != [] then ip[0] else '.';
    GreedyRead(w, sign, body + rest);
  }

  /** The start of a hexadecimal literal. */
  lemma HexStart(w: Bytes, sign: Bytes, letter: Byte, rest: Bytes)
    requires Blanks(w) && SignText(sign) && (letter == 'x' || letter == 'X')
    ensures Greedy(w + sign + (['0', letter] + rest)) == Hexadecimal(sign == "-", |w| + |sign| + 2)
  {
    hide Greedy;
    GreedyRead(w, sign, ['0', letter] + rest);
  }

  /** No number: neither a digit nor a point with a digit after it. */
  lemma NothingRead(w: Bytes, sign: Bytes, s: Bytes)
    requires Blanks(w) && SignText(sign) && !IsDigit(Peek(s, 0)) && !(Peek(s, 0) == '.' && IsDigit(Peek(s, 1)))
    requires sign == "" ==> Peek(s, 0) != '+' && Peek(s, 0) != '-' && Peek(s, 0) as int !in {9, 10, 11, 12, 13, 32}
    ensures Greedy(w + sign + s).NoNumber?
  {
    hide Run, Exponent;
    var t := sign + s;
    assert w + sign + s == w + t;
    BlanksSkipped(w, t);
    assert Peek(t, 0) == (if sign == [] then Peek(s, 0) else sign[0]);
    assert SkipBlank(t) == t;
    if sign == [] { assert t == s; } else { assert t[1..] == s; }
    NoRun(s);
    assert s[0..] == s;
    if Peek(s, 0) == '.' {
      assert Peek(s[1..], 0) == Peek(s, 1);
      NoRun(s[1..]);
    }
  }
}
