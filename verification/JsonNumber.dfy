/** Numbers as section 2.4 of RFC 4627 defines them. */
module NumberGrammar {
  import opened StrBufs
  import opened JsonStrings
  import opened Decimal

  /** The number grammar of section 2.4 of RFC 4627. */
  ghost predicate JsonNumber(s: Bytes) {
    exists minus: Bytes, whole: Bytes, frac: Bytes, exp: Bytes ::
      s == minus + whole + frac + exp && (minus == "" || minus == "-") && JsonInt(whole) && JsonFrac(frac)
      && JsonExp(exp)
  }

  predicate JsonInt(s: Bytes) { s != [] && AllDigits(s) && (s[0] == '0' ==> |s| == 1) }

  predicate JsonFrac(s: Bytes) { s == "" || (|s| >= 2 && s[0] == '.' && AllDigits(s[1..])) }

  /** e, a sign or none, digits. */
  predicate JsonExp(s: Bytes) {
    var sign := if Peek(s, 1) == '+' || Peek(s, 1) == '-' then 1 else 0;
    s == "" || (|s| >= 2 + sign && (s[0] == 'e' || s[0] == 'E') && AllDigits(s[1 + sign..]))
  }
}
