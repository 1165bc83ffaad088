/** What is scanned is what bigcomp compares. */
module ReadBack {
  import opened Arith
  import opened Decimal
  import opened ShortestDigits
  import opened BigcompDigits
  import opened Midpoint
  import opened JsonStrings
  import opened Scanner
  import opened ScanNumber

  /** Without its last nz zeros, and as far as position nd0 at least. */
  lemma TrimmedDigits(s0: Bytes, nd: nat, nd0: nat, dp1: nat, nz: nat)
    requires nd0 <= nd && nz < nd && nd0 <= |s0| && (nd > nd0 ==> dp1 + (nd - nd0) <= |s0|)
    ensures var len := if nd - nz > nd0 then nd - nz else nd0;
            && (nd - nz > nd0 ==> dp1 + (nd - nz - nd0) <= |s0|)
            && Counted(s0, nd - nz, nd0, dp1) == Counted(s0, nd, nd0, dp1)[..len]
  {
  }

  /**
   What bigcomp compares, given the scanner's result: bc.nd leaves out the nz1 trailing zeros, bc.e0 makes up for
   them.
   */
  lemma BigcompInput(m: Mantissa, data: Bytes, e: int)
    requires Inside(m, data) && m.nd > 0 && Clean(Digits(m, data), m.nz1, m.y)
    ensures var s0, nd, dp1 := data[m.s0..], m.nd - m.nz1, m.nd0 + m.dplen;
            && m.nd0 <= |s0| && (nd > m.nd0 ==> dp1 + (nd - m.nd0) <= |s0|)
            && var c := Counted(s0, nd, m.nd0, dp1);
               && EndsAt(c, nd) && c[0] != '0'
               && LongDecimal(c, nd + (e + m.nz1) - 1) == DecimalValue(DigitsVal(Digits(m, data)), e)
  {
    hide Head, Clean, EndsAt, DigitsVal, DecimalValue, Counted, LongDecimal;
    CountedLength(m, data);
    TrimmedDigits(data[m.s0..], m.nd, m.nd0, m.nd0 + m.dplen, m.nz1);
    TrimmedValue(Digits(m, data), m.nz1, m.y, m.nd0, e);
  }

  lemma TrimmedValue(c: seq<char>, nz: nat, y: int, nd0: nat, e: int)
    requires Clean(c, nz, y) && nd0 <= |c|
    ensures var nd := |c| - nz;
            var d := c[..if nd > nd0 then nd else nd0];
            EndsAt(d, nd) && d[0] != '0' && LongDecimal(d, nd + (e + nz) - 1) == DecimalValue(DigitsVal(c), e)
  {
    hide Head, Clean, EndsAt, AllZeros, DigitsVal, DecimalValue;
    EndsTrimmed(c, nz, y, nd0);
    DropTail(c, if |c| - nz > nd0 then |c| - nz else nd0, e);
  }

  lemma EndsTrimmed(c: seq<char>, nz: nat, y: int, nd0: nat)
    requires Clean(c, nz, y) && nd0 <= |c|
    ensures var nd := |c| - nz;
            var len := if nd > nd0 then nd else nd0;
            0 < len && nd > 0 && EndsAt(c[..len], nd) && c[0] != '0' && AllZeros(c[len..])
  {
    hide Head;
  }

  lemma DropTail(c: seq<char>, len: nat, e: int)
    requires len <= |c| && AllZeros(c[len..])
    ensures DecimalValue(DigitsVal(c[..len]), e + (|c| - len)) == DecimalValue(DigitsVal(c), e)
  {
    hide DigitsVal, DecimalValue, Pow;
    assert c == [] + c[..len] + c[len..];
    DropZeros([], c[..len], c[len..]);
    ScaleValue(DigitsVal(c[..len]), e + (|c| - len), e, |c| - len);
  }

  lemma CountedLength(m: Mantissa, data: Bytes)
    requires Inside(m, data) && Clean(Digits(m, data), m.nz1, m.y)
    ensures |Digits(m, data)| == m.nd && m.nz1 < m.nd
  {
  }
}
