/** The growable byte buffer of strbuf.c and strbuf.h. */
module StrBufs {
  import opened Arith

  /** A C char, read as unsigned. */
  type Byte = c: char | c as int < 256

  const STRBUF_DEFAULT_SIZE := 1023
  const STRBUF_DEFAULT_INCREMENT := -2

  /** size grown by a factor until it reaches req. */
  ghost predicate Grown(size: nat, factor: nat, req: nat, newsize: nat) {
    && newsize >= req
    && exists k: nat :: newsize == size * Pow(factor, k) && (k > 0 ==> size * Pow(factor, k - 1) < req)
  }

  function RoundUp(size: nat, step: nat): nat
    requires step > 0
  {
    (size + step - 1) / step * step
  }

  /** What calculate_new_size promises: see LinearGap for the linear case. */
  ghost predicate NewSize(size: nat, increment: int, len: nat, newsize: nat) {
    if size > len + 1 then newsize == len + 1
    else if increment < 0 then Grown(size, -increment, len + 1, newsize)
    else increment > 0 && newsize == RoundUp(size, increment)
  }

  class StrBuf {
    var buf: array<Byte>
    var size: nat
    var length: nat
    var increment: int
    var reallocs: nat

    ghost predicate Valid()
      reads this
    {
      buf.Length == size && length < size && (increment > 0 || increment < -1)
    }

    ghost function Contents(): seq<Byte>
      requires Valid()
      reads this, buf
    {
      buf[..length]
    }

    constructor (len: int)
      ensures Valid() && fresh(buf) && Contents() == [] && increment == STRBUF_DEFAULT_INCREMENT && reallocs == 0
      ensures size == if len <= 0 then STRBUF_DEFAULT_SIZE else len + 1
    {
      size := if len <= 0 then STRBUF_DEFAULT_SIZE else len + 1;
      length := 0;
      increment := STRBUF_DEFAULT_INCREMENT;
      reallocs := 0;
      buf := new Byte[if len <= 0 then STRBUF_DEFAULT_SIZE else len + 1];
      new;
      buf[length] := '\0';
    }

    /** Bytes that can be appended, keeping one for a terminator. */
    function EmptyLength(): nat
      requires Valid()
      reads this
    {
      size - length - 1
    }

    method CalculateNewSize(len: nat) returns (newsize: nat)
      requires Valid() && len > 0
      ensures NewSize(size, increment, len, newsize)
    {
      var reqsize := len + 1;
      if size > reqsize {
        return reqsize;
      }
      newsize := size;
      if increment < 0 {
        ghost var k: nat := 0;
        assert Pow(-increment, 0) == 1;
        while newsize < reqsize
          invariant newsize > 0 && newsize == size * Pow(-increment, k)
          invariant k > 0 ==> size * Pow(-increment, k - 1) < reqsize
          decreases reqsize - newsize
        {
          Rotate(size, -increment, Pow(-increment, k));
          MulMono(newsize, 2, -increment);
          MulComm(newsize, -increment);
          newsize := newsize * -increment;
          k := k + 1;
        }
      } else {
        newsize := (newsize + increment - 1) / increment * increment;
      }
    }

    /** strbuf_resize: the contents survive; the new size is the one calculated. */
    method Resize(len: nat)
      requires Valid() && len > 0 && len >= length
      modifies this`buf, this`size, this`reallocs
      ensures Valid() && fresh(buf) && Contents() == old(Contents()) && reallocs == old(reallocs) + 1
      ensures NewSize(old(size), increment, len, size)
    {
      var newsize := CalculateNewSize(len);
      if increment > 0 && size <= len + 1 {
        RoundsUp(size, increment);
      }
      size := newsize;
      var bytes := new Byte[newsize];
      var i := 0;
      while i < length
        invariant 0 <= i <= length && bytes[..i] == buf[..i]
        modifies bytes
      {
        bytes[i] := buf[i];
        i := i + 1;
      }
      buf := bytes;
      reallocs := reallocs + 1;
    }

    /** len more bytes fit, now or after one resize: exponential growth always suffices, linear growth may not. */
    predicate Enough(len: nat)
      requires Valid()
      reads this
    {
      EmptyLength() >= len || increment < 0 || RoundUp(size, increment) > length + len
    }

    /** Room for len more bytes and a terminator, exactly when one resize can give it. */
    method EnsureEmptyLength(len: nat)
      requires Valid()
      modifies this`buf, this`size, this`reallocs
      ensures Valid() && (buf == old(buf) || fresh(buf)) && Contents() == old(Contents())
      ensures EmptyLength() >= len <==> old(Enough(len))
      ensures if len <= old(EmptyLength()) then size == old(size) else NewSize(old(size), increment, length + len, size)
    {
      if len > EmptyLength() {
        Resize(length + len);
      }
    }

    method AppendCharUnsafe(c: Byte)
      requires Valid() && EmptyLength() >= 1
      modifies this`length, buf
      ensures Valid() && buf == old(buf) && Contents() == old(Contents()) + [c]
    {
      buf[length] := c;
      length := length + 1;
    }

    method AppendChar(c: Byte)
      requires Valid() && Enough(1)
      modifies this`buf, this`size, this`reallocs, this`length, buf
      ensures Valid() && (buf == old(buf) || fresh(buf)) && Contents() == old(Contents()) + [c]
    {
      EnsureEmptyLength(1);
      buf[length] := c;
      length := length + 1;
    }

    method AppendMemUnsafe(s: seq<Byte>)
      requires Valid() && EmptyLength() >= |s|
      modifies this`length, buf
      ensures Valid() && buf == old(buf) && Contents() == old(Contents()) + s
    {
      var i := 0;
      while i < |s|
        invariant 0 <= i <= |s| && buf[..length] == old(buf[..length]) && buf[length..length + i] == s[..i]
        modifies buf
      {
        buf[length + i] := s[i];
        i := i + 1;
      }
      length := length + |s|;
    }

    method AppendMem(s: seq<Byte>)
      requires Valid() && Enough(|s|)
      modifies this`buf, this`size, this`reallocs, this`length, buf
      ensures Valid() && (buf == old(buf) || fresh(buf)) && Contents() == old(Contents()) + s
    {
      EnsureEmptyLength(|s|);
      AppendMemUnsafe(s);
    }

    /** One more byte fits, after a resize if none did; n bytes fitted and still do. */
    method MakeSpace(ghost n: nat)
      requires Valid() && n >= 1 && Enough(n)
      modifies this`buf, this`size, this`reallocs
      ensures Valid() && (buf == old(buf) || fresh(buf)) && Contents() == old(Contents())
      ensures EmptyLength() >= 1 && Enough(n)
      ensures old(EmptyLength()) >= 1 ==> buf == old(buf) && size == old(size)
    {
      if EmptyLength() < 1 {
        Resize(length + 1);
      }
    }

    /** strbuf_append_string: byte by byte, growing when the room runs out. Linear growth can help once. */
    method AppendString(s: seq<Byte>)
      requires Valid() && Enough(|s|)
      modifies this`buf, this`size, this`reallocs, this`length, buf
      ensures Valid() && (buf == old(buf) || fresh(buf)) && Contents() == old(Contents()) + s
      ensures old(EmptyLength()) >= |s| ==> buf == old(buf) && size == old(size)
    {
      hide RoundUp;
      var i := 0;
      while i < |s|
        invariant 0 <= i <= |s| && Valid() && (buf == old(buf) || fresh(buf))
        invariant Contents() == old(Contents()) + s[..i] && Enough(|s| - i)
        invariant old(EmptyLength()) >= |s| ==> buf == old(buf) && size == old(size) && EmptyLength() >= |s| - i
      {
        MakeSpace(|s| - i);
        buf[length] := s[i];
        length := length + 1;
        i := i + 1;
      }
    }

    /** sprintf into the empty part, terminator included, then strbuf_extend_length. */
    method Print(text: seq<Byte>)
      requires Valid() && EmptyLength() >= |text|
      modifies this`length, buf
      ensures Valid() && buf == old(buf) && Contents() == old(Contents()) + text
    {
      AppendMemUnsafe(text);
      buf[length] := '\0';
    }

    method Reset()
      requires Valid()
      modifies this`length
      ensures Valid() && Contents() == []
    {
      length := 0;
    }

    method EnsureNull()
      requires Valid()
      modifies buf
      ensures Contents() == old(Contents()) && buf[length] == '\0'
    {
      buf[length] := '\0';
    }
  }

  /** Rounding up takes the next multiple, the number itself if it is one. */
  lemma RoundsUp(size: nat, step: nat)
    requires step > 0
    ensures size <= RoundUp(size, step) < size + step && RoundUp(size, step) % step == 0
  {
    var q, r := (size + step - 1) / step, (size + step - 1) % step;
    assert size + step - 1 == q * step + r;
    DivModUnique(q * step, step, q, 0);
  }

  /** Exponential growth always reaches the request, and stays below the factor times it. */
  lemma ExponentialReaches(size: nat, increment: int, len: nat, newsize: nat)
    requires increment < -1 && 0 < size <= len + 1 && NewSize(size, increment, len, newsize)
    ensures len + 1 <= newsize <= -increment * (len + 1)
  {
    var k: nat :| newsize == size * Pow(-increment, k) && (k > 0 ==> size * Pow(-increment, k - 1) < len + 1);
    if k > 0 {
      Rotate(size, -increment, Pow(-increment, k - 1));
      MulMono(-increment, size * Pow(-increment, k - 1), len + 1);
      MulComm(-increment, len + 1);
    } else {
      assert Pow(-increment, 0) == 1;
      MulMono(len + 1, 1, -increment);
    }
  }

  /** Linear growth rounds the old size, so it reaches the request only when that rounding happens to. */
  lemma LinearReaches(size: nat, increment: int, len: nat, newsize: nat)
    requires increment > 0 && 0 < size <= len + 1 && NewSize(size, increment, len, newsize)
    ensures newsize >= len + 1 <==> size + (increment - size % increment) % increment >= len + 1
  {
    Padding(size, increment);
  }

  /** Rounding up adds what is missing to the next multiple. */
  lemma Padding(size: nat, step: nat)
    requires step > 0
    ensures RoundUp(size, step) == size + (step - size % step) % step
  {
    var q, r := size / step, size % step;
    assert size == q * step + r;
    if r == 0 {
      DivModUnique(size + step - 1, step, q, step - 1);
      DivModUnique(step, step, 1, 0);
    } else {
      NextTimes(q, step);
      DivModUnique(size + step - 1, step, q + 1, r - 1);
      DivModUnique(step - r, step, 0, step - r);
    }
  }

  /** A full buffer of 1024 bytes with increment 16 does not grow at all. */
  lemma LinearGap()
    ensures NewSize(1024, 16, 1024, 1024)
  {
  }
}
