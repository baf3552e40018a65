/** Parsing of byte strings written in base 2, 4 or 16. */
module StrToData {
  import opened Common
  import opened StrParse

  datatype DataResult = DataOK | BadBase | BadDataDigit | NeedDigit | NoDataDigits

  predicate IsDataBase(base: nat) {
    base == 2 || base == 4 || base == 16
  }

  function DigitsPerByte(base: nat): (n: nat)
    requires IsDataBase(base)
    ensures n > 0
  {
    if base == 2 then 8 else if base == 4 then 4 else 2
  }

  // ---- What strtodata answers ---------------------------------------------------------------------

  datatype Answer = Answer(result: DataResult, size: Option<nat>, end: nat)

  /** The prefix of s; every string has room for looking at its first two characters. */
  function DataPrefix(s: string, base: nat): (p: Prefix)
    requires IsDataBase(base)
    ensures p.start <= |s|
  {
    BasePrefix(s, 0, |s|, base)
  }

  /** The answer depends on nothing but how many digits follow the prefix, and on what follows them. */
  function AnswerOf(s: string, base: nat): Answer
    requires IsDataBase(base)
  {
    var p := DataPrefix(s, base);
    if !IsDataBase(p.base) then
      Answer(BadBase, None, 0)
    else
      var run, n := DigitRun(s, p.start, p.base), DigitsPerByte(p.base);
      if run % n != 0 then Answer(NeedDigit, None, p.start + run)
      else if run == 0 then Answer(NoDataDigits, Some(0), p.start)
      else Answer(if p.start + run == |s| then DataOK else BadDataDigit, Some(run / n), p.start + run)
  }

  /** How many bytes are read, whether or not the whole string can be. */
  function ByteCount(s: string, base: nat): nat
    requires IsDataBase(base)
  {
    var p := DataPrefix(s, base);
    if IsDataBase(p.base) then DigitRun(s, p.start, p.base) / DigitsPerByte(p.base) else 0
  }

  /** Byte j of the data is the number its digits stand for, the most significant digit first. */
  ghost predicate IsByteAt(s: string, start: nat, base: nat, j: nat, byte: Byte)
    requires IsDataBase(base)
  {
    var n := DigitsPerByte(base);
    && start + (j + 1) * n <= |s|
    && (forall c <- s[start + j * n..start + (j + 1) * n] :: IsDigit(c, base))
    && byte == Value(s[start + j * n..start + (j + 1) * n], base)
  }

  // ---- The parser ---------------------------------------------------------------------------------

  lemma {:induction false} ValueBound(ds: string, base: nat)
    requires base >= 1 && forall c <- ds :: IsDigit(c, base)
    ensures Value(ds, base) < Power(base, |ds|)
  {
    hide HexDigit;
    if ds != "" {
      var v := Value(ds[..|ds| - 1], base);
      ValueBound(ds[..|ds| - 1], base);
      assert IsDigit(ds[|ds| - 1], base);
      Below(v, Power(base, |ds| - 1), base, HexDigit(ds[|ds| - 1]));
    }
  }

  lemma Below(v: nat, p: nat, base: nat, d: nat)
    requires v < p && d < base
    ensures v * base + d < p * base
  {
    assert (v + 1) * base <= p * base;
  }

  lemma ScaleStep(v: nat, base: nat, d: nat, p: nat)
    ensures (v * base + d) * p == v * (p * base) + d * p
  {
    assert (v * base) * p == v * (p * base);
  }

  lemma ByteRange(base: nat)
    requires IsDataBase(base)
    ensures Power(base, DigitsPerByte(base)) == 256
  {
    PowersOf16();
  }

  /** Reads the digits of one byte, most significant first, up to the first bad digit. A digit d is
      shifted left by 8 - (i + 1) * bits_per_digit places, which multiplies it by a power of the base;
      the bits it is or-ed into are still clear. */
  method ReadByte(s: string, str: nat, base: nat) returns (i: nat, byte: nat)
    requires IsDataBase(base) && str <= |s| && NUL !in s
    ensures i <= DigitsPerByte(base) && str + i <= |s|
    ensures forall k :: str <= k < str + i ==> IsDigit(s[k], base)
    ensures i < DigitsPerByte(base) ==> str + i == |s| || !IsDigit(s[str + i], base)
    ensures i == DigitsPerByte(base) ==>
              && (forall c <- s[str..str + i] :: IsDigit(c, base))
              && byte == Value(s[str..str + i], base) && byte < 256
  {
    hide HexDigit, Value, Power;
    var n := DigitsPerByte(base);
    i, byte := 0, 0;
    NoValue(base);
    assert s[str..str] == "";
    NoPower(base);
    while i < n
      invariant i <= n && str + i <= |s|
      invariant forall k :: str <= k < str + i ==> IsDigit(s[k], base)
      invariant forall c <- s[str..str + i] :: IsDigit(c, base)
      invariant byte == Value(s[str..str + i], base) * Power(base, n - i)
    {
      NulIsNoDigit(base);
      var d := HexDigit(At(s, str + i));
      if d < 0 || d >= base {
        return;
      }
      ValueStep(s, str, str + i, base);
      PowerStep(base, n - i);
      ScaleStep(Value(s[str..str + i], base), base, d, Power(base, n - i - 1));
      byte := byte + d * Power(base, n - i - 1);
      i := i + 1;
    }
    ByteRange(base);
    ValueBound(s[str..str + n], base);
  }

  lemma NoPower(base: nat)
    ensures Power(base, 0) == 1
  {
  }

  lemma PowerStep(base: nat, n: nat)
    requires n > 0
    ensures Power(base, n) == Power(base, n - 1) * base
  {
  }

  lemma RunIsGroups(s: string, start: nat, base: nat, n: nat, size: nat, i: nat)
    requires IsDataBase(base) && n == DigitsPerByte(base)
    requires start + size * n + i <= |s| && i < n
    requires forall k :: start <= k < start + size * n + i ==> IsDigit(s[k], base)
    requires start + size * n + i < |s| ==> !IsDigit(s[start + size * n + i], base)
    ensures DigitRun(s, start, base) == size * n + i
    ensures DigitRun(s, start, base) / n == size && DigitRun(s, start, base) % n == i
  {
    hide HexDigit, DigitRun;
    DigitRunIs(s, start, base, size * n + i);
    DivModUnique(size, n, i);
  }

  lemma DivModUnique(q: nat, n: nat, i: nat)
    requires i < n && (n == 2 || n == 4 || n == 8)
    ensures (q * n + i) / n == q && (q * n + i) % n == i
  {
    if n == 2 {
      assert q * n == 2 * q;
    } else if n == 4 {
      assert q * n == 4 * q;
    } else {
      assert q * n == 8 * q;
    }
  }

  /** Parses a byte string into a buffer; with no buffer, or a short one, the rest is only measured. */
  method ParseData(s: string, base: nat, data: array?<Byte>, capacity: nat)
    returns (r: DataResult, size: Option<nat>, end: nat)
    requires IsDataBase(base) && NUL !in s && (data != null ==> capacity <= data.Length)
    modifies data
    ensures Answer(r, size, end) == AnswerOf(s, base)
    ensures data != null ==>
              var p, m := DataPrefix(s, base), Min(capacity, ByteCount(s, base));
              && (forall j :: 0 <= j < m ==> IsDataBase(p.base) && IsByteAt(s, p.start, p.base, j, data[j]))
              && (forall j :: m <= j < data.Length ==> data[j] == old(data[j]))
  {
    hide HexDigit, Value, DigitRun, BasePrefix, DigitsPerByte;
    var p := HandleBasePrefix(s, 0, |s| + 2, base);   // no limit that a pointer could meet
    assert p == DataPrefix(s, base);
    if !IsDataBase(p.base) {
      return BadBase, None, 0;
    }
    var n := DigitsPerByte(p.base);
    var left := if data == null then 0 else capacity;
    var str, realsize := p.start, 0;
    while true
      invariant str == p.start + realsize * n <= |s| && (realsize > 0 ==> str < |s|)
      invariant forall k :: p.start <= k < str ==> IsDigit(s[k], p.base)
      invariant left == if data == null then 0 else capacity - Min(capacity, realsize)
      invariant data != null ==>
                  && (forall j :: 0 <= j < Min(capacity, realsize) ==>
                        IsByteAt(s, p.start, p.base, j, data[j]))
                  && (forall j :: Min(capacity, realsize) <= j < data.Length ==> data[j] == old(data[j]))
      decreases |s| - str
    {
      var i, byte := ReadByte(s, str, p.base);
      if i < n {
        RunIsGroups(s, p.start, p.base, n, realsize, i);
        if i > 0 {
          return NeedDigit, None, str + i;
        }
        return if realsize == 0 then NoDataDigits else BadDataDigit, Some(realsize), str;
      }
      assert (realsize + 1) * n == realsize * n + n;
      if left > 0 {
        data[realsize] := byte;
        left := left - 1;
      }
      str := str + n;
      realsize := realsize + 1;
      if At(s, str) == NUL {
        RunIsGroups(s, p.start, p.base, n, realsize, 0);
        return DataOK, Some(realsize), str;
      }
    }
  }

  // ---- Printed bytes are read back ----------------------------------------------------------------

  function PrintBytes(bytes: seq<Byte>, base: nat): (s: string)
    requires IsDataBase(base)
    ensures |s| == |bytes| * DigitsPerByte(base)
    ensures forall c <- s :: IsDigit(c, base)
  {
    if bytes == [] then ""
    else
      assert |bytes| * DigitsPerByte(base) == (|bytes| - 1) * DigitsPerByte(base) + DigitsPerByte(base);
      DigitsOf(bytes[0], base, DigitsPerByte(base)) + PrintBytes(bytes[1..], base)
  }

  lemma GroupBounds(j: nat, m: nat, n: nat)
    requires j < m
    ensures 0 <= j * n <= (j + 1) * n <= m * n && (j + 1) * n == j * n + n
  {
    assert (m - j - 1) * n >= 0;
    assert m * n == (j + 1) * n + (m - j - 1) * n;
  }

  lemma {:induction false} PrintedGroup(bytes: seq<Byte>, base: nat, j: nat)
    requires IsDataBase(base) && j < |bytes|
    ensures var n := DigitsPerByte(base);
            && 0 <= j * n <= (j + 1) * n <= |PrintBytes(bytes, base)|
            && PrintBytes(bytes, base)[j * n..(j + 1) * n] == DigitsOf(bytes[j], base, n)
  {
    hide DigitsOf, DigitsPerByte;
    var n := DigitsPerByte(base);
    GroupBounds(j, |bytes|, n);
    var head, tail := DigitsOf(bytes[0], base, n), PrintBytes(bytes[1..], base);
    assert PrintBytes(bytes, base) == head + tail;
    if j == 0 {
      assert (head + tail)[0..n] == head;
    } else {
      PrintedGroup(bytes[1..], base, j - 1);
      GroupBounds(j - 1, |bytes|, n);
      assert (head + tail)[j * n..(j + 1) * n] == tail[(j - 1) * n..j * n];
    }
  }

  lemma SliceBehind(s: string, start: nat, lo: nat, hi: nat)
    requires lo <= hi && start + hi <= |s|
    ensures s[start + lo..start + hi] == s[start..][lo..hi]
  {
  }

  lemma PrintedByteIsThere(s: string, start: nat, bytes: seq<Byte>, base: nat, j: nat)
    requires IsDataBase(base) && start <= |s| && PrintBytes(bytes, base) <= s[start..]
    requires j < |bytes|
    ensures forall b: Byte :: IsByteAt(s, start, base, j, b) <==> b == bytes[j]
  {
    hide HexDigit, PrintBytes, DigitsPerByte, Value, DigitsOf, Power;
    var n := DigitsPerByte(base);
    PrintedGroup(bytes, base, j);
    GroupBounds(j, |bytes|, n);
    SliceBehind(s, start, j * n, (j + 1) * n);
    assert s[start..][j * n..(j + 1) * n] == PrintBytes(bytes, base)[j * n..(j + 1) * n];
    ByteRange(base);
    ValueOfDigits(bytes[j], base, n);
  }

  /** The bytes that s holds from start on are the given ones. */
  ghost predicate HoldsBytes(s: string, start: nat, base: nat, bytes: seq<Byte>)
    requires IsDataBase(base)
  {
    forall j, b: Byte :: 0 <= j < |bytes| ==> (IsByteAt(s, start, base, j, b) <==> b == bytes[j])
  }

  /** Behind its prefix, a printed byte string is read up to where its digits end, and every byte as it was. */
  lemma PrintedBodyIsRead(s: string, start: nat, bytes: seq<Byte>, extra: string, tail: string, base: nat, base0: nat)
    requires IsDataBase(base0) && IsDataBase(base) && start <= |s| && DataPrefix(s, base0) == Prefix(start, base)
    requires s[start..] == PrintBytes(bytes, base) + extra + tail
    requires |extra| < DigitsPerByte(base) && forall c <- extra :: IsDigit(c, base)
    requires tail == "" || !IsDigit(tail[0], base)
    ensures var end := |s| - |tail|;
            AnswerOf(s, base0) == if extra != "" then Answer(NeedDigit, None, end)
                                  else if bytes == [] then Answer(NoDataDigits, Some(0), end)
                                  else Answer(if tail == "" then DataOK else BadDataDigit, Some(|bytes|), end)
    ensures ByteCount(s, base0) == |bytes| && HoldsBytes(s, start, base, bytes)
  {
    hide HexDigit, PrintBytes, DigitsPerByte, DataPrefix, IsByteAt, DigitRun;
    var n := DigitsPerByte(base);
    var end := start + |bytes| * n + |extra|;
    BodyDigits(s, start, PrintBytes(bytes, base), extra, tail, base);
    RunIsGroups(s, start, base, n, |bytes|, |extra|);
    if bytes != [] { PositiveProduct(|bytes|, n); }
    forall j, b: Byte | 0 <= j < |bytes| ensures IsByteAt(s, start, base, j, b) <==> b == bytes[j] {
      PrintedByteIsThere(s, start, bytes, base, j);
    }
  }

  lemma BodyDigits(s: string, start: nat, ds: string, extra: string, tail: string, base: nat)
    requires start <= |s| && s[start..] == ds + extra + tail
    requires (forall c <- ds :: IsDigit(c, base)) && forall c <- extra :: IsDigit(c, base)
    requires tail == "" || !IsDigit(tail[0], base)
    ensures |s| == start + |ds| + |extra| + |tail| && ds <= s[start..]
    ensures forall k :: start <= k < start + |ds| + |extra| ==> IsDigit(s[k], base)
    ensures tail != "" ==> !IsDigit(s[start + |ds| + |extra|], base)
  {
    hide IsDigit;
    var t := s[start..];
    forall k | start <= k < start + |ds| + |extra|
      ensures IsDigit(s[k], base)
    {
      assert s[k] == t[k - start];
      assert if k - start < |ds| then s[k] in ds else s[k] in extra;
    }
    if tail != "" { assert s[start + |ds| + |extra|] == t[|ds| + |extra|] == tail[0]; }
  }

  lemma PositiveProduct(a: nat, b: nat)
    requires a > 0 && b > 0
    ensures a * b > 0
  {
  }

  /**
    With an explicit prefix, in whatever base is expected: whole bytes are read up to the first character that is no
    digit, which is reported; a byte cut short is an error, and so is a prefix without a digit behind it.
  */
  lemma PrefixedBytesAreRead(bytes: seq<Byte>, extra: string, tail: string, hex: bool, base0: nat)
    requires IsDataBase(base0)
    requires var base := if hex then 16 else 2;
             && |extra| < (if hex then 2 else 8) && (forall c <- extra :: IsDigit(c, base))
             && (tail == "" || !IsDigit(tail[0], base))
    ensures var base := if hex then 16 else 2;
            var s := (if hex then "0x" else "0b") + (PrintBytes(bytes, base) + extra + tail);
            var end := |s| - |tail|;
            && AnswerOf(s, base0) == (if extra != "" then Answer(NeedDigit, None, end)
                                      else if bytes == [] then Answer(NoDataDigits, Some(0), end)
                                      else Answer(if tail == "" then DataOK else BadDataDigit, Some(|bytes|), end))
            && ByteCount(s, base0) == |bytes| && HoldsBytes(s, 2, base, bytes)
  {
    hide PrintBytes, AnswerOf, ByteCount, HoldsBytes, IsDigit;
    var base := if hex then 16 else 2;
    var t := PrintBytes(bytes, base) + extra + tail;
    var s := (if hex then "0x" else "0b") + t;
    assert s[2..] == t;
    PrintedBodyIsRead(s, 2, bytes, extra, tail, base, base0);
  }

  /** The prefix of base 8 is refused. */
  lemma OctalIsRefused(t: string, base: nat)
    requires IsDataBase(base)
    ensures AnswerOf("0o" + t, base) == Answer(BadBase, None, 0) && ByteCount("0o" + t, base) == 0
  {
  }

  lemma NoPrefix(s: string, base: nat)
    requires IsDataBase(base) && forall c <- s :: IsDigit(c, base)
    requires base == 16 && |s| >= 2 ==> s[0] != '0' || s[1] != 'b'
    ensures DataPrefix(s, base) == Prefix(0, base)
  {
    if |s| >= 2 {
      assert IsDigit(s[1], base);
    }
  }

  /** Without a prefix, in base 2 and 4: */
  lemma BareBytesAreRead(bytes: seq<Byte>, base: nat)
    requires bytes != [] && (base == 2 || base == 4)
    ensures var s := PrintBytes(bytes, base);
            && AnswerOf(s, base) == Answer(DataOK, Some(|bytes|), |s|)
            && ByteCount(s, base) == |bytes| && HoldsBytes(s, 0, base, bytes)
  {
    hide AnswerOf, ByteCount, HoldsBytes, PrintBytes;
    var s := PrintBytes(bytes, base);
    assert s[0..] == s + "" + "";
    NoPrefix(s, base);
    PrintedBodyIsRead(s, 0, bytes, "", "", base, base);
  }

  /** In base 16, the prefix can be left out exactly when the first byte is not 0x0b: its digits are
      the prefix of base 2. */
  lemma BareHexBytesAreRead(bytes: seq<Byte>)
    requires bytes != []
    ensures var s := PrintBytes(bytes, 16);
            && (AnswerOf(s, 16) == Answer(DataOK, Some(|bytes|), |s|) <==> bytes[0] != 0x0b)
            && (bytes[0] != 0x0b ==> ByteCount(s, 16) == |bytes| && HoldsBytes(s, 0, 16, bytes))
  {
    hide HexDigit, AnswerOf, ByteCount, HoldsBytes, DigitRun;
    var s := PrintBytes(bytes, 16);
    PrintedGroup(bytes, 16, 0);
    FirstHexDigits(bytes[0], s);
    if bytes[0] != 0x0b {
      assert s[0..] == s + "" + "";
      NoPrefix(s, 16);
      PrintedBodyIsRead(s, 0, bytes, "", "", 16, 16);
    } else {
      BinaryPrefixShortens(s, |bytes|);
    }
  }

  lemma FirstHexDigits(b: Byte, s: string)
    requires |s| >= 2 && s[..2] == DigitsOf(b, 16, 2)
    ensures s[0] == '0' && s[1] == 'b' <==> b == 0x0b
  {
    assert s[..2] == [DigitOf(b / 16)] + [DigitOf(b % 16)] by {
      assert DigitsOf(b / 16, 16, 1) == [DigitOf(b / 16 % 16)];
    }
  }

  lemma BinaryPrefixShortens(s: string, m: nat)
    requires |s| == 2 * m && m > 0 && s[0] == '0' && s[1] == 'b'
    ensures AnswerOf(s, 16) != Answer(DataOK, Some(m), |s|)
  {
  }
}
