/**
 Parsing of integers and of byte strings.

 A C string is a character sequence s without its terminator; reading one place past its end gives
 the terminator. Positions stand for the pointers into it.
 */
module StrParse {
  import opened Common

  /** The character a pointer reads; it may point at the terminator, but not past it. */
  function At(s: string, i: nat): char
    requires i <= |s|
  {
    if i < |s| then s[i] else NUL
  }

  function HexDigit(c: char): (d: int)
    ensures -1 <= d < 16
  {
    if '0' <= c <= '9' then c as int - '0' as int
    else if 'A' <= c <= 'F' then c as int - 'A' as int + 0xa
    else if 'a' <= c <= 'f' then c as int - 'a' as int + 0xa
    else -1
  }

  /** The digits are 0 to 9 and the letters a to f in either case, with the values of their places; no other
      character is one. */
  lemma DigitsHaveTheirPlaces(c: char, d: nat)
    requires d < 16
    ensures HexDigit(c) == d <==> c == "0123456789abcdef"[d] || c == "0123456789ABCDEF"[d]
  {
  }

  predicate IsDigit(c: char, base: nat) {
    0 <= HexDigit(c) < base
  }

  /** How many digits of the base follow from position i on. */
  function DigitRun(s: string, i: nat, base: nat): (n: nat)
    requires i <= |s|
    ensures i + n <= |s|
    ensures forall j :: i <= j < i + n ==> IsDigit(s[j], base)
    ensures i + n < |s| ==> !IsDigit(s[i + n], base)
    decreases |s| - i
  {
    if i < |s| && IsDigit(s[i], base) then 1 + DigitRun(s, i + 1, base) else 0
  }

  lemma {:induction false} DigitRunIs(s: string, i: nat, base: nat, n: nat)
    requires i + n <= |s|
    requires forall j :: i <= j < i + n ==> IsDigit(s[j], base)
    requires i + n < |s| ==> !IsDigit(s[i + n], base)
    ensures DigitRun(s, i, base) == n
    decreases n
  {
    if n > 0 {
      DigitRunIs(s, i + 1, base, n - 1);
    }
  }

  /** The number a string of digits stands for. */
  function Value(ds: string, base: nat): nat
    requires forall c <- ds :: IsDigit(c, base)
  {
    if ds == "" then 0
    else
      assert IsDigit(ds[|ds| - 1], base);
      Value(ds[..|ds| - 1], base) * base + HexDigit(ds[|ds| - 1])
  }

  /** The position after a base prefix and the base it selects. */
  datatype Prefix = Prefix(start: nat, base: nat)

  /** s[..last] may start, at position i, with 0x, 0o or 0b. */
  function BasePrefix(s: string, i: nat, last: nat, base: nat): (p: Prefix)
    requires i <= last <= |s|
    ensures i <= p.start <= last
    ensures 2 <= base <= 16 ==> 2 <= p.base <= 16
  {
    if i + 2 <= last && s[i] == '0' then
      if s[i + 1] == 'x' then Prefix(i + 2, 16)
      else if s[i + 1] == 'o' then Prefix(i + 2, 8)
      else if s[i + 1] == 'b' then Prefix(i + 2, 2)
      else Prefix(i, base)
    else
      Prefix(i, base)
  }

  /** The prefix as the program looks for it, where `last` may lie beyond the terminator. */
  method HandleBasePrefix(s: string, i: nat, last: nat, base: nat) returns (p: Prefix)
    requires i <= |s| && i <= last && 2 <= base <= 16
    ensures p == BasePrefix(s, i, Min(last, |s|), base)
  {
    if i == last || i + 1 == last || At(s, i) != '0' {
      return Prefix(i, base);
    }
    if At(s, i + 1) == 'x' {
      return Prefix(i + 2, 16);
    } else if At(s, i + 1) == 'o' {
      return Prefix(i + 2, 8);
    } else if At(s, i + 1) == 'b' {
      return Prefix(i + 2, 2);
    }
    return Prefix(i, base);
  }

  // ---- Integers -----------------------------------------------------------------------------------

  datatype StrtointResult = OK | BadDigit | NoDigits | Overflow

  const INTMAX_MAX := 0x7fff_ffff_ffff_ffff
  const INTMAX_MIN_BITS := 0x8000_0000_0000_0000   // the word that INTMAX_MIN is stored as

  /** Where the digits of an integer start, in which base, and whether it is to be negated. */
  datatype Lead = Lead(negate: bool, start: nat, base: nat)

  function LeadOf(s: string, last: nat, sign: bool, base: nat): (l: Lead)
    requires last <= |s| && 2 <= base <= 16
    ensures l.start <= last && 2 <= l.base <= 16
  {
    var signed := sign && last > 0 && (s[0] == '+' || s[0] == '-');
    var p := BasePrefix(s, if signed then 1 else 0, last, base);
    Lead(signed && s[0] == '-', p.start, p.base)
  }

  /** The overflow test for extending `value` to `new_`. */
  predicate LooksOverflowed(isSigned: bool, negate: bool, value: Word, new_: Word) {
    if isSigned then new_ > (if negate then INTMAX_MIN_BITS else INTMAX_MAX) else new_ < value
  }

  function Signed(negate: bool, v: int): int {
    if negate then -v else v
  }

  /** Whether the overflow test fires on the digit at position j. */
  ghost predicate Fires(s: string, l: Lead, isSigned: bool, j: nat)
    requires l.start <= j < |s| && forall c <- s[l.start..j] :: IsDigit(c, l.base)
  {
    var v := Wrap(Value(s[l.start..j], l.base));
    LooksOverflowed(isSigned, l.negate, v, Wrap(v * l.base + HexDigit(s[j])))
  }

  ghost predicate DoesNotFire(s: string, l: Lead, isSigned: bool, j: nat)
    requires l.start <= j < |s|
  {
    (forall c <- s[l.start..j] :: IsDigit(c, l.base)) && !Fires(s, l, isSigned, j)
  }

  /** What strtoint answers about the first `last` characters of s: the digits read stop at the end,
      at a bad digit, or at a digit for which the overflow test fires. The value is the signed value
      of the digits read, modulo 2^64. */
  ghost predicate Strtoint(s: string, last: nat, sign: bool, isSigned: bool, base: nat,
                           r: StrtointResult, value: Option<Word>, end: nat)
    requires last <= |s| && 2 <= base <= 16
  {
    var l := LeadOf(s, last, sign, base);
    if r.NoDigits? then
      end == l.start && value.None? && (end == last || !IsDigit(s[end], l.base))
    else
      && l.start < end <= last && value.Some?
      && (forall c <- s[l.start..end] :: IsDigit(c, l.base))
      && var v := Value(s[l.start..end], l.base);
         && value.value == Wrap(Signed(l.negate, v))
         && (r.OK? ==> end == last)
         && (r.BadDigit? ==> end < last && !IsDigit(s[end], l.base))
         && (r.Overflow? ==> end < last && IsDigit(s[end], l.base) && Fires(s, l, isSigned, end))
         && (forall j :: l.start <= j < end ==> DoesNotFire(s, l, isSigned, j))
  }

  /** Reads the sign and the base prefix. */
  method ReadLead(s: string, len: nat, sign: bool, base: nat) returns (l: Lead)
    requires 2 <= base <= 16 && NUL !in s && len > 0
    ensures l == LeadOf(s, Min(len, |s|), sign, base)
  {
    var negate, str := false, 0;
    if sign && (At(s, 0) == '+' || At(s, 0) == '-') {
      negate := At(s, 0) == '-';
      str := 1;
    }
    var p := HandleBasePrefix(s, str, len, base);
    return Lead(negate, p.start, p.base);
  }

  method ParseInt(s: string, len: nat, sign: bool, isSigned: bool, base: nat)
    returns (r: StrtointResult, value: Option<Word>, end: nat)
    requires 2 <= base <= 16 && NUL !in s
    ensures Strtoint(s, Min(len, |s|), sign, isSigned, base, r, value, end)
  {
    hide LeadOf, Value, HexDigit, LooksOverflowed, Wrap, Fires, DoesNotFire;
    if len == 0 {
      EmptyLead(s, sign, base);
      return NoDigits, None, 0;
    }
    var last := len;
    var l := ReadLead(s, last, sign, base);
    var str, b := l.start, l.base;
    if str == last {
      return NoDigits, None, str;
    }
    NulIsNoDigit(b);
    var d := HexDigit(At(s, str));
    if d < 0 || d >= b {
      return NoDigits, None, str;
    }
    NoValue(b);
    assert s[l.start..str] == "";
    var value_: Word := 0;
    r := OK;
    while true
      invariant l.start <= str < last && str < |s| && r == OK
      invariant forall c <- s[l.start..str] :: IsDigit(c, b)
      invariant value_ == Wrap(Value(s[l.start..str], b))
      invariant str == l.start ==> value_ == 0
      invariant forall j :: l.start <= j < str ==> DoesNotFire(s, l, isSigned, j)
      invariant d == HexDigit(s[str]) && 0 <= d < b
      decreases |s| - str
    {
      var newValue := Wrap(value_ * b + d);
      FirstDigitFits(isSigned, l.negate, d);
      assert str == l.start ==> value_ * b + d == d;
      FiresMeans(s, l, isSigned, str);
      if LooksOverflowed(isSigned, l.negate, value_, newValue) {
        r := Overflow;
        break;
      }
      ValueStep(s, l.start, str, b);
      value_ := newValue;
      str := str + 1;
      assert str < |s| ==> s[str] in s;
      if str == last || At(s, str) == NUL {
        break;
      }
      d := HexDigit(At(s, str));
      if d < 0 || d >= b {
        r := BadDigit;
        break;
      }
    }
    WrapNegative(Value(s[l.start..str], b));
    value := Some(if l.negate then Wrap(-(value_ as int)) else value_);
    end := str;
  }

  lemma FiresMeans(s: string, l: Lead, isSigned: bool, j: nat)
    requires l.start <= j < |s| && forall c <- s[l.start..j] :: IsDigit(c, l.base)
    ensures var v := Wrap(Value(s[l.start..j], l.base));
            Fires(s, l, isSigned, j)
            <==> LooksOverflowed(isSigned, l.negate, v, Wrap(v * l.base + HexDigit(s[j])))
    ensures DoesNotFire(s, l, isSigned, j) <==> !Fires(s, l, isSigned, j)
  {
  }

  lemma EmptyLead(s: string, sign: bool, base: nat)
    requires 2 <= base <= 16
    ensures LeadOf(s, 0, sign, base).start == 0
  {
  }

  lemma FirstDigitFits(isSigned: bool, negate: bool, d: nat)
    requires d < 16
    ensures !LooksOverflowed(isSigned, negate, 0, Wrap(d))
  {
  }

  lemma NulIsNoDigit(base: nat)
    ensures !IsDigit(NUL, base)
  {
  }

  lemma NoValue(base: nat)
    ensures Value("", base) == 0 && Wrap(0) == 0
  {
  }

  lemma WrapNegative(v: int)
    ensures Wrap(-(Wrap(v) as int)) == Wrap(-v)
  {
    WrapLinear(v, -1, 0);
  }

  lemma ValueStep(s: string, start: nat, i: nat, base: nat)
    requires start <= i < |s| && (forall c <- s[start..i] :: IsDigit(c, base)) && IsDigit(s[i], base)
    ensures forall c <- s[start..i + 1] :: IsDigit(c, base)
    ensures Value(s[start..i + 1], base) == Value(s[start..i], base) * base + HexDigit(s[i])
    ensures Wrap(Wrap(Value(s[start..i], base)) * base + HexDigit(s[i])) == Wrap(Value(s[start..i + 1], base))
  {
    hide HexDigit, Wrap;
    assert s[start..i + 1] == s[start..i] + [s[i]];
    assert s[start..i + 1][..i - start] == s[start..i];
    WrapLinear(Value(s[start..i], base), base, HexDigit(s[i]));
  }

  // ---- Which integers are read exactly ------------------------------------------------------------

  /** The number is one that the result can represent. */
  predicate InRange(isSigned: bool, negate: bool, v: nat) {
    if isSigned then v <= (if negate then INTMAX_MIN_BITS else INTMAX_MAX) else v < TWO_64
  }

  lemma MulGrows(v: nat, base: nat, d: nat)
    requires base >= 1
    ensures v <= v * base + d
  {
  }

  lemma {:induction false} ValueGrows(s: string, start: nat, i: nat, j: nat, base: nat)
    requires start <= i <= j <= |s| && base >= 1
    requires forall k :: start <= k < j ==> IsDigit(s[k], base)
    ensures Value(s[start..i], base) <= Value(s[start..j], base)
    decreases j
  {
    hide Value, HexDigit;
    if i < j {
      ValueGrows(s, start, i, j - 1, base);
      ValueStep(s, start, j - 1, base);
      MulGrows(Value(s[start..j - 1], base), base, HexDigit(s[j - 1]));
    }
  }

  lemma NoOverflowInRange(isSigned: bool, negate: bool, v: nat, base: nat, d: nat)
    requires base >= 1 && InRange(isSigned, negate, v * base + d)
    ensures !LooksOverflowed(isSigned, negate, Wrap(v), Wrap(Wrap(v) * base + d))
  {
    MulGrows(v, base, d);
    var w := v * base + d;
    WrapLinear(v, base, d);
    assert Wrap(w) == w;
  }

  /** A numeral in range is read to its end, and an overflow is only reported for a number that really
      is out of range. */
  lemma InRangeNumeralIsRead(s: string, last: nat, sign: bool, isSigned: bool, base: nat,
                             r: StrtointResult, value: Option<Word>, end: nat)
    requires last <= |s| && 2 <= base <= 16
    requires Strtoint(s, last, sign, isSigned, base, r, value, end)
    ensures var l := LeadOf(s, last, sign, base);
            var run := DigitRun(s[..last], l.start, l.base);
            && (r.NoDigits? <==> run == 0)
            && (run > 0 && InRange(isSigned, l.negate, Value(s[l.start..l.start + run], l.base)) ==>
                  && end == l.start + run && r == (if end == last then OK else BadDigit)
                  && value == Some(Wrap(Signed(l.negate, Value(s[l.start..l.start + run], l.base)))))
  {
    hide Value, HexDigit, LeadOf, LooksOverflowed, InRange, Wrap, DigitRun, Fires;
    var l := LeadOf(s, last, sign, base);
    var t := s[..last];
    if r.NoDigits? {
      DigitRunIs(t, l.start, l.base, 0);
    } else {
      assert forall k :: l.start <= k < end ==> s[k] in s[l.start..end];
      if !r.Overflow? {
        DigitRunIs(t, l.start, l.base, end - l.start);
      } else {
        OverflowIsReal(s, last, l, isSigned, end);
      }
    }
  }

  /** How a numeral may start: with a sign, and with a prefix that selects the base. */
  datatype Start = Start(sign: Option<char>, prefix: Option<char>)

  predicate IsStart(h: Start, base: nat) {
    && (h.sign.Some? ==> h.sign.value == '+' || h.sign.value == '-')
    && (h.prefix.Some? ==>
          || (h.prefix.value == 'x' && base == 16) || (h.prefix.value == 'o' && base == 8)
          || (h.prefix.value == 'b' && base == 2))
  }

  function StartText(h: Start): string {
    (if h.sign.Some? then [h.sign.value] else "") + (if h.prefix.Some? then ['0', h.prefix.value] else "")
  }

  lemma LeadOfStart(h: Start, ds: string, sign: bool, base0: nat, base: nat)
    requires 2 <= base0 <= 16 && 2 <= base <= 16 && ds != "" && forall c <- ds :: IsDigit(c, base)
    requires IsStart(h, base) && (h.sign.Some? ==> sign)
    requires h.prefix.None? ==> base == base0 && !(|ds| >= 2 && ds[0] == '0' && ds[1] == 'b')
    ensures var s := StartText(h) + ds;
            LeadOf(s, |s|, sign, base0) == Lead(h.sign == Some('-'), |StartText(h)|, base)
  {
    assert IsDigit(ds[0], base);
    assert |ds| >= 2 ==> IsDigit(ds[1], base);
  }

  /**
    A numeral in range is read with its sign, in the base that its prefix selects: 16 for 0x, 8 for 0o, 2 for 0b,
    and otherwise the base asked for. A minus negates, a plus does not.
  */
  lemma SignedNumeralIsRead(h: Start, ds: string, sign: bool, isSigned: bool, base0: nat, base: nat,
                            r: StrtointResult, value: Option<Word>, end: nat)
    requires 2 <= base0 <= 16 && 2 <= base <= 16 && ds != "" && forall c <- ds :: IsDigit(c, base)
    requires IsStart(h, base) && (h.sign.Some? ==> sign)
    requires h.prefix.None? ==> base == base0 && !(|ds| >= 2 && ds[0] == '0' && ds[1] == 'b')
    requires var v := Value(ds, base);
             if !isSigned then v < TWO_64 else if h.sign == Some('-') then v <= TWO_64 / 2 else v < TWO_64 / 2
    requires var s := StartText(h) + ds; Strtoint(s, |s|, sign, isSigned, base0, r, value, end)
    ensures r == OK && end == |StartText(h)| + |ds|
    ensures h.sign == Some('-') ==> value == Some(Wrap(-(Value(ds, base) as int)))
    ensures h.sign != Some('-') ==> value == Some(Wrap(Value(ds, base)))
  {
    hide Value, HexDigit, LeadOf, LooksOverflowed, Wrap, DigitRun, Strtoint, StartText;
    var t, s := StartText(h), StartText(h) + ds;
    LeadOfStart(h, ds, sign, base0, base);
    assert s[..|s|] == s && s[|t|..|t| + |ds|] == ds;
    assert forall k :: |t| <= k < |s| ==> s[k] == ds[k - |t|] && ds[k - |t|] in ds;
    DigitRunIs(s, |t|, base, |ds|);
    InRangeNumeralIsRead(s, |s|, sign, isSigned, base0, r, value, end);
  }

  /** Where no sign is allowed, a string with one has no digits. */
  lemma SignIsRefused(c: char, t: string, isSigned: bool, base: nat, r: StrtointResult, value: Option<Word>, end: nat)
    requires 2 <= base <= 16 && (c == '+' || c == '-')
    requires Strtoint([c] + t, 1 + |t|, false, isSigned, base, r, value, end)
    ensures r == NoDigits && end == 0 && value == None
  {
    hide Value, Wrap, Fires, DoesNotFire;
    var s := [c] + t;
    assert !IsDigit(c, base);
    assert forall k: nat :: 0 < k <= |s| ==> s[0..k][0] == c;
  }

  lemma DigitIsBelow(c: char, base: nat)
    requires IsDigit(c, base)
    ensures 0 <= HexDigit(c) < base
  {
  }

  /** The numeral goes on at least over the digit at `end`. */
  lemma RunFacts(s: string, last: nat, l: Lead, end: nat) returns (whole: nat)
    requires l.start <= end < last <= |s|
    requires (forall c <- s[l.start..end] :: IsDigit(c, l.base)) && IsDigit(s[end], l.base)
    ensures whole == l.start + DigitRun(s[..last], l.start, l.base) && end < whole <= last
    ensures forall k :: l.start <= k < whole ==> IsDigit(s[k], l.base)
    ensures forall c <- s[l.start..whole] :: IsDigit(c, l.base)
  {
    hide HexDigit, DigitRun, IsDigit;
    var t := s[..last];
    whole := l.start + DigitRun(t, l.start, l.base);
    assert forall k :: l.start <= k < end ==> s[k] in s[l.start..end];
    DigitRunIncludes(t, l.start, l.base, end + 1 - l.start);
    assert forall k :: l.start <= k < whole ==> s[k] == t[k];
  }

  lemma OverflowIsReal(s: string, last: nat, l: Lead, isSigned: bool, end: nat)
    requires l.start <= end < last <= |s| && l.base >= 1
    requires forall c <- s[l.start..end] :: IsDigit(c, l.base)
    requires IsDigit(s[end], l.base) && Fires(s, l, isSigned, end)
    ensures var run := DigitRun(s[..last], l.start, l.base);
            && run > 0 && (forall c <- s[l.start..l.start + run] :: IsDigit(c, l.base))
            && !InRange(isSigned, l.negate, Value(s[l.start..l.start + run], l.base))
  {
    hide Value, HexDigit, LooksOverflowed, InRange, Wrap, DigitRun, Fires, IsDigit;
    var whole := RunFacts(s, last, l, end);
    DigitIsBelow(s[end], l.base);
    ValueGrows(s, l.start, end + 1, whole, l.base);
    ValueStep(s, l.start, end, l.base);
    SmallerInRange(isSigned, l.negate, Value(s[l.start..end + 1], l.base), Value(s[l.start..whole], l.base));
    FiresMeans(s, l, isSigned, end);
    if InRange(isSigned, l.negate, Value(s[l.start..whole], l.base)) {
      NoOverflowInRange(isSigned, l.negate, Value(s[l.start..end], l.base), l.base, HexDigit(s[end]));
    }
  }

  lemma SmallerInRange(isSigned: bool, negate: bool, v: nat, w: nat)
    requires v <= w
    ensures InRange(isSigned, negate, w) ==> InRange(isSigned, negate, v)
  {
  }

  lemma {:induction false} DigitRunIncludes(s: string, i: nat, base: nat, n: nat)
    requires i + n <= |s|
    requires forall j :: i <= j < i + n ==> IsDigit(s[j], base)
    ensures DigitRun(s, i, base) >= n
    decreases n
  {
    if n > 0 {
      DigitRunIncludes(s, i + 1, base, n - 1);
    }
  }

  /** The overflow test fires on one of the `run` digits of the numeral. */
  ghost predicate SomeDigitFires(s: string, l: Lead, isSigned: bool, run: nat)
    requires l.start + run <= |s|
  {
    exists j :: l.start <= j < l.start + run && !DoesNotFire(s, l, isSigned, j)
  }

  /** An overflow is reported exactly when the test fires on some digit of the numeral. */
  lemma OverflowReportedExactly(s: string, last: nat, sign: bool, isSigned: bool, base: nat,
                                r: StrtointResult, value: Option<Word>, end: nat)
    requires last <= |s| && 2 <= base <= 16
    requires Strtoint(s, last, sign, isSigned, base, r, value, end)
    ensures var l := LeadOf(s, last, sign, base);
            var run := DigitRun(s[..last], l.start, l.base);
            r.Overflow? <==> SomeDigitFires(s, l, isSigned, run)
  {
    hide Value, HexDigit, LeadOf, LooksOverflowed, Wrap, DigitRun, Fires;
    var l := LeadOf(s, last, sign, base);
    var t := s[..last];
    if r.NoDigits? {
      DigitRunIs(t, l.start, l.base, 0);
    } else {
      assert forall k :: l.start <= k < end ==> s[k] in s[l.start..end];
      if r.Overflow? {
        DigitRunIncludes(t, l.start, l.base, end + 1 - l.start);
        assert !DoesNotFire(s, l, isSigned, end);
      } else {
        DigitRunIs(t, l.start, l.base, end - l.start);
      }
    }
  }

  /** The test fires on the last digit of a numeral that is out of range by a little. */
  lemma LastDigitFires(isSigned: bool, negate: bool, v: nat, base: nat, d: nat)
    requires 2 <= base <= 16 && d < base
    requires var w := v * base + d;
             if isSigned then (if negate then TWO_64 / 2 < w < TWO_64 else TWO_64 / 2 <= w < TWO_64)
             else TWO_64 <= w < TWO_64 + TWO_64 / 16
    ensures LooksOverflowed(isSigned, negate, Wrap(v), Wrap(Wrap(v) * base + d))
  {
    hide Wrap;
    var w := v * base + d;
    BaseBounds(v, base);
    WrapLinear(v, base, d);
    WrapSmall(v);
    if w < TWO_64 {
      WrapSmall(w);
    } else {
      WrapAddMultiple(w - TWO_64, 1);
      WrapSmall(w - TWO_64);
    }
  }

  lemma BaseBounds(v: nat, base: nat)
    requires 2 <= base <= 16
    ensures 2 * v <= v * base <= 16 * v
  {
  }

  lemma LastDigitDoesNotFire(s: string, l: Lead, isSigned: bool, end: nat)
    requires l.start < end <= |s| && 2 <= l.base <= 16
    requires (forall c <- s[l.start..end] :: IsDigit(c, l.base)) && DoesNotFire(s, l, isSigned, end - 1)
    ensures var v := Value(s[l.start..end], l.base);
            !(if !isSigned then TWO_64 <= v < TWO_64 + TWO_64 / 16
              else if l.negate then TWO_64 / 2 < v < TWO_64
              else TWO_64 / 2 <= v < TWO_64)
  {
    hide Value, HexDigit, LooksOverflowed, Wrap, Fires;
    assert s[end - 1] in s[l.start..end];
    FiresMeans(s, l, isSigned, end - 1);
    ValueStep(s, l.start, end - 1, l.base);
    DigitIsBelow(s[end - 1], l.base);
    var v := Value(s[l.start..end], l.base);
    if if !isSigned then TWO_64 <= v < TWO_64 + TWO_64 / 16
       else if l.negate then TWO_64 / 2 < v < TWO_64
       else TWO_64 / 2 <= v < TWO_64
    {
      LastDigitFires(isSigned, l.negate, Value(s[l.start..end - 1], l.base), l.base, HexDigit(s[end - 1]));
      assert false;
    }
  }

  /**
    A signed numeral that is out of range but fits a word is always reported as an overflow, and so is an unsigned one
    that exceeds a word by less than a sixteenth. Only numerals beyond that can go unreported.
  */
  lemma NearOverflowIsReported(s: string, last: nat, sign: bool, isSigned: bool, base: nat,
                               r: StrtointResult, value: Option<Word>, end: nat)
    requires last <= |s| && 2 <= base <= 16
    requires Strtoint(s, last, sign, isSigned, base, r, value, end)
    ensures var l := LeadOf(s, last, sign, base);
            var run := DigitRun(s[..last], l.start, l.base);
            && (forall c <- s[l.start..l.start + run] :: IsDigit(c, l.base))
            && var v := Value(s[l.start..l.start + run], l.base);
               (if !isSigned then TWO_64 <= v < TWO_64 + TWO_64 / 16
                else if l.negate then TWO_64 / 2 < v < TWO_64
                else TWO_64 / 2 <= v < TWO_64) ==> r.Overflow?
  {
    hide IsDigit, DoesNotFire, Value, HexDigit, LeadOf, LooksOverflowed, Wrap, DigitRun, Fires;
    var l := LeadOf(s, last, sign, base);
    var run := DigitRun(s[..last], l.start, l.base);
    assert s[..last][l.start..l.start + run] == s[l.start..l.start + run];
    assert forall k :: l.start <= k < l.start + run ==> s[k] == s[..last][k];
    if r.NoDigits? {
      DigitRunIs(s[..last], l.start, l.base, 0);
      assert s[l.start..l.start + run] == "";
      NoValue(l.base);
    } else if !r.Overflow? {
      assert forall k :: l.start <= k < end ==> s[k] in s[l.start..end];
      DigitRunIs(s[..last], l.start, l.base, end - l.start);
      LastDigitDoesNotFire(s, l, isSigned, end);
    }
  }

  /** The integer a word is taken for: a negated unsigned word stands for an integer from -2^64 + 1 to 0. */
  function AsInteger(isSigned: bool, negate: bool, w: Word): int {
    if isSigned then (if w > INTMAX_MAX then w - TWO_64 else w)
    else if negate && w > 0 then w - TWO_64
    else w
  }

  lemma WrapIsExact(isSigned: bool, negate: bool, v: nat)
    ensures AsInteger(isSigned, negate, Wrap(Signed(negate, v))) == Signed(negate, v)
            <==> InRange(isSigned, negate, v)
  {
  }

  /**
    For every numeral, signed or unsigned, the answer is an overflow or the number written, read to its end, exactly
    when the number is in range or the test fires on one of its digits. The other numerals are read as another
    number without complaint.
  */
  lemma OverflowOrExact(s: string, last: nat, sign: bool, isSigned: bool, base: nat,
                        r: StrtointResult, value: Option<Word>, end: nat)
    requires last <= |s| && 2 <= base <= 16
    requires Strtoint(s, last, sign, isSigned, base, r, value, end) && !r.NoDigits?
    ensures var l := LeadOf(s, last, sign, base);
            var run := DigitRun(s[..last], l.start, l.base);
            && (forall c <- s[l.start..l.start + run] :: IsDigit(c, l.base))
            && var v := Value(s[l.start..l.start + run], l.base);
               r.Overflow?
               || (end == l.start + run && AsInteger(isSigned, l.negate, value.value) == Signed(l.negate, v))
               <==> InRange(isSigned, l.negate, v) || SomeDigitFires(s, l, isSigned, run)
  {
    hide Value, HexDigit, LeadOf, LooksOverflowed, Wrap, DigitRun, Fires, InRange, AsInteger, SomeDigitFires;
    var l := LeadOf(s, last, sign, base);
    var run := DigitRun(s[..last], l.start, l.base);
    assert s[..last][l.start..l.start + run] == s[l.start..l.start + run];
    assert forall k :: l.start <= k < l.start + run ==> s[k] == s[..last][k];
    OverflowReportedExactly(s, last, sign, isSigned, base, r, value, end);
    if !r.Overflow? {
      assert forall k :: l.start <= k < end ==> s[k] in s[l.start..end];
      DigitRunIs(s[..last], l.start, l.base, end - l.start);
      WrapIsExact(isSigned, l.negate, Value(s[l.start..l.start + run], l.base));
    }
  }

  // ---- Printed integers are read back -------------------------------------------------------------

  function Power(b: nat, n: nat): nat {
    if n == 0 then 1 else Power(b, n - 1) * b
  }

  function DigitOf(d: nat): (c: char)
    requires d < 16
    ensures HexDigit(c) == d
  {
    if d < 10 then '0' + d as char else 'a' + (d - 10) as char
  }

  /** The last n digits of v in the given base. */
  function DigitsOf(v: nat, base: nat, n: nat): (ds: string)
    requires 2 <= base <= 16
    ensures |ds| == n && forall c <- ds :: IsDigit(c, base)
  {
    if n == 0 then "" else DigitsOf(v / base, base, n - 1) + [DigitOf(v % base)]
  }

  lemma {:induction false} ValueOfDigits(v: nat, base: nat, n: nat)
    requires 2 <= base <= 16 && v < Power(base, n)
    ensures Value(DigitsOf(v, base, n), base) == v
    decreases n
  {
    hide HexDigit, DigitOf;
    if n > 0 {
      var ds := DigitsOf(v, base, n);
      assert ds[..n - 1] == DigitsOf(v / base, base, n - 1);
      Quotient(v, base, Power(base, n - 1));
      ValueOfDigits(v / base, base, n - 1);
    }
  }

  lemma Quotient(v: nat, base: nat, p: nat)
    requires base > 0 && v < p * base
    ensures v / base < p && v / base * base + v % base == v
  {
  }

  lemma PowersOf16()
    ensures Power(16, 16) == TWO_64 && Power(16, 2) == 256 && Power(2, 8) == 256 && Power(4, 4) == 256
  {
    assert Power(16, 4) == 0x1_0000 && Power(16, 8) == TWO_32 && Power(16, 12) == 0x1_0000_0000_0000;
    assert Power(2, 4) == 16;
  }

  lemma HexLead(ds: string, sign: bool, base: nat)
    requires 2 <= base <= 16
    ensures LeadOf("0x" + ds, 2 + |ds|, sign, base) == Lead(false, 2, 16)
  {
  }

  /** Every 64-bit word, printed as 0x and 16 hexadecimal digits, is read back, in any base and with
      or without a sign allowed. */
  lemma PrintedWordIsRead(w: Word, sign: bool, base: nat, r: StrtointResult, value: Option<Word>,
                          end: nat)
    requires 2 <= base <= 16
    requires Strtoint("0x" + DigitsOf(w, 16, 16), 18, sign, false, base, r, value, end)
    ensures r == OK && value == Some(w) && end == 18
  {
    hide LeadOf, Value, HexDigit, Wrap, DigitsOf, Strtoint, DigitRun, Power;
    var ds := DigitsOf(w, 16, 16);
    var s := "0x" + ds;
    HexLead(ds, sign, base);
    assert s[..18] == s && s[2..18] == ds;
    assert forall k :: 2 <= k < 18 ==> s[k] == ds[k - 2] && ds[k - 2] in ds;
    DigitRunIs(s, 2, 16, 16);
    PowersOf16();
    ValueOfDigits(w, 16, 16);
    InRangeNumeralIsRead(s, 18, sign, false, base, r, value, end);
    WrapSmall(w);
  }

  // ---- Overflows that go unreported ---------------------------------------------------------------

  function Effs(n: nat): (t: string)
    ensures |t| == n && forall c <- t :: c == 'f'
  {
    if n == 0 then "" else Effs(n - 1) + "f"
  }

  lemma {:induction false} EffsPrefix(n: nat, k: nat)
    requires k <= n
    ensures Effs(n)[..k] == Effs(k)
  {
    assert forall j :: 0 <= j < n ==> Effs(n)[j] in Effs(n);
    assert forall j :: 0 <= j < k ==> Effs(k)[j] in Effs(k);
  }

  lemma {:induction false} ValueOfEffs(n: nat)
    ensures forall c <- "1" + Effs(n) :: IsDigit(c, 16)
    ensures Value("1" + Effs(n), 16) == 2 * Power(16, n) - 1
  {
    if n == 0 {
      assert "1" + Effs(0) == "1" && Value("1"[..0], 16) == 0;
    } else {
      ValueOfEffs(n - 1);
      assert ("1" + Effs(n))[..n] == "1" + Effs(n - 1);
    }
  }

  lemma {:induction false} PowerOf10Bound(n: nat)
    requires n <= 19
    ensures Power(10, n) >= 1
    ensures n == 19 ==> Power(10, n) == 10_000_000_000_000_000_000
    ensures n < 19 ==> Power(10, n) <= 1_000_000_000_000_000_000
    decreases 19 - n
  {
    if n == 19 {
      assert Power(10, 4) == 10_000 && Power(10, 8) == 100_000_000 && Power(10, 12) == 1_000_000_000_000;
      assert Power(10, 16) == 10_000_000_000_000_000;
    } else {
      PowerOf10Bound(n + 1);
    }
  }

  lemma {:induction false} ZerosPrefix(n: nat, k: nat)
    requires k <= n
    ensures Zeros(n)[..k] == Zeros(k)
  {
    assert forall j :: 0 <= j < n ==> Zeros(n)[j] in Zeros(n);
    assert forall j :: 0 <= j < k ==> Zeros(k)[j] in Zeros(k);
  }

  lemma ZeroDigit(base: nat)
    requires base >= 2
    ensures HexDigit('0') == 0 && IsDigit('0', base)
  {
  }

  /** A digit and zeros: a multiple of a power of the base. */
  lemma {:induction false} ValueOfZeros(c: char, base: nat, n: nat)
    requires base >= 2 && IsDigit(c, base)
    ensures forall d <- [c] + Zeros(n) :: IsDigit(d, base)
    ensures Value([c] + Zeros(n), base) == HexDigit(c) * Power(base, n)
  {
    hide HexDigit;
    ZeroDigit(base);
    if n == 0 {
      NoValue(base);
      assert [c] + Zeros(0) == [c] && [c][..0] == "";
    } else {
      ValueOfZeros(c, base, n - 1);
      ZerosPrefix(n, n - 1);
      var ds := [c] + Zeros(n);
      assert Zeros(n)[n - 1] in Zeros(n);
      assert ds[..n] == [c] + Zeros(n - 1) && ds[n] == '0';
      Regroup(HexDigit(c), Power(base, n - 1), base);
    }
  }

  /** When no multiple wraps to more than the largest signed number, the test for signed numbers never fires. */
  lemma ZerosDoNotFire(s: string, l: Lead, c: char, n: nat, m: nat)
    requires 2 <= l.base <= 16 && IsDigit(c, l.base) && !l.negate && m <= n
    requires l.start <= |s| && s[l.start..] == [c] + Zeros(n)
    requires Wrap(HexDigit(c) * Power(l.base, m)) <= INTMAX_MAX
    ensures DoesNotFire(s, l, true, l.start + m)
  {
    hide Power, Value, Zeros, HexDigit, Wrap;
    var j := l.start + m;
    ZeroDigit(l.base);
    assert forall k :: l.start <= k < |s| ==> s[k] == s[l.start..][k - l.start];
    ValueOfZeros(c, l.base, n);
    assert forall k :: l.start <= k < |s| ==> s[k] in [c] + Zeros(n);
    ZerosPrefix(n, m);
    assert s[l.start..j + 1] == [c] + Zeros(m);
    ValueOfZeros(c, l.base, m);
    assert s[j] in [c] + Zeros(n);
    ValueStep(s, l.start, j, l.base);
  }

  /** 0x10000000000000000 is 2^64, and is read as the signed number 0. */
  lemma SignedOverflowIsMissed(sign: bool, base: nat)
    requires 2 <= base <= 16
    ensures var s := "0x" + (['1'] + Zeros(16));
            && Strtoint(s, 19, sign, true, base, OK, Some(0), 19)
            && (forall c <- s[2..] :: IsDigit(c, 16)) && Value(s[2..], 16) == TWO_64
  {
    hide LeadOf, Value, Wrap, Power, Zeros, Fires, LooksOverflowed;
    var t := ['1'] + Zeros(16);
    var s := "0x" + t;
    var l := Lead(false, 2, 16);
    HexLead(t, sign, base);
    PowersOf16();
    ValueOfZeros('1', 16, 16);
    assert s[2..] == s[2..19] == t;
    assert Wrap(TWO_64) == 0 by { WrapAddMultiple(0, 1); WrapSmall(0); }
    forall j | 2 <= j < 19 ensures DoesNotFire(s, l, true, j) {
      if j < 18 {
        PowerOf16Bound(j - 2);
        WrapSmall(Power(16, j - 2));
      }
      ZerosDoNotFire(s, l, '1', 16, j - 2);
    }
  }

  /** So it is in plain decimal: 2 * 10^19 is read as the signed number 1553255926290448384. */
  lemma DecimalOverflowIsMissed(sign: bool)
    ensures var s := ['2'] + Zeros(19);
            && Strtoint(s, 20, sign, true, 10, OK, Some(1553255926290448384), 20)
            && (forall c <- s[0..] :: IsDigit(c, 10)) && Value(s[0..], 10) == 20_000_000_000_000_000_000
  {
    hide Value, Wrap, Power, Zeros, Fires, LooksOverflowed;
    var s := ['2'] + Zeros(19);
    var l := Lead(false, 0, 10);
    assert LeadOf(s, 20, sign, 10) == l;
    ValueOfZeros('2', 10, 19);
    PowerOf10Bound(19);
    assert s[0..] == s[0..20] == s;
    assert Wrap(20_000_000_000_000_000_000) == 1553255926290448384 by {
      WrapAddMultiple(1553255926290448384, 1);
      WrapSmall(1553255926290448384);
    }
    forall j | 0 <= j < 20 ensures DoesNotFire(s, l, true, j) {
      if j < 19 {
        PowerOf10Bound(j);
        WrapSmall(2 * Power(10, j));
      }
      ZerosDoNotFire(s, l, '2', 19, j);
    }
  }

  /** 0x1ffffffffffffffff is 2^65 - 1, which no word holds. It is read without complaint as
      2^64 - 1: the value wraps around, but it does not get smaller. */
  lemma UnsignedOverflowIsMissed(sign: bool, base: nat)
    requires 2 <= base <= 16
    ensures var s := "0x" + ("1" + Effs(16));
            && Strtoint(s, 19, sign, false, base, OK, Some(TWO_64 - 1), 19)
            && (forall c <- s[2..] :: IsDigit(c, 16)) && Value(s[2..], 16) == 2 * TWO_64 - 1
  {
    hide LeadOf, Value, HexDigit, Wrap, Power, Effs, Fires, LooksOverflowed;
    var t := "1" + Effs(16);
    var s := "0x" + t;
    var l := Lead(false, 2, 16);
    HexLead(t, sign, base);
    PowersOf16();
    ValueOfEffs(16);
    assert s[2..] == s[2..19] == t;
    forall j | 2 <= j < 19 ensures DoesNotFire(s, l, false, j) {
      NoneFires(s, t, j);
    }
    assert Wrap(2 * TWO_64 - 1) == TWO_64 - 1 by {
      WrapAddMultiple(TWO_64 - 1, 1);
      WrapSmall(TWO_64 - 1);
    }
  }

  lemma {:induction false} PowerOf16Bound(n: nat)
    requires n <= 15
    ensures Power(16, n) >= 1
    ensures n == 15 ==> Power(16, n) == 0x1000_0000_0000_0000
    ensures n < 15 ==> Power(16, n) <= 0x100_0000_0000_0000
    decreases 15 - n
  {
    if n == 15 {
      assert Power(16, 4) == 0x1_0000 && Power(16, 8) == TWO_32 && Power(16, 12) == 0x1_0000_0000_0000;
    } else {
      PowerOf16Bound(n + 1);
    }
  }

  lemma NoneFires(s: string, t: string, j: nat)
    requires t == "1" + Effs(16) && s == "0x" + t && 2 <= j < 19
    ensures DoesNotFire(s, Lead(false, 2, 16), false, j)
  {
    hide Power, Value, Effs;
    var l := Lead(false, 2, 16);
    if j == 2 {
      assert s[2..2] == "";
      NoValue(16);
    } else {
      var n := j - 3;
      EffsPrefix(16, n);
      assert s[2..j] == "1" + Effs(n);
      assert s[j] == Effs(16)[n] && Effs(16)[n] in Effs(16);
      ValueOfEffs(n);
      PowerOf16Bound(n);
      var v := 2 * Power(16, n) - 1;
      assert Value(s[2..j], 16) == v < TWO_64;
      assert v * 16 + 15 == 32 * Power(16, n) - 1;
      assert v <= Wrap(v * 16 + 15);
    }
  }
}
