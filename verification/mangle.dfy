/**
 Mangling and demangling of vtable symbols: the fragment of section 5.1 of the Itanium C++ ABI with
 source names, nested names and the "TV" special name, behind Apple's extra underscore.

 C strings are character sequences without their terminator. The printer and the parser are given
 as functions on strings; the methods below work on the buffers.
 */
module Mangle {
  import opened Common

  const INT_MAX := 0x7fff_ffff

  predicate IsDigit(c: char) {
    '0' <= c <= '9'
  }

  function DigitValue(c: char): nat
    requires IsDigit(c)
  {
    c as int - '0' as int
  }

  function DigitChar(d: nat): (c: char)
    requires d < 10
    ensures IsDigit(c) && DigitValue(c) == d
  {
    '0' + d as char
  }

  // ---- The printer ------------------------------------------------------------------------------

  /** The decimal numeral, as printed by %zu. */
  function Decimal(n: nat): (s: string)
    ensures s != ""
  {
    if n < 10 then [DigitChar(n)] else Decimal(n / 10) + [DigitChar(n % 10)]
  }

  function SourceName(name: Name): (s: string)
    ensures s != ""
  {
    Decimal(|name|) + name
  }

  function SourceNames(names: seq<Name>): string {
    if names == [] then "" else SourceName(names[0]) + SourceNames(names[1..])
  }

  function NestedName(names: seq<Name>): string {
    if |names| > 1 then "N" + SourceNames(names) + "E" else SourceNames(names)
  }

  function VtableSymbol(names: seq<Name>): string {
    "__ZTV" + NestedName(names)
  }

  // ---- The parser -------------------------------------------------------------------------------

  datatype Parsed<T> = Parsed(value: T, rest: string)

  /** Goes on reading a decimal length, of which `len` is what was read so far. The value is kept
      in 32 bits, and a wrap-around is noticed only when it makes the value smaller. */
  function LengthFrom(s: string, len: nat): (r: Option<Parsed<nat>>)
    ensures r.Some? ==> |r.value.rest| <= |s|
    ensures r.Some? ==> len <= r.value.value
    ensures r.Some? ==> r.value.rest == "" || !IsDigit(r.value.rest[0])
  {
    if s == "" || !IsDigit(s[0]) then
      Some(Parsed(len, s))
    else
      var newlen := (len * 10 + DigitValue(s[0])) % TWO_32;
      if newlen < len then None else LengthFrom(s[1..], newlen)
  }

  function ReadLength(s: string): (r: Option<Parsed<nat>>)
    ensures r.Some? ==> r.value.value > 0 && |r.value.rest| < |s|
  {
    if s != "" && s[0] == '0' then None
    else
      var r := LengthFrom(s, 0);
      if r.None? || r.value.value == 0 then None
      else
        LengthConsumes(s);
        r
  }

  lemma LengthConsumes(s: string)
    requires LengthFrom(s, 0).Some? && LengthFrom(s, 0).value.value > 0
    ensures |LengthFrom(s, 0).value.rest| < |s|
  {
  }

  function ReadName(s: string): (r: Option<Parsed<Name>>)
    ensures r.Some? ==> |r.value.rest| < |s| && r.value.value != ""
  {
    var l := ReadLength(s);
    if l.None? || |l.value.rest| < l.value.value then None
    else Some(Parsed(l.value.rest[..l.value.value], l.value.rest[l.value.value..]))
  }

  /** The names of a nested name after its first, up to and including the closing E. */
  function ReadNames(s: string): (r: Option<Parsed<seq<Name>>>)
    ensures r.Some? ==> r.value.value != []
    decreases |s|
  {
    var n := ReadName(s);
    if n.None? then
      None
    else if n.value.rest != "" && n.value.rest[0] == 'E' then
      Some(Parsed([n.value.value], n.value.rest[1..]))
    else
      var r := ReadNames(n.value.rest);
      if r.None? then None else Some(Parsed([n.value.value] + r.value.value, r.value.rest))
  }

  function ReadNestedName(s: string): Option<Parsed<seq<Name>>> {
    if s != "" && s[0] == 'N' then
      var n := ReadName(s[1..]);
      if n.None? then None
      else
        var r := ReadNames(n.value.rest);
        if r.None? then None else Some(Parsed([n.value.value] + r.value.value, r.value.rest))
    else
      var n := ReadName(s);
      if n.None? then None else Some(Parsed([n.value.value], n.value.rest))
  }

  /** The names of a vtable symbol. */
  function ParseVtable(s: string): Option<seq<Name>> {
    if |s| < 5 || s[..5] != "__ZTV" then None
    else
      var r := ReadNestedName(s[5..]);
      if r.None? || r.value.rest != "" then None else Some(r.value.value)
  }

  // ---- Printing and parsing undo each other -----------------------------------------------------

  /** What a C++ compiler gives as the names of a class. */
  predicate IsName(name: Name) {
    0 < |name| < TWO_32 && !IsDigit(name[0]) && NUL !in name
  }

  lemma {:induction false} DecimalStart(n: nat)
    requires n > 0
    ensures Decimal(n)[0] != '0' && IsDigit(Decimal(n)[0])
  {
    if n >= 10 {
      DecimalStart(n / 10);
    }
  }

  lemma LengthStep(c: char, t: string, len: nat)
    requires IsDigit(c)
    ensures var n := len * 10 + DigitValue(c);
            n < TWO_32 ==> LengthFrom([c] + t, len) == LengthFrom(t, n)
  {
    assert ([c] + t)[1..] == t;
  }

  /** Reading a printed length arrives at that length. */
  lemma {:induction false} LengthOfDecimal(n: nat, t: string)
    requires 0 < n < TWO_32
    ensures LengthFrom(Decimal(n) + t, 0) == LengthFrom(t, n)
  {
    hide LengthFrom;
    var c := DigitChar(n % 10);
    if n < 10 {
      LengthStep(c, t, 0);
    } else {
      assert Decimal(n) + t == Decimal(n / 10) + ([c] + t);
      LengthOfDecimal(n / 10, [c] + t);
      LengthStep(c, t, n / 10);
    }
  }

  lemma ReadPrintedName(name: Name, t: string)
    requires IsName(name)
    ensures ReadName(SourceName(name) + t) == Some(Parsed(name, t))
  {
    var s := SourceName(name) + t;
    DecimalStart(|name|);
    assert s == Decimal(|name|) + (name + t);
    LengthOfDecimal(|name|, name + t);
    assert (name + t)[..|name|] == name && (name + t)[|name|..] == t;
  }

  lemma {:induction false} ReadPrintedNames(names: seq<Name>, t: string)
    requires names != [] && forall name <- names :: IsName(name)
    ensures ReadNames(SourceNames(names) + "E" + t) == Some(Parsed(names, t))
  {
    hide LengthFrom, ReadName, Decimal;
    var tail := SourceNames(names[1..]) + "E" + t;
    assert SourceNames(names) + "E" + t == SourceName(names[0]) + tail;
    ReadPrintedName(names[0], tail);
    if |names| == 1 {
      assert tail[1..] == t && names == [names[0]];
    } else {
      assert IsName(names[1]);
      DecimalStart(|names[1]|);
      assert tail[0] == Decimal(|names[1]|)[0];
      ReadPrintedNames(names[1..], t);
      assert names == [names[0]] + names[1..];
    }
  }

  /** Parsing undoes printing, for every list of names a class can have. */
  lemma ParseUndoesPrint(names: seq<Name>)
    requires names != [] && forall name <- names :: IsName(name)
    ensures ParseVtable(VtableSymbol(names)) == Some(names)
  {
    hide LengthFrom, ReadName, ReadNames, Decimal;
    var s := NestedName(names);
    assert VtableSymbol(names)[5..] == s && VtableSymbol(names)[..5] == "__ZTV";
    if |names| == 1 {
      assert names == [names[0]] && SourceNames(names[1..]) == "";
      assert s == SourceName(names[0]) + "";
      ReadPrintedName(names[0], "");
      DecimalStart(|names[0]|);
      assert s[0] == Decimal(|names[0]|)[0];
    } else {
      var tail := SourceNames(names[1..]) + "E" + "";
      assert s[1..] == SourceName(names[0]) + tail;
      ReadPrintedName(names[0], tail);
      ReadPrintedNames(names[1..], "");
      assert names == [names[0]] + names[1..];
    }
  }

  lemma LengthStop(s: string, len: nat)
    requires s == "" || !IsDigit(s[0])
    ensures LengthFrom(s, len) == Some(Parsed(len, s))
  {
  }

  lemma DecimalStep(n: nat, c: char)
    requires n > 0 && IsDigit(c)
    ensures Decimal(n * 10 + DigitValue(c)) == Decimal(n) + [c]
  {
    assert DigitChar(DigitValue(c)) == c;
  }

  lemma OneDigit(d: nat)
    requires d <= 9
    ensures Decimal(d) == ["0123456789"[d]]
  {
  }

  lemma TwoDigits(a: nat, b: nat)
    requires 1 <= a <= 9 && b <= 9
    ensures Decimal(10 * a + b) == ["0123456789"[a], "0123456789"[b]]
  {
    hide Decimal;
    OneDigit(a);
    var c := "0123456789"[b];
    assert IsDigit(c) && DigitValue(c) == b;
    DecimalStep(a, c);
  }

  lemma OneName(name: Name)
    ensures SourceNames([name]) == SourceName(name)
  {
    assert SourceNames([name]) == SourceName(name) + "";
  }

  /** A symbol as the ABI spells it: for a class outside all others, whose name has from 10 to 99 characters ... */
  lemma PlainSymbol(name: Name, a: nat, b: nat)
    requires 1 <= a <= 9 && b <= 9 && |name| == 10 * a + b
    ensures VtableSymbol([name]) == "__ZTV" + (["0123456789"[a], "0123456789"[b]] + name)
  {
    hide Decimal, SourceNames;
    TwoDigits(a, b);
    OneName(name);
  }

  lemma TwoNames(outer: Name, inner: Name)
    ensures SourceNames([outer, inner]) == SourceName(outer) + SourceName(inner)
  {
    hide SourceName;
    OneName(inner);
    assert [outer, inner][1..] == [inner];
  }

  /** ... and for a class inside another one, with names of up to 9 characters. */
  lemma NestedSymbol(outer: Name, inner: Name)
    requires |outer| <= 9 && |inner| <= 9
    ensures VtableSymbol([outer, inner])
            == "__ZTV" + ("N" + (["0123456789"[|outer|]] + outer + (["0123456789"[|inner|]] + inner)) + "E")
  {
    hide Decimal, SourceNames;
    OneDigit(|outer|);
    OneDigit(|inner|);
    TwoNames(outer, inner);
  }

  // ---- Lengths as numbers -------------------------------------------------------------------------

  /** The value of the numeral at the start of s, continuing from `len`, without any limit. */
  function NumeralFrom(s: string, len: nat): (v: nat)
    ensures v >= len
  {
    if s == "" || !IsDigit(s[0]) then len else NumeralFrom(s[1..], len * 10 + DigitValue(s[0]))
  }

  lemma {:induction false} LengthInRange(s: string, len: nat)
    requires NumeralFrom(s, len) < TWO_32
    ensures LengthFrom(s, len).Some? && LengthFrom(s, len).value.value == NumeralFrom(s, len)
  {
    if s != "" && IsDigit(s[0]) {
      LengthInRange(s[1..], len * 10 + DigitValue(s[0]));
    }
  }

  lemma {:induction false} LengthBound(s: string, len: nat)
    requires LengthFrom(s, len).Some? && len < TWO_32
    ensures LengthFrom(s, len).value.value < TWO_32
  {
    if s != "" && IsDigit(s[0]) {
      LengthBound(s[1..], (len * 10 + DigitValue(s[0])) % TWO_32);
    }
  }

  /** A length is read as the number written exactly when that number is below 2^32. */
  lemma LengthExactness(s: string)
    ensures NumeralFrom(s, 0) < TWO_32
            <==> LengthFrom(s, 0).Some? && LengthFrom(s, 0).value.value == NumeralFrom(s, 0)
  {
    if NumeralFrom(s, 0) < TWO_32 {
      LengthInRange(s, 0);
    } else if LengthFrom(s, 0).Some? {
      LengthBound(s, 0);
    }
  }

  /** Reading steps in 32 bits never loses a value that ends up below 2^32 / 10. */
  lemma {:induction false} ShortLengthIsExact(s: string, len: nat)
    requires LengthFrom(s, len).Some? && LengthFrom(s, len).value.value <= 429496728
    ensures NumeralFrom(s, len) == LengthFrom(s, len).value.value
    decreases s
  {
    hide LengthFrom;
    if s == "" || !IsDigit(s[0]) {
      LengthStop(s, len);
    } else {
      assert s == [s[0]] + s[1..];
      LengthGrows(s, len);
      LengthStep(s[0], s[1..], len);
      ShortLengthIsExact(s[1..], len * 10 + DigitValue(s[0]));
    }
  }

  lemma LengthGrows(s: string, len: nat)
    requires LengthFrom(s, len).Some?
    ensures len <= LengthFrom(s, len).value.value
  {
  }

  lemma NumeralStep(c: char, t: string, len: nat)
    requires IsDigit(c)
    ensures NumeralFrom([c] + t, len) == NumeralFrom(t, len * 10 + DigitValue(c))
  {
    assert ([c] + t)[1..] == t;
  }

  /** The number at the start of a printed length is that length. */
  lemma {:induction false} NumeralOfDecimal(n: nat, t: string)
    ensures NumeralFrom(Decimal(n) + t, 0) == NumeralFrom(t, n)
  {
    hide NumeralFrom;
    var c := DigitChar(n % 10);
    if n < 10 {
      NumeralStep(c, t, 0);
    } else {
      assert Decimal(n) + t == Decimal(n / 10) + ([c] + t);
      NumeralOfDecimal(n / 10, [c] + t);
      NumeralStep(c, t, n / 10);
    }
  }

  lemma NumeralStop(s: string, len: nat)
    requires s == "" || !IsDigit(s[0])
    ensures NumeralFrom(s, len) == len
  {
  }

  /** The digits of a length below 2^32 are the numeral that is printed for it. */
  lemma {:induction false} LengthIsDecimal(s: string, len: nat)
    requires len > 0 && NumeralFrom(s, len) < TWO_32
    ensures LengthFrom(s, len).Some?
    ensures var r := LengthFrom(s, len).value; Decimal(len) + s == Decimal(r.value) + r.rest
    decreases s
  {
    hide LengthFrom, Decimal, NumeralFrom;
    if s == "" || !IsDigit(s[0]) {
      LengthStop(s, len);
    } else {
      var c, t := s[0], s[1..];
      assert s == [c] + t;
      NumeralStep(c, t, len);
      assert len * 10 + DigitValue(c) < TWO_32 by { NumeralGrows(t, len * 10 + DigitValue(c)); }
      LengthStep(c, t, len);
      LengthIsDecimal(t, len * 10 + DigitValue(c));
      DecimalStep(len, c);
      assert Decimal(len) + s == Decimal(len) + [c] + t;
    }
  }

  lemma NumeralGrows(s: string, len: nat)
    ensures len <= NumeralFrom(s, len)
  {
  }

  lemma DecimalDigit(c: char)
    requires IsDigit(c)
    ensures Decimal(DigitValue(c)) == [c] && (DigitValue(c) == 0 <==> c == '0')
  {
    assert DigitChar(DigitValue(c)) == c;
  }

  // ---- Which accepted symbols are manglings -------------------------------------------------------

  /** Every name read is one that a length can be printed for. */
  predicate IsRead(name: Name) {
    0 < |name| < TWO_32 && !IsDigit(name[0])
  }

  lemma ReadNameReads(s: string)
    requires ReadName(s).Some?
    ensures IsRead(ReadName(s).value.value)
  {
    LengthBound(s, 0);
  }

  lemma ReadNameIsSourceName(s: string)
    requires ReadName(s).Some? && NumeralFrom(s, 0) < TWO_32
    ensures var r := ReadName(s).value; s == SourceName(r.value) + r.rest
  {
    hide LengthFrom, Decimal, NumeralFrom;
    var l := LengthFrom(s, 0).value;
    if !IsDigit(s[0]) {
      LengthStop(s, 0);
    }
    var c := s[0];
    assert s == [c] + s[1..];
    LengthStep(c, s[1..], 0);
    NumeralStep(c, s[1..], 0);
    DecimalDigit(c);
    LengthIsDecimal(s[1..], DigitValue(c));
    assert l.rest == l.rest[..l.value] + l.rest[l.value..];
  }

  /** A name that is read is printed as it stood, whatever follows, exactly if its numeral is below 2^32. */
  lemma ReadNameExactness(s: string, t: string)
    requires ReadName(s).Some?
    ensures s == SourceName(ReadName(s).value.value) + t
       <==> NumeralFrom(s, 0) < TWO_32 && t == ReadName(s).value.rest
  {
    hide ReadName, Decimal, NumeralFrom;
    var r := ReadName(s).value;
    ReadNameReads(s);
    if NumeralFrom(s, 0) < TWO_32 {
      ReadNameIsSourceName(s);
      var n := |SourceName(r.value)|;
      assert s[n..] == r.rest;
      assert s == SourceName(r.value) + t ==> s[n..] == t;
    } else if s == SourceName(r.value) + t {
      assert s == Decimal(|r.value|) + (r.value + t);
      NumeralOfDecimal(|r.value|, r.value + t);
      NumeralStop(r.value + t, |r.value|);
      assert false;
    }
  }

  /** The length numerals of the names that ReadNames reads are below 2^32. */
  ghost predicate NamesFit(s: string)
    decreases |s|
  {
    var n := ReadName(s);
    n.Some? ==>
      && NumeralFrom(s, 0) < TWO_32
      && ((n.value.rest != "" && n.value.rest[0] == 'E') || NamesFit(n.value.rest))
  }

  lemma {:induction false} ReadNamesExactness(s: string)
    requires ReadNames(s).Some?
    ensures var r := ReadNames(s).value;
            && (s == SourceNames(r.value) + "E" + r.rest <==> NamesFit(s))
            && forall name <- r.value :: IsRead(name)
    decreases |s|
  {
    hide ReadName, NumeralFrom, SourceName, IsRead;
    var r, n := ReadNames(s).value, ReadName(s).value;
    ReadNameReads(s);
    if n.rest != "" && n.rest[0] == 'E' {
      ReadNameExactness(s, "E" + r.rest);
      assert n.rest == "E" + r.rest;
      assert SourceNames([n.value]) == SourceName(n.value) + "";
      assert s == SourceNames(r.value) + "E" + r.rest <==> s == SourceName(n.value) + ("E" + r.rest);
    } else {
      var tail := ReadNames(n.rest).value.value;
      ReadNamesExactness(n.rest);
      assert r.value == [n.value] + tail && r.value[1..] == tail;
      var t := SourceNames(tail) + "E" + r.rest;
      ReadNameExactness(s, t);
      assert SourceNames(r.value) + "E" + r.rest == SourceName(n.value) + t;
    }
  }

  /** The length numerals of a nested name are below 2^32. */
  ghost predicate NestedNameFits(t: string) {
    if t != "" && t[0] == 'N' then
      var n := ReadName(t[1..]);
      n.Some? ==> NumeralFrom(t[1..], 0) < TWO_32 && NamesFit(n.value.rest)
    else
      NumeralFrom(t, 0) < TWO_32
  }

  lemma ReadNestedNameExactness(t: string)
    requires ReadNestedName(t).Some?
    ensures var r := ReadNestedName(t).value;
            && (t == NestedName(r.value) + r.rest <==> NestedNameFits(t))
            && r.value != [] && forall name <- r.value :: IsRead(name)
  {
    hide ReadName, ReadNames, NumeralFrom, SourceName, IsRead, NamesFit;
    var r := ReadNestedName(t).value;
    if t != "" && t[0] == 'N' {
      NestedExactness(t);
    } else {
      ReadNameReads(t);
      ReadNameExactness(t, r.rest);
      assert SourceNames(r.value) == SourceName(r.value[0]) + "";
    }
  }

  lemma NestedExactness(t: string)
    requires t != "" && t[0] == 'N' && ReadNestedName(t).Some?
    ensures var r := ReadNestedName(t).value;
            && (t == NestedName(r.value) + r.rest <==> NestedNameFits(t))
            && |r.value| > 1 && forall name <- r.value :: IsRead(name)
  {
    hide ReadName, ReadNames, NumeralFrom, SourceName, IsRead, NamesFit;
    var u := t[1..];
    var r, n := ReadNestedName(t).value, ReadName(u).value;
    var tail := ReadNames(n.rest).value.value;
    ReadNameReads(u);
    ReadNamesExactness(n.rest);
    assert tail != [] by { ReadNamesNotEmpty(n.rest); }
    var v := SourceNames(tail) + "E" + r.rest;
    ReadNameExactness(u, v);
    assert r.value[1..] == tail;
    assert t == "N" + u;
    assert NestedName(r.value) + r.rest == "N" + (SourceName(n.value) + v);
    assert t == "N" + (SourceName(n.value) + v) <==> u == SourceName(n.value) + v by {
      assert ("N" + (SourceName(n.value) + v))[1..] == SourceName(n.value) + v;
    }
  }

  lemma ReadNamesNotEmpty(s: string)
    requires ReadNames(s).Some?
    ensures ReadNames(s).value.value != []
  {
  }

  /** The length numerals of a symbol are below 2^32. */
  ghost predicate NumeralsFit(s: string) {
    |s| >= 5 ==> NestedNameFits(s[5..])
  }

  /** An accepted symbol is the mangling of the names returned exactly if its length numerals are below 2^32. */
  lemma PrintUndoesParseExactly(s: string)
    requires ParseVtable(s).Some?
    ensures var names := ParseVtable(s).value;
            && (VtableSymbol(names) == s <==> NumeralsFit(s))
            && names != [] && (NUL !in s && NumeralsFit(s) ==> forall name <- names :: IsName(name))
  {
    hide ReadNestedName, NestedName, NestedNameFits;
    var t, names := s[5..], ParseVtable(s).value;
    assert s == "__ZTV" + t;
    ReadNestedNameExactness(t);
    assert NestedName(names) + "" == NestedName(names);
    assert VtableSymbol(names)[5..] == NestedName(names);
    if VtableSymbol(names) == s && NUL !in s { NamesComeFrom(names, s); }
  }

  /** Any other accepted symbol is the mangling of no list of names that a class can have. */
  lemma OnlyFittingSymbolsArePrinted(names: seq<Name>)
    requires names != [] && forall name <- names :: IsName(name)
    ensures NumeralsFit(VtableSymbol(names))
  {
    ParseUndoesPrint(names);
    PrintUndoesParseExactly(VtableSymbol(names));
  }

  lemma ShortNameFits(s: string)
    requires ReadName(s).Some? && |s| <= 429496728
    ensures NumeralFrom(s, 0) < TWO_32
  {
    ShortLengthIsExact(s, 0);
  }

  lemma {:induction false} ShortNamesFit(s: string)
    requires |s| <= 429496728
    ensures NamesFit(s)
    decreases |s|
  {
    if ReadName(s).Some? {
      ShortNameFits(s);
      ShortNamesFit(ReadName(s).value.rest);
    }
  }

  /** So every accepted symbol shorter than 2^32 / 10 bytes is the mangling of its names. */
  lemma PrintUndoesParse(s: string)
    requires ParseVtable(s).Some? && |s| * 10 < TWO_32 && NUL !in s
    ensures var names := ParseVtable(s).value;
            VtableSymbol(names) == s && names != [] && forall name <- names :: IsName(name)
  {
    hide ReadName, ReadNames, NumeralFrom, NamesFit, NestedName;
    var t := s[5..];
    if t != "" && t[0] == 'N' {
      ShortNameFits(t[1..]);
      ShortNamesFit(ReadName(t[1..]).value.rest);
    } else {
      ShortNameFits(t);
    }
    PrintUndoesParseExactly(s);
  }

  lemma NamesComeFrom(names: seq<Name>, s: string)
    requires VtableSymbol(names) == s && NUL !in s
    ensures forall name <- names :: NUL !in name
  {
    assert forall c <- SourceNames(names) :: c in s;
    NamesAreInside(names);
  }

  lemma {:induction false} NamesAreInside(names: seq<Name>)
    ensures forall name <- names :: forall c <- name :: c in SourceNames(names)
  {
    if names != [] {
      NamesAreInside(names[1..]);
      assert names == [names[0]] + names[1..];
    }
  }

  // ---- A length of 2^32 and more --------------------------------------------------------------------

  function TimesTen(n: nat, k: nat): (m: nat)
    ensures m >= n
    decreases k
  {
    if k == 0 then n else TimesTen(n * 10, k - 1)
  }

  lemma {:induction false} LengthZeros(n: nat, k: nat, t: string)
    requires TimesTen(n, k) < TWO_32
    ensures LengthFrom(Zeros(k) + t, n) == LengthFrom(t, TimesTen(n, k))
    decreases k
  {
    hide LengthFrom;
    if k == 0 {
      assert Zeros(k) + t == t;
    } else {
      assert Zeros(k) + t == ['0'] + (Zeros(k - 1) + t);
      LengthStep('0', Zeros(k - 1) + t, n);
      LengthZeros(n * 10, k - 1, t);
    }
  }

  /** The ninth zero multiplies 500000000 to 5000000000, which is 705032704 modulo 2^32. */
  lemma LengthWraps(t: string)
    requires t != "" && !IsDigit(t[0])
    ensures LengthFrom("5" + (Zeros(8) + ("0" + t)), 0) == Some(Parsed(705032704, t))
  {
    LengthStep('5', Zeros(8) + ("0" + t), 0);
    assert TimesTen(5, 4) == 50000 && TimesTen(50000, 4) == 500000000;
    assert TimesTen(5, 8) == 500000000 by {
      assert TimesTen(5, 8) == TimesTen(500, 6) == TimesTen(50000, 4);
    }
    LengthZeros(5, 8, "0" + t);
    assert ("0" + t)[1..] == t;
  }

  lemma DecimalOfWrapped()
    ensures Decimal(705032704)[0] == '7'
  {
    assert Decimal(705)[0] == '7';
    assert Decimal(705032)[0] == '7';
  }

  /** Beyond that, a symbol can be accepted that is not the mangling of anything: here the length
      5000000000 is read as 705032704. */
  lemma WrappedLengthIsAccepted(name: Name, names: seq<Name>)
    requires |name| == 705032704 && !IsDigit(name[0])
    requires names != [] && forall n <- names :: IsName(n)
    ensures var s := "__ZTV" + ("5" + (Zeros(8) + ("0" + name)));
            ParseVtable(s) == Some([name]) && VtableSymbol(names) != s
  {
    hide LengthFrom, Zeros, Decimal;
    LengthWraps(name);
    var t := "5" + (Zeros(8) + ("0" + name));
    var s := "__ZTV" + t;
    assert s[..5] == "__ZTV" && s[5..] == t;
    assert name[..|name|] == name && name[|name|..] == "";
    assert ReadName(t) == Some(Parsed(name, ""));
    if VtableSymbol(names) == s {
      ParseUndoesPrint(names);
      assert SourceNames(names) == SourceName(name) + "";
      assert s[5..] == Decimal(|name|) + name;
      DecimalOfWrapped();
      assert false;
    }
  }
}
