/** The printer and the parser of mangled names as they work on character buffers. */
module MangleBuffers {
  import opened Common
  import opened Mangle

  // ---- Writing ----------------------------------------------------------------------------------

  /** A position in a buffer of fixed size, and the length of all that was written, whether it fitted
      or not. */
  class Writer {
    const buf: array<char>
    var pos: nat
    var written: nat
    ghost var text: string   // all that was written

    /** The buffer holds as much of the text as fits before a terminator. */
    ghost predicate Valid()
      reads this, buf
    {
      && written == |text| && pos == Min(|text|, buf.Length)
      && (forall i :: 0 <= i < |text| && i < buf.Length - 1 ==> buf[i] == text[i])
      && (text != "" && buf.Length > 0 ==> buf[Min(|text|, buf.Length - 1)] == NUL)
    }

    constructor (buf: array<char>)
      ensures Valid() && this.buf == buf && text == ""
    {
      this.buf := buf;
      pos, written, text := 0, 0, "";
    }

    /** Writes a (formatted) string the way vsnprintf does: nothing without room, and otherwise what
        fits and a terminator. The length is an int. */
    method Write(str: string)
      requires Valid() && str != "" && |str| <= INT_MAX
      modifies this`pos, this`written, this`text, buf
      ensures Valid() && text == old(text) + str
    {
      var left := buf.Length - pos;
      if left > 0 {
        var fits := Min(|str|, left - 1);
        for i := 0 to fits
          invariant forall j :: 0 <= j < i ==> buf[pos + j] == str[j]
          invariant forall j :: 0 <= j < pos ==> buf[j] == old(buf[j])
          modifies buf
        {
          buf[pos + i] := str[i];
        }
        buf[pos + fits] := NUL;
      }
      ghost var text' := text + str;
      pos := pos + Min(left, |str|);
      written := written + |str|;
      text := text';
    }

    method WriteNestedName(names: seq<Name>)
      requires Valid() && names != []
      requires forall name <- names :: |SourceName(name)| <= INT_MAX
      modifies this`pos, this`written, this`text, buf
      ensures Valid() && text == old(text) + NestedName(names)
    {
      hide SourceName, SourceNames, Valid;
      SourceNamesNone(names);
      if |names| > 1 {
        Write("N");
      }
      ghost var start := text;
      for i := 0 to |names|
        invariant Valid() && text == start + SourceNames(names[..i])
      {
        SourceNamesStep(names, i);
        Write(SourceName(names[i]));
      }
      assert names[..|names|] == names;
      if |names| > 1 {
        Write("E");
      }
    }
  }

  lemma SourceNamesNone(names: seq<Name>)
    ensures SourceNames(names[..0]) == ""
  {
  }

  lemma {:induction false} SourceNamesStep(names: seq<Name>, i: nat)
    requires i < |names|
    ensures SourceNames(names[..i + 1]) == SourceNames(names[..i]) + SourceName(names[i])
  {
    hide SourceName;
    if i == 0 {
      assert names[..1] == [names[0]];
    } else {
      assert names[..i + 1][1..] == names[1..][..i] && names[..i][1..] == names[1..][..i - 1];
      SourceNamesStep(names[1..], i - 1);
    }
  }

  /** Prints the vtable symbol of a class into a buffer. The result is the length of the whole symbol;
      what does not fit is cut off before the terminator. */
  method MangleClassVtable(buf: array<char>, names: seq<Name>) returns (written: nat)
    requires names != [] && forall name <- names :: |SourceName(name)| <= INT_MAX
    modifies buf
    ensures var symbol := VtableSymbol(names);
            && written == |symbol|
            && (buf.Length > 0 ==>
                  var n := Min(|symbol|, buf.Length - 1);
                  buf[..n] == symbol[..n] && buf[n] == NUL)
  {
    var state := new Writer(buf);
    state.Write("__Z");
    state.Write("TV");
    state.WriteNestedName(names);
    assert state.text == VtableSymbol(names);
    written := state.written;
  }

  // ---- Reading ----------------------------------------------------------------------------------

  /** The buffer starts with the string s and its terminator. */
  ghost predicate HoldsString(b: array<char>, s: string)
    reads b
  {
    |s| < b.Length && b[..|s|] == s && b[|s|] == NUL && NUL !in s
  }

  /** Whether the buffer goes on with the literal at m; if so, m moves past it. */
  method ReadLiteral(b: array<char>, m: nat, literal: string, ghost s: string) returns (ok: bool, m': nat)
    requires HoldsString(b, s) && m <= |s| && NUL !in literal
    ensures ok <==> literal <= s[m..]
    ensures m' == if ok then m + |literal| else m
    ensures m' <= |s|
  {
    var i := 0;
    while i < |literal|
      invariant i <= |literal| && m + i <= |s| && literal[..i] == s[m..m + i]
    {
      assert literal[i] in literal;
      if b[m + i] != literal[i] {
        return false, m;
      }
      assert b[m + i] == s[m + i];
      i := i + 1;
    }
    return true, m + |literal|;
  }

  method ReadLengthAt(b: array<char>, m: nat, ghost s: string) returns (ok: bool, m': nat, length: nat)
    requires HoldsString(b, s) && m <= |s|
    ensures ok <==> ReadLength(s[m..]).Some?
    ensures ok ==> m < m' <= |s| && ReadLength(s[m..]) == Some(Parsed(length, s[m'..]))
  {
    if b[m] == '0' {
      return false, m, 0;
    }
    var k, len := m, 0;
    while true
      invariant m <= k <= |s| && LengthFrom(s[k..], len) == LengthFrom(s[m..], 0)
      decreases |s| - k
    {
      var ch := b[k];
      if ch < '0' || ch > '9' {
        break;
      }
      assert s[k..][1..] == s[k + 1..];
      var newlen := (len * 10 + DigitValue(ch)) % TWO_32;
      if newlen < len {
        return false, m, 0;
      }
      len := newlen;
      k := k + 1;
    }
    if len == 0 {
      return false, m, 0;
    }
    return true, k, len;
  }

  method ReadNameAt(b: array<char>, m: nat, ghost s: string)
    returns (ok: bool, m': nat, start: nat, length: nat)
    requires HoldsString(b, s) && m <= |s|
    ensures ok <==> ReadName(s[m..]).Some?
    ensures ok ==> m < start && 0 < length && m' == start + length <= |s|
                   && ReadName(s[m..]) == Some(Parsed(s[start..m'], s[m'..]))
  {
    ok, start, length := ReadLengthAt(b, m, s);
    if !ok {
      return false, m, 0, 0;
    }
    // strnlen
    var n := 0;
    while n < length && b[start + n] != NUL
      invariant n <= length && start + n <= |s|
    {
      assert b[start + n] == s[start + n];
      n := n + 1;
    }
    if n < length {
      return false, m, 0, 0;
    }
    assert s[start..][..length] == s[start..start + length];
    assert s[start..][length..] == s[start + length..];
    return true, start + length, start, length;
  }

  // ---- Names as stretches of the buffer -----------------------------------------------------------

  datatype Span = Span(start: nat, end: nat)

  /** The stretches are nonempty, lie between lo and hi, and have room for a terminator in between. */
  ghost predicate Ordered(spans: seq<Span>, lo: nat, hi: nat) {
    && (forall i :: 0 <= i < |spans| ==> lo <= spans[i].start < spans[i].end <= hi)
    && (forall i, j :: 0 <= i < j < |spans| ==> spans[i].end < spans[j].start)
  }

  ghost function NamesAt(s: string, spans: seq<Span>): (names: seq<Name>)
    requires forall span <- spans :: span.start <= span.end <= |s|
    ensures |names| == |spans|
  {
    seq(|spans|, i requires 0 <= i < |spans| => s[spans[i].start..spans[i].end])
  }

  /** The arrays hold the stretches, as far as they have room. */
  ghost predicate Recorded(name: array<nat>, ends: array<nat>, spans: seq<Span>)
    reads name, ends
  {
    && name != ends && name.Length == ends.Length
    && (forall i :: 0 <= i < |spans| && i < name.Length ==>
          name[i] == spans[i].start && ends[i] == spans[i].end)
  }

  /** The result of a parser that has read some names and goes on as r. */
  ghost function Combine(names: seq<Name>, r: Option<Parsed<seq<Name>>>): Option<Parsed<seq<Name>>> {
    if r.None? then None else Some(Parsed(names + r.value.value, r.value.rest))
  }

  /** Reads one more name and records it if there is room. */
  method ReadNestedNameAdd(b: array<char>, m: nat, name: array<nat>, ends: array<nat>, count: nat,
                           ghost s: string, ghost spans: seq<Span>)
    returns (ok: bool, m': nat, count': nat, ghost spans': seq<Span>)
    requires HoldsString(b, s) && m <= |s|
    requires Recorded(name, ends, spans) && count == |spans|
    requires Ordered(spans, 0, m)
    modifies name, ends
    ensures ok <==> ReadName(s[m..]).Some?
    ensures ok ==> m < m' <= |s| && ReadName(s[m..]).value.rest == s[m'..]
    ensures ok ==> Recorded(name, ends, spans') && count' == |spans'| && Ordered(spans', 0, m')
                   && NamesAt(s, spans') == NamesAt(s, spans) + [ReadName(s[m..]).value.value]
  {
    var start, length;
    ok, m', start, length := ReadNameAt(b, m, s);
    if !ok {
      return false, m, count, spans;
    }
    if count < name.Length {
      name[count] := start;
      ends[count] := start + length;
    }
    count' := count + 1;
    spans' := spans + [Span(start, m')];
  }

  lemma NoSpans(s: string, name: array<nat>, ends: array<nat>, m: nat)
    requires name != ends && name.Length == ends.Length
    ensures Ordered([], 0, m) && Ordered([], 0, |s|) && NamesAt(s, []) == []
    ensures Recorded(name, ends, [])
  {
  }

  lemma CombineTwice(a: seq<Name>, b: seq<Name>, r: Option<Parsed<seq<Name>>>)
    ensures Combine(a, Combine(b, r)) == Combine(a + b, r)
  {
    if r.Some? {
      assert a + (b + r.value.value) == (a + b) + r.value.value;
    }
  }

  lemma UnfoldNames(s: string)
    ensures var n := ReadName(s);
            ReadNames(s) == if n.None? then None
                            else if n.value.rest != "" && n.value.rest[0] == 'E'
                            then Some(Parsed([n.value.value], n.value.rest[1..]))
                            else Combine([n.value.value], ReadNames(n.value.rest))
  {
  }

  lemma UnfoldNested(s: string)
    ensures var nested := s != "" && s[0] == 'N';
            var n := ReadName(if nested then s[1..] else s);
            ReadNestedName(s) == if n.None? then None
                                 else if nested then Combine([n.value.value], ReadNames(n.value.rest))
                                 else Some(Parsed([n.value.value], n.value.rest))
  {
  }

  method ReadNestedNameAt(b: array<char>, m: nat, name: array<nat>, ends: array<nat>, ghost s: string)
    returns (ok: bool, m': nat, count: nat, ghost spans: seq<Span>)
    requires HoldsString(b, s) && m <= |s|
    requires name != ends && name.Length == ends.Length
    modifies name, ends
    ensures ok <==> ReadNestedName(s[m..]).Some?
    ensures ok ==> m' <= |s| && Recorded(name, ends, spans) && count == |spans|
                   && Ordered(spans, 0, m')
                   && ReadNestedName(s[m..]) == Some(Parsed(NamesAt(s, spans), s[m'..]))
  {
    hide ReadName, ReadNames, ReadNestedName, HoldsString, NamesAt, Recorded;
    UnfoldNested(s[m..]);
    var nested, k;
    nested, k := ReadLiteral(b, m, "N", s);
    NoSpans(s, name, ends, k);
    assert nested <==> s[m..] != "" && s[m..][0] == 'N';
    assert nested ==> s[m..][1..] == s[k..];
    ghost var first := ReadName(s[k..]);
    ok, k, count, spans := ReadNestedNameAdd(b, k, name, ends, 0, s, []);
    if !ok {
      return false, m, 0, [];
    }
    assert NamesAt(s, spans) == [first.value.value];
    if nested {
      var closed := false;
      while !closed
        invariant m <= k <= |s| && Recorded(name, ends, spans) && count == |spans|
        invariant Ordered(spans, 0, k)
        invariant !closed ==> ReadNestedName(s[m..]) == Combine(NamesAt(s, spans), ReadNames(s[k..]))
        invariant closed ==> ReadNestedName(s[m..]) == Some(Parsed(NamesAt(s, spans), s[k..]))
        decreases |s| - k, !closed
      {
        ghost var before, k0 := NamesAt(s, spans), k;
        UnfoldNames(s[k..]);
        ok, k, count, spans := ReadNestedNameAdd(b, k, name, ends, count, s, spans);
        if !ok {
          return false, m, 0, [];
        }
        ghost var r, k1 := ReadName(s[k0..]).value, k;
        closed, k := ReadLiteral(b, k, "E", s);
        assert closed <==> s[k1..] != "" && s[k1..][0] == 'E';
        assert closed ==> s[k1..][1..] == s[k..];
        CombineTwice(before, [r.value], ReadNames(s[k1..]));
      }
    }
    return true, k, count, spans;
  }

  // ---- Demangling ---------------------------------------------------------------------------------

  /** The string of the given length at a position of the buffer, with its terminator. */
  ghost predicate StringAt(b: array<char>, start: nat, name: Name)
    reads b
  {
    start + |name| < b.Length && b[start..start + |name|] == name && b[start + |name|] == NUL
  }

  /** Recovers the names of a vtable symbol. The buffer is changed in place: the names become strings
      inside it, at the positions recorded in `name`. The program ends as many names as `name` has
      room for, so a symbol with fewer names than that must not be given to it. */
  method DemangleClassVtable(name: array<nat>, b: array<char>, ghost s: string) returns (count: nat)
    requires HoldsString(b, s) && name.Length < 256
    requires ParseVtable(s).Some? ==> name.Length <= |ParseVtable(s).value|
    modifies name, b
    ensures count == (if ParseVtable(s).None? then 0 else |ParseVtable(s).value|)
    ensures count == 0 ==> b[..] == old(b[..])
    ensures count > 0 ==> forall i :: 0 <= i < name.Length ==>
              StringAt(b, name[i], ParseVtable(s).value[i])
  {
    assert s[0..] == s;
    var ok, m := ReadLiteral(b, 0, "__Z", s);
    if !ok {
      return 0;
    }
    ok, m := ReadLiteral(b, m, "TV", s);
    if !ok {
      return 0;
    }
    assert s[..5] == s[..3] + s[3..][..2] == "__Z" + "TV";
    var ends := new nat[name.Length];
    ghost var spans;
    ok, m, count, spans := ReadNestedNameAt(b, m, name, ends, s);
    if !ok {
      return 0;
    }
    if b[m] != NUL {
      assert s[m..] != "";
      return 0;
    }
    Terminate(b, name, ends, s, spans);
  }

  /** Ends each recorded name. No terminator falls on a name. */
  method Terminate(b: array<char>, name: array<nat>, ends: array<nat>, ghost s: string,
                   ghost spans: seq<Span>)
    requires HoldsString(b, s) && Ordered(spans, 0, |s|)
    requires Recorded(name, ends, spans) && name.Length <= |spans|
    modifies b
    ensures forall i :: 0 <= i < name.Length ==> StringAt(b, name[i], NamesAt(s, spans)[i])
  {
    for i := 0 to name.Length
      invariant forall j :: 0 <= j < i ==> b[spans[j].end] == NUL
      invariant forall k :: 0 <= k < |s| && (forall j :: 0 <= j < i ==> spans[j].end != k) ==> b[k] == s[k]
    {
      b[ends[i]] := NUL;
    }
    forall i | 0 <= i < name.Length ensures StringAt(b, name[i], NamesAt(s, spans)[i]) {
      forall k | spans[i].start <= k < spans[i].end ensures b[k] == s[k] {
        forall j | 0 <= j < name.Length ensures spans[j].end != k {
        }
      }
    }
  }
}
