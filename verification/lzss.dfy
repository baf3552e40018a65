/**
 The LZSS decoder of the kernelcache loader.

 The meaning of a compressed stream is given in two steps that know nothing of ring buffers or
 shift registers: `Parse` reads the stream as a list of tokens, and `Expand` runs the tokens as
 a sliding-window copy over the whole history. `Decompress` is the decoder as written, and is
 proved to compute exactly that. Masks and shifts are written as the division and remainder they
 stand for.
 */
module Lzss {
  import opened Common

  const N := 4096        // the size of the ring buffer
  const F := 18          // the longest match
  const THRESHOLD := 2   // a match is longer than this

  datatype Token = Literal(value: Byte) | Match(position: nat, length: nat)

  /** The tokens that the wire format can carry. */
  predicate Encodable(t: Token) {
    t.Match? ==> t.position < N && THRESHOLD < t.length <= F
  }

  // ---- Meaning of a token list: sliding-window expansion --------------------------------------

  /** The ring cell after c. */
  function Next(c: nat): (c': nat)
    requires c < N
    ensures c' < N
  {
    if c + 1 == N then 0 else c + 1
  }

  lemma NextIsMasked(i: nat)
    ensures (i + 1) % N == Next(i % N)
  {
  }

  /** The ring index of the byte that follows a history of the given length (the history starts
      with N bytes, the first F of them in the ring cells N - F, ..., N - 1). */
  function RingIndex(length: nat): (r: nat)
    ensures r < N
  {
    if length == 0 then N - F else Next(RingIndex(length - 1))
  }

  lemma {:induction false} RingIndexFormula(length: nat)
    ensures RingIndex(length) == (length + N - F) % N
  {
    if length != 0 {
      RingIndexFormula(length - 1);
      NextIsMasked(length - 1 + N - F);
    }
  }

  /** How far behind the write index r the ring cell `position` was last written. */
  function Distance(position: nat, r: nat): (d: nat)
    requires position < N && r < N
    ensures 1 <= d <= N
  {
    if position < r then r - position else r + N - position
  }

  lemma NextKeepsDistance(c: nat, r: nat)
    requires c < N && r < N
    ensures Distance(Next(c), Next(r)) == Distance(c, r)
  {
  }

  lemma DistanceCases(position: nat, r: nat)
    requires position < N && r < N
    ensures Distance(position, r) == if position < r then r - position else r + N - position
  {
  }

  lemma DistanceFormula(position: nat, r: nat)
    requires position < N && r < N
    ensures Distance(position, r) == (r - position - 1) % N + 1
  {
    assert (r - position - 1) % N == if position < r then r - position - 1 else r - position - 1 + N;
  }

  /** Appends n bytes to h, each a copy of the byte d places before it. */
  function Repeat(h: seq<Byte>, d: nat, n: nat): (h': seq<Byte>)
    requires 1 <= d <= |h|
    ensures |h'| == |h| + n && h <= h'
    decreases n
  {
    if n == 0 then h else Repeat(h + [h[|h| - d]], d, n - 1)
  }

  /** Every byte of a copy, overlapping or not, equals the one a constant distance behind it. */
  lemma {:induction false} RepeatIsPeriodic(h: seq<Byte>, d: nat, n: nat, j: nat)
    requires 1 <= d <= |h| <= j < |h| + n
    ensures Repeat(h, d, n)[j] == Repeat(h, d, n)[j - d]
    decreases n
  {
    if j == |h| {
      assert Repeat(h, d, n)[..|h| + 1] == h + [h[|h| - d]];
    } else {
      RepeatIsPeriodic(h + [h[|h| - d]], d, n - 1, j);
    }
  }

  function Length(t: Token): nat {
    if t.Literal? then 1 else t.length
  }

  function TotalLength(ts: seq<Token>): nat {
    if ts == [] then 0 else Length(ts[0]) + TotalLength(ts[1..])
  }

  function Append(h: seq<Byte>, t: Token): (h': seq<Byte>)
    requires N <= |h| && Encodable(t)
    ensures |h'| == |h| + Length(t) && h <= h'
  {
    match t
    case Literal(c) => h + [c]
    case Match(position, length) => Repeat(h, Distance(position, RingIndex(|h|)), length)
  }

  function Expand(h: seq<Byte>, ts: seq<Token>): (h': seq<Byte>)
    requires N <= |h| && forall t <- ts :: Encodable(t)
    ensures |h'| == |h| + TotalLength(ts) && h <= h'
    decreases ts
  {
    if ts == [] then h else Expand(Append(h, ts[0]), ts[1..])
  }

  /** The history before the first output byte: F bytes nobody wrote, then spaces. */
  function Initial(junk: seq<Byte>): (h: seq<Byte>)
    requires |junk| == F
    ensures |h| == N
  {
    junk + seq(N - F, _ => 32)
  }

  // ---- Wire format ---------------------------------------------------------------------------

  /** The low n bits of v, least significant first. */
  function LowBits(v: nat, n: nat): (bits: seq<bool>)
    ensures |bits| == n
  {
    if n == 0 then [] else [v % 2 == 1] + LowBits(v / 2, n - 1)
  }

  function Bit(b: bool): nat {
    if b then 1 else 0
  }

  /** The number whose bits, least significant first, are the given ones and then a marker of
      eight ones. */
  function Marked(bits: seq<bool>): nat {
    if bits == [] then 0xFF else Bit(bits[0]) + 2 * Marked(bits[1..])
  }

  /** The 12-bit position a match is stored with: i | ((j & 0xF0) << 4). */
  function MatchPosition(i: Byte, j: Byte): (position: nat)
    ensures position < N
  {
    i + (j / 16) as int * 256
  }

  /** One less than the length a match is stored with: (j & 0x0F) + THRESHOLD. */
  function MatchLast(j: Byte): (last: nat)
    ensures THRESHOLD <= last < F
  {
    (j % 16) as int + THRESHOLD
  }

  /** Reads tokens from src, the next ones announced by `flags`; a token cut short is dropped. */
  function ParseFrom(src: seq<Byte>, flags: seq<bool>): (ts: seq<Token>)
    ensures forall t <- ts :: Encodable(t)
    decreases |src|
  {
    if src == [] then
      []
    else if flags == [] then
      ParseFrom(src[1..], LowBits(src[0], 8))
    else if flags[0] then
      [Literal(src[0])] + ParseFrom(src[1..], flags[1..])
    else if |src| == 1 then
      []
    else
      [Match(MatchPosition(src[0], src[1]), MatchLast(src[1]) + 1)]
      + ParseFrom(src[2..], flags[1..])
  }

  function Parse(src: seq<Byte>): (ts: seq<Token>)
    ensures forall t <- ts :: Encodable(t)
  {
    ParseFrom(src, [])
  }

  /** The output of a compressed stream, when the unwritten ring cells hold `junk`. */
  function Decode(src: seq<Byte>, junk: seq<Byte>): (out: seq<Byte>)
    requires |junk| == F
    ensures |out| == TotalLength(Parse(src))
  {
    Expand(Initial(junk), Parse(src))[N..]
  }

  // ---- The decoder ---------------------------------------------------------------------------

  /** After d bytes of output, the ring holds the last N bytes of the history so far, each at its
      own index, and dst holds the output. */
  ghost predicate Written(dst: array<Byte>, text: array<Byte>, full: seq<Byte>, d: nat, r: nat)
    reads dst, text
  {
    && text.Length == N + F - 1 && dst != text
    && d <= dst.Length && N + d <= |full|
    && r == RingIndex(N + d)
    && (forall c :: 0 <= c < N ==> text[c] == full[N + d - Distance(c, r)])
    && (forall j :: 0 <= j < d ==> dst[j] == full[N + j])
  }

  /** The shift register after its next shift: the flags left, below a marker of ones. */
  predicate Register(v: nat, flags: seq<bool>) {
    |flags| <= 8 && (v == Marked(flags) || (v == 0 && flags == []))
  }

  lemma {:induction false} MarkedRange(flags: seq<bool>)
    ensures 0xFF * Pow2(|flags|) <= Marked(flags) < 0x100 * Pow2(|flags|)
  {
    if flags != [] {
      MarkedRange(flags[1..]);
    }
  }

  lemma {:induction false} MarkedLowBits(v: nat, n: nat)
    requires v < Pow2(n)
    ensures Marked(LowBits(v, n)) == v + 0xFF * Pow2(n)
  {
    if n != 0 {
      MarkedLowBits(v / 2, n - 1);
      assert LowBits(v, n)[1..] == LowBits(v / 2, n - 1);
    }
  }

  /** Bit 8 of the register is set exactly while flags of the current byte are left. */
  lemma RegisterMarker(v: nat, flags: seq<bool>)
    requires Register(v, flags)
    ensures (v / 0x100 % 2 == 0) == (flags == [])
    ensures flags != [] ==> (v % 2 == 1) == flags[0] && Register(v / 2, flags[1..])
  {
    if flags != [] {
      MarkedRange(flags);
      var p := Pow2(|flags| - 1);
      assert Pow2(|flags|) == 2 * p && p <= 128 by { Pow2AtMost128(|flags| - 1); }
      assert v / 0x100 == 2 * p - 1;
    }
  }

  lemma Pow2AtMost128(n: nat)
    requires n <= 7
    ensures Pow2(n) <= 128
    decreases 7 - n
  {
    if n < 7 {
      Pow2AtMost128(n + 1);
    }
  }

  /** Loading a flag byte announces its eight bits, least significant first. */
  lemma RegisterLoad(c: Byte)
    ensures Register(c + 0xFF00, LowBits(c, 8))
  {
    MarkedLowBits(c, 8);
  }

  lemma WrittenFacts(dst: array<Byte>, text: array<Byte>, full: seq<Byte>, d: nat, r: nat)
    requires Written(dst, text, full, d, r)
    ensures dst != text && text.Length == N + F - 1
    ensures d <= dst.Length && N + d <= |full| && r == RingIndex(N + d) && r < N
    ensures dst[..d] == full[N..N + d]
    ensures forall c :: 0 <= c < N ==> text[c] == full[N + d - Distance(c, r)]
  {
  }

  /** Writes one output byte: to dst, and over the oldest byte of the ring. */
  method Put(dst: array<Byte>, d: nat, text: array<Byte>, r: nat, c: Byte, ghost full: seq<Byte>)
    returns (r': nat)
    requires Written(dst, text, full, d, r)
    requires d < dst.Length && N + d < |full| && c == full[N + d]
    modifies dst, text
    ensures r' == Next(r) && Written(dst, text, full, d + 1, r')
    ensures forall j :: d < j < dst.Length ==> dst[j] == old(dst[j])
  {
    dst[d] := c;
    text[r] := c;
    NextIsMasked(r);
    r' := (r + 1) % N;
  }

  /** Copies a match of `last` + 1 bytes out of the ring, one byte at a time, so that a match may
      reach into the bytes it is itself producing. */
  method CopyMatch(dst: array<Byte>, d: nat, text: array<Byte>, r0: nat, position: nat, last: nat,
                   ghost full: seq<Byte>)
    returns (r: nat)
    requires Written(dst, text, full, d, r0) && d + last < dst.Length
    requires position < N
    requires Repeat(full[..N + d], Distance(position, r0), last + 1) <= full
    modifies dst, text
    ensures Written(dst, text, full, d + last + 1, r)
    ensures forall j :: d + last < j < dst.Length ==> dst[j] == old(dst[j])
  {
    hide Repeat, RingIndex, Written, Distance, Next;
    WrittenFacts(dst, text, full, d, r0);
    ghost var cell, dist := position, Distance(position, r0);
    r := r0;
    var k := 0;
    while k <= last
      invariant 0 <= k <= last + 1
      invariant Written(dst, text, full, d + k, r)
      invariant cell == (position + k) % N && r < N && Distance(cell, r) == dist
      invariant forall j :: d + k <= j < dst.Length ==> dst[j] == old(dst[j])
    {
      WrittenFacts(dst, text, full, d + k, r);
      var c := text[(position + k) % N];
      RepeatIsPeriodic(full[..N + d], dist, last + 1, N + d + k);
      NextIsMasked(position + k);
      NextKeepsDistance(cell, r);
      cell := Next(cell);
      r := Put(dst, d + k, text, r, c, full);
      k := k + 1;
    }
  }

  /** Reads the next token, loading a flag byte first when none of the last one is left. This is
      the reading half of the decoder's loop body; None is each of its `break`s. */
  method ReadToken(src: seq<Byte>, s: nat, flags: nat, ghost bits: seq<bool>)
    returns (t: Option<Token>, s': nat, flags': nat, ghost bits': seq<bool>)
    requires s <= |src| && Register(flags / 2, bits)
    ensures t.None? ==> ParseFrom(src[s..], bits) == []
    ensures t.Some? ==> s < s' <= |src| && Encodable(t.value) && Register(flags' / 2, bits')
                        && ParseFrom(src[s..], bits) == [t.value] + ParseFrom(src[s'..], bits')
  {
    t, s', flags', bits' := None, s, flags / 2, bits;
    RegisterMarker(flags', bits');
    if flags' / 0x100 % 2 == 0 {
      if s' == |src| { return; }
      var c: nat := src[s'];
      s' := s' + 1;
      assert src[s..][1..] == src[s'..];
      flags', bits' := c + 0xFF00, LowBits(c, 8);
      RegisterLoad(c);
      RegisterMarker(flags', bits');
    }
    assert ParseFrom(src[s'..], bits') == ParseFrom(src[s..], bits);
    if s' == |src| { return; }
    assert src[s'..][1..] == src[s' + 1..];
    if flags' % 2 == 1 {
      t, s' := Some(Literal(src[s'])), s' + 1;
    } else {
      var i := src[s'];
      s' := s' + 1;
      if s' == |src| { return; }
      var j := src[s'];
      s' := s' + 1;
      assert src[s' - 2..][2..] == src[s'..];
      t := Some(Match(MatchPosition(i, j), MatchLast(j) + 1));
    }
    bits' := bits'[1..];
  }

  lemma InitialWindow(src: seq<Byte>, junk: seq<Byte>)
    requires |junk| == F
    ensures var h := Initial(junk); var full := Expand(h, ParseFrom(src[0..], []));
            && |full| == N + TotalLength(Parse(src)) && h <= full
            && Decode(src, junk) == full[N..]
            && forall j :: 0 <= j < N ==> full[j] == if j < F then junk[j] else 32
  {
    hide Repeat, Append, ParseFrom, Distance;
    assert src[0..] == src;
  }

  lemma Start(dst: array<Byte>, text: array<Byte>, full: seq<Byte>, junk: seq<Byte>)
    requires |junk| == F && text.Length == N + F - 1 && dst != text && N <= |full|
    requires forall c :: 0 <= c < N ==> text[c] == if c < N - F then 32 else junk[c - (N - F)]
    requires forall j :: 0 <= j < N ==> full[j] == if j < F then junk[j] else 32
    ensures Written(dst, text, full, 0, N - F)
  {
    RingIndexFormula(N);
    hide RingIndex, Distance;
    forall c | 0 <= c < N ensures text[c] == full[N - Distance(c, N - F)] {
      DistanceCases(c, N - F);
    }
  }

  lemma ExpandNone(h: seq<Byte>)
    requires N <= |h|
    ensures Expand(h, []) == h
  {
  }

  lemma ExpandOne(h: seq<Byte>, t: Token, ts: seq<Token>)
    requires N <= |h| && Encodable(t) && forall u <- ts :: Encodable(u)
    ensures Expand(h, [t] + ts) == Expand(Append(h, t), ts)
    ensures t.Literal? ==> Append(h, t) == h + [t.value]
    ensures t.Match? ==>
              Append(h, t) == Repeat(h, Distance(t.position, RingIndex(|h|)), t.length)
    ensures RingIndex(|h|) < N
  {
    assert ([t] + ts)[1..] == ts;
  }

  /** Decompresses src into dst, which the caller has made large enough, and returns the number
      of bytes written. `junk` is whatever the uninitialised ring cells happened to hold. */
  method Decompress(dst: array<Byte>, src: seq<Byte>) returns (count: nat, ghost junk: seq<Byte>)
    requires TotalLength(Parse(src)) <= dst.Length
    modifies dst
    ensures |junk| == F
    ensures count == TotalLength(Parse(src))
    ensures dst[..count] == Decode(src, junk)
    ensures dst[count..] == old(dst[count..])
  {
    hide Initial, Append, Expand, Parse, ParseFrom, Decode, Repeat, RingIndex, TotalLength, Marked;
    hide Written, Distance;
    var text := new Byte[N + F - 1];
    junk := text[N - F..N];
    for k := 0 to N - F
      invariant forall j :: 0 <= j < k ==> text[j] == 32
      invariant text[N - F..N] == junk
      modifies text
    {
      text[k] := 32;
    }
    var r: nat, flags: nat, d: nat, s: nat := N - F, 0, 0, 0;
    ghost var bits: seq<bool> := [];
    ghost var h := Initial(junk);
    ghost var full := Expand(h, ParseFrom(src[0..], []));
    InitialWindow(src, junk);
    Start(dst, text, full, junk);
    while true
      invariant s <= |src| && Register(flags / 2, bits)
      invariant |h| == N + d && h <= full && Written(dst, text, full, d, r)
      invariant Expand(h, ParseFrom(src[s..], bits)) == full
      invariant forall j :: d <= j < dst.Length ==> dst[j] == old(dst[j])
      decreases |src| - s
    {
      var t;
      t, s, flags, bits := ReadToken(src, s, flags, bits);
      if t.None? {
        ExpandNone(h);
        break;
      }
      ExpandOne(h, t.value, ParseFrom(src[s..], bits));
      WrittenFacts(dst, text, full, d, r);
      match t.value {
        case Literal(c) =>
          r := Put(dst, d, text, r, c, full);
          d := d + 1;
        case Match(position, length) =>
          assert full[..N + d] == h;
          r := CopyMatch(dst, d, text, r, position, length - 1, full);
          d := d + length;
      }
      h := Append(h, t.value);
    }
    WrittenFacts(dst, text, full, d, r);
    count := d;
  }

  // ---- Packing and parsing undo each other ------------------------------------------------------

  function FlagBits(ts: seq<Token>): (bits: seq<bool>)
    ensures |bits| == |ts|
  {
    if ts == [] then [] else [ts[0].Literal?] + FlagBits(ts[1..])
  }

  function TokenBytes(t: Token): seq<Byte>
    requires Encodable(t)
  {
    match t
    case Literal(c) => [c]
    case Match(p, n) => [p % 256, p / 256 * 16 + (n - THRESHOLD - 1)]
  }

  function Payload(ts: seq<Token>): seq<Byte>
    requires forall t <- ts :: Encodable(t)
  {
    if ts == [] then [] else TokenBytes(ts[0]) + Payload(ts[1..])
  }

  function BitsValue(bits: seq<bool>): nat {
    if bits == [] then 0 else Bit(bits[0]) + 2 * BitsValue(bits[1..])
  }

  function FlagByte(bits: seq<bool>): Byte
    requires |bits| <= 8
  {
    BitsValueRange(bits, 8);
    BitsValue(bits)
  }

  /** The packed form of a token list: a flag byte, then the tokens it announces, eight at a time. */
  function Pack(ts: seq<Token>): seq<Byte>
    requires forall t <- ts :: Encodable(t)
  {
    if ts == [] then
      []
    else
      var n := Min(8, |ts|);
      [FlagByte(FlagBits(ts[..n]))] + Payload(ts[..n]) + Pack(ts[n..])
  }

  lemma {:induction false} BitsValueRange(bits: seq<bool>, n: nat)
    requires |bits| <= n
    ensures BitsValue(bits) < Pow2(n)
  {
    if bits != [] {
      BitsValueRange(bits[1..], n - 1);
    }
  }

  lemma {:induction false} LowBitsOfValue(bits: seq<bool>, n: nat)
    requires |bits| <= n
    ensures LowBits(BitsValue(bits), n) == bits + seq(n - |bits|, _ => false)
  {
    if n != 0 {
      var tail := if bits == [] then [] else bits[1..];
      LowBitsOfValue(tail, n - 1);
    }
  }

  lemma ParseTokenBytes(t: Token, src: seq<Byte>, flags: seq<bool>)
    requires Encodable(t)
    ensures ParseFrom(TokenBytes(t) + src, [t.Literal?] + flags) == [t] + ParseFrom(src, flags)
  {
    var p, f := TokenBytes(t) + src, [t.Literal?] + flags;
    assert f[1..] == flags;
    if t.Literal? {
      assert p[1..] == src;
    } else {
      assert p[2..] == src;
      assert Match(MatchPosition(p[0], p[1]), MatchLast(p[1]) + 1) == t;
    }
  }

  lemma {:induction false} ParsePayload(ts: seq<Token>, src: seq<Byte>, flags: seq<bool>)
    requires forall t <- ts :: Encodable(t)
    ensures ParseFrom(Payload(ts) + src, FlagBits(ts) + flags) == ts + ParseFrom(src, flags)
  {
    hide ParseFrom, TokenBytes;
    if ts == [] {
      assert Payload(ts) + src == src && FlagBits(ts) + flags == flags;
    } else {
      var t, q, g := ts[0], Payload(ts[1..]) + src, FlagBits(ts[1..]) + flags;
      var rest := ParseFrom(src, flags);
      calc {
        ParseFrom(Payload(ts) + src, FlagBits(ts) + flags);
        { assert Payload(ts) + src == TokenBytes(t) + q;
          assert FlagBits(ts) + flags == [t.Literal?] + g; }
        ParseFrom(TokenBytes(t) + q, [t.Literal?] + g);
        { ParseTokenBytes(t, q, g); }
        [t] + ParseFrom(q, g);
        { ParsePayload(ts[1..], src, flags); }
        [t] + (ts[1..] + rest);
        { assert ts == [t] + ts[1..]; }
        ts + rest;
      }
    }
  }

  /** A group of at most eight tokens behind its flag byte. */
  lemma ParseGroup(group: seq<Token>, rest: seq<Byte>)
    requires 0 < |group| <= 8 && forall t <- group :: Encodable(t)
    ensures ParseFrom([FlagByte(FlagBits(group))] + Payload(group) + rest, [])
            == group + ParseFrom(rest, seq(8 - |group|, _ => false))
  {
    hide Payload, FlagBits, LowBits, BitsValue, Encodable;
    var bits, pad := FlagBits(group), seq(8 - |group|, _ => false);
    var src := [FlagByte(bits)] + Payload(group) + rest;
    LowBitsOfValue(bits, 8);
    assert src[1..] == Payload(group) + rest;
    ParsePayload(group, rest, pad);
  }

  /** Parsing undoes packing, for every list of encodable tokens. */
  lemma {:induction false} ParseUndoesPack(ts: seq<Token>)
    requires forall t <- ts :: Encodable(t)
    ensures Parse(Pack(ts)) == ts
  {
    hide Payload, FlagBits, FlagByte, LowBits, BitsValue, Encodable;
    if ts != [] {
      var n := Min(8, |ts|);
      ParseGroup(ts[..n], Pack(ts[n..]));
      if n == 8 {
        assert seq(8 - n, _ => false) == [];
        ParseUndoesPack(ts[n..]);
      }
      assert ts == ts[..n] + ts[n..];
    }
  }

  /** Decoding a packed token list yields exactly the list's expansion. */
  lemma DecodeUndoesPack(ts: seq<Token>, junk: seq<Byte>)
    requires |junk| == F && forall t <- ts :: Encodable(t)
    ensures Initial(junk) + Decode(Pack(ts), junk) == Expand(Initial(junk), ts)
  {
    ParseUndoesPack(ts);
  }

  // ---- Truncated input --------------------------------------------------------------------------

  lemma {:induction false} ParsePrefix(src: seq<Byte>, k: nat, flags: seq<bool>)
    requires k <= |src|
    ensures ParseFrom(src[..k], flags) <= ParseFrom(src, flags)
    decreases |src|
  {
    if k != 0 {
      assert src[..k][1..] == src[1..][..k - 1];
      if flags == [] {
        ParsePrefix(src[1..], k - 1, LowBits(src[0], 8));
      } else if flags[0] {
        ParsePrefix(src[1..], k - 1, flags[1..]);
      } else if k >= 2 {
        assert src[..k][2..] == src[2..][..k - 2];
        ParsePrefix(src[2..], k - 2, flags[1..]);
      }
    }
  }

  lemma {:induction false} ExpandPrefix(h: seq<Byte>, ts: seq<Token>, ts': seq<Token>)
    requires N <= |h| && ts <= ts' && forall t <- ts' :: Encodable(t)
    ensures Expand(h, ts) <= Expand(h, ts')
    decreases ts
  {
    if ts != [] {
      assert ts[0] == ts'[0];
      ExpandPrefix(Append(h, ts[0]), ts[1..], ts'[1..]);
    }
  }

  /** A truncated stream decodes to a prefix of the full output. */
  lemma DecodePrefix(src: seq<Byte>, k: nat, junk: seq<Byte>)
    requires k <= |src| && |junk| == F
    ensures Decode(src[..k], junk) <= Decode(src, junk)
  {
    ParsePrefix(src, k, []);
    ExpandPrefix(Initial(junk), Parse(src[..k]), Parse(src));
  }

  // ---- Size of the output -----------------------------------------------------------------------

  lemma {:induction false} SizeBoundFrom(src: seq<Byte>, flags: seq<bool>)
    ensures 17 * TotalLength(ParseFrom(src, flags)) <= 144 * |src| + 18 * |flags|
    decreases |src|
  {
    if src != [] {
      if flags == [] {
        SizeBoundFrom(src[1..], LowBits(src[0], 8));
      } else if flags[0] {
        SizeBoundFrom(src[1..], flags[1..]);
      } else if |src| > 1 {
        SizeBoundFrom(src[2..], flags[1..]);
      }
    }
  }

  /** 17 compressed bytes never become more than 144: the buffer a caller needs. */
  lemma SizeBound(src: seq<Byte>)
    ensures 17 * TotalLength(Parse(src)) <= 144 * |src|
  {
    SizeBoundFrom(src, []);
  }

  /** A match at the ring cell that byte i of the history was written to copies the history from byte i on. */
  lemma MatchCopiesFromItsCell(h: seq<Byte>, i: nat, length: nat)
    requires N <= |h| && |h| - N <= i < |h| && THRESHOLD < length <= F
    ensures Encodable(Match((i + 4078) % 4096, length))
    ensures Append(h, Match((i + 4078) % 4096, length)) == Repeat(h, |h| - i, length)
  {
    hide Repeat, RingIndex;
    RingIndexFormula(|h|);
    CellDistance(i + 4078, |h| + 4078);
  }

  lemma CellDistance(a: nat, b: nat)
    requires a < b <= a + N
    ensures Distance(a % N, b % N) == b - a
  {
    var p, q := a / N, b / N;
    assert a == p * N + a % N && b == q * N + b % N;
  }

  /** Matches in the part of the window that was initialised give spaces. */
  lemma FreshWindowIsSpaces(junk: seq<Byte>, position: nat, length: nat)
    requires |junk| == F && THRESHOLD < length <= F && position + length <= N - F
    ensures Encodable(Match(position, length))
    ensures Expand(Initial(junk), [Match(position, length)]) == Initial(junk) + seq(length, _ => ' ' as int)
  {
    hide Repeat, RingIndex;
    RingIndexFormula(N);
    var h, d := Initial(junk), N - F - position;
    ExpandOne(h, Match(position, length), []);
    ExpandNone(Append(h, Match(position, length)));
    forall j | N <= j < N + length
      ensures Repeat(h, d, length)[j] == 32
    {
      RepeatIsPeriodic(h, d, length, j);
    }
  }

  /** The two bytes of a match, with the masks and shifts of the decoder. */
  lemma MatchFields(i: bv32, j: bv32)
    requires i < 0x100 && j < 0x100
    ensures i | ((j & 0xF0) << 4) == i + (j / 16) * 256 && j & 0x0F == j % 16
  {
  }

  // ---- The ring cells nobody wrote --------------------------------------------------------------

  /** Whether some match, after a history of the given length, starts in the unwritten cells. */
  predicate ReachesJunk(length: nat, ts: seq<Token>)
    requires forall t <- ts :: Encodable(t)
    decreases ts
  {
    ts != [] &&
    assert Encodable(ts[0]);
    ((ts[0].Match? && length - Distance(ts[0].position, RingIndex(length)) < F)
     || ReachesJunk(length + Length(ts[0]), ts[1..]))
  }

  predicate AgreeFrom(k: nat, a: seq<Byte>, b: seq<Byte>) {
    |a| == |b| && forall j :: k <= j < |a| ==> a[j] == b[j]
  }

  lemma {:induction false} RepeatAgrees(a: seq<Byte>, b: seq<Byte>, d: nat, n: nat)
    requires 1 <= d && F + d <= |a| && AgreeFrom(F, a, b)
    ensures AgreeFrom(F, Repeat(a, d, n), Repeat(b, d, n))
    decreases n
  {
    if n != 0 {
      RepeatAgrees(a + [a[|a| - d]], b + [b[|b| - d]], d, n - 1);
    }
  }

  lemma {:induction false} ExpandAgrees(a: seq<Byte>, b: seq<Byte>, ts: seq<Token>)
    requires N <= |a| && AgreeFrom(F, a, b) && forall t <- ts :: Encodable(t)
    requires !ReachesJunk(|a|, ts)
    ensures AgreeFrom(F, Expand(a, ts), Expand(b, ts))
    decreases ts
  {
    if ts != [] {
      assert Encodable(ts[0]);
      if ts[0].Match? {
        RepeatAgrees(a, b, Distance(ts[0].position, RingIndex(|a|)), ts[0].length);
      }
      ExpandAgrees(Append(a, ts[0]), Append(b, ts[0]), ts[1..]);
    }
  }

  lemma {:induction false} ExpandDiffers(a: seq<Byte>, b: seq<Byte>, ts: seq<Token>)
    requires N <= |a| && AgreeFrom(F, a, b) && forall t <- ts :: Encodable(t)
    requires forall j :: 0 <= j < F ==> a[j] != b[j]
    requires ReachesJunk(|a|, ts)
    ensures exists j :: |a| <= j < |Expand(a, ts)| && Expand(a, ts)[j] != Expand(b, ts)[j]
    decreases ts
  {
    assert Encodable(ts[0]);
    var a', b' := Append(a, ts[0]), Append(b, ts[0]);
    if ts[0].Match? && |a| - Distance(ts[0].position, RingIndex(|a|)) < F {
      var d, n := Distance(ts[0].position, RingIndex(|a|)), ts[0].length;
      RepeatIsPeriodic(a, d, n, |a|);
      RepeatIsPeriodic(b, d, n, |b|);
      assert a'[|a|] != b'[|a|];
      assert Expand(a, ts)[|a|] == a'[|a|] && Expand(b, ts)[|a|] == b'[|a|];
    } else {
      if ts[0].Match? {
        RepeatAgrees(a, b, Distance(ts[0].position, RingIndex(|a|)), ts[0].length);
      }
      ExpandDiffers(a', b', ts[1..]);
      var j :| |a'| <= j < |Expand(a', ts[1..])| && Expand(a', ts[1..])[j] != Expand(b', ts[1..])[j];
      assert Expand(a, ts)[j] != Expand(b, ts)[j];
    }
  }

  /** The output depends on what the unwritten ring cells hold exactly if some match starts in
      them. */
  lemma OutputIndependentOfJunk(src: seq<Byte>)
    ensures !ReachesJunk(N, Parse(src))
            <==> forall u, v :: |u| == |v| == F ==> Decode(src, u) == Decode(src, v)
  {
    if ReachesJunk(N, Parse(src)) {
      var u: seq<Byte>, v: seq<Byte> := seq(F, _ => 0), seq(F, _ => 1);
      ExpandDiffers(Initial(u), Initial(v), Parse(src));
      assert Decode(src, u) != Decode(src, v);
    } else {
      forall u: seq<Byte>, v: seq<Byte> | |u| == |v| == F ensures Decode(src, u) == Decode(src, v) {
        ExpandAgrees(Initial(u), Initial(v), Parse(src));
      }
    }
  }

  lemma JunkTokens()
    ensures Parse([0x00, 0xEE, 0xF0]) == [Match(4078, 3)]
  {
    var src: seq<Byte> := [0x00, 0xEE, 0xF0];
    var flags := LowBits(0x00, 8);
    assert src[1..] == [0xEE, 0xF0] && !flags[0];
    assert src[1..][2..] == [];
    assert MatchPosition(0xEE, 0xF0) == 4078 && MatchLast(0xF0) == 2;
  }

  /** Such a match does occur: here the first token is a match at position 4078. */
  lemma JunkIsReached()
    ensures ReachesJunk(N, Parse([0x00, 0xEE, 0xF0]))
  {
    hide Parse, RingIndex;
    JunkTokens();
    RingIndexFormula(N);
  }
}
