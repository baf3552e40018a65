/** Searching memory for a value a chunk at a time, with a buffer that carries the end of a chunk over to the next. */
module Find {
  import opened Common
  import opened Pages
  import opened TaskMemory
  import opened PhysicalWords

  // ---- What is searched for ----

  /** A search for `value`, stored in `width` bytes at a multiple of `alignment`, below `end`. */
  datatype Query = Query(end: Word, value: Word, width: nat, alignment: nat, pageSize: nat)

  ghost predicate ValidQuery(q: Query) {
    && IsWordSize(q.width) && IsWordSize(q.alignment)
    && IsPageSize(q.pageSize) && q.pageSize >= 8 && q.pageSize % 8 == 0
  }

  /** The little-endian integer in the `width` bytes of memory from x. */
  function Value(memory: int -> Byte, x: int, width: nat): nat
    decreases width
  {
    if width == 0 then 0 else memory(x) + 256 * Value(memory, x + 1, width - 1)
  }

  /** A value to report: aligned, wholly below the end and wholly readable. */
  ghost predicate IsHit(q: Query, viable: int -> bool, memory: int -> Byte, x: nat)
    requires q.alignment > 0
  {
    && x % q.alignment == 0
    && x + q.width <= q.end
    && AllViable(viable, x, x + q.width)
    && Value(memory, x, q.width) == q.value
  }

  /** Byte j of a number, counted from the least significant one. */
  function ByteOf(v: nat, j: nat): Byte {
    v / Pow2(8 * j) % 256
  }

  lemma QuotientIs(v: nat, d: nat, q: nat, r: nat)
    requires d > 0 && v == q * d + r && r < d
    ensures v / d == q
  {
    var e := v / d;
    RemainderOfSum(q, r, d);
    Distribute(e, q, d);
    assert v == e * d + r;
    if e > q { ProductAtLeast(e - q, d); }
    if e < q {
      Distribute(q, e, d);
      ProductAtLeast(q - e, d);
    }
  }

  lemma DivideBy256(v: nat, p: nat)
    requires p > 0
    ensures v / (256 * p) == v / 256 / p
  {
    var q := v / 256;
    var t, u := q / p, q % p;
    assert q == t * p + u;
    Regroup(t, 256, p);
    assert t * (256 * p) == 256 * (t * p);
    QuotientIs(v, 256 * p, t, 256 * u + v % 256);
  }

  lemma Pow2Of8More(n: nat)
    ensures Pow2(n + 8) == 256 * Pow2(n)
  {
    var p := Pow2(n);
    assert Pow2(n + 2) == 2 * Pow2(n + 1) == 4 * p;
    assert Pow2(n + 4) == 2 * Pow2(n + 3) == 16 * p;
    assert Pow2(n + 6) == 2 * Pow2(n + 5) == 64 * p;
    assert Pow2(n + 8) == 2 * Pow2(n + 7) == 256 * p;
  }

  lemma NextByte(v: nat, j: nat)
    ensures ByteOf(v, j + 1) == ByteOf(v / 256, j) && ByteOf(v, 0) == v % 256
    ensures v / 256 < Pow2(8 * j) <==> v < Pow2(8 * (j + 1))
  {
    assert Pow2(0) == 1;
    Pow2Of8More(8 * j);
    DivideBy256(v, Pow2(8 * j));
  }

  lemma SplitByte(b: Byte, rest: nat, v: nat)
    ensures b + 256 * rest == v <==> b == v % 256 && rest == v / 256
  {
  }

  /** A number is stored in the bytes from x on exactly if each of them is the number's, the least significant first. */
  lemma {:induction false} ValueIsLittleEndian(memory: int -> Byte, x: int, width: nat, v: nat)
    ensures Value(memory, x, width) == v
       <==> v < Pow2(8 * width) && forall y :: x <= y < x + width ==> memory(y) == ByteOf(v, y - x)
    decreases width
  {
    hide ByteOf, Pow2;
    if width == 0 {
      NoBytes(v);
    } else {
      ValueIsLittleEndian(memory, x + 1, width - 1, v / 256);
      SplitByte(memory(x), Value(memory, x + 1, width - 1), v);
      NextByte(v, width - 1);
      NextByte(v, 0);
      forall y | x + 1 <= y < x + width
        ensures memory(y) == ByteOf(v / 256, y - (x + 1)) <==> memory(y) == ByteOf(v, y - x)
      {
        NextByte(v, y - (x + 1));
      }
    }
  }

  lemma NoBytes(v: nat)
    ensures v < Pow2(8 * 0) <==> v == 0
  {
  }

  /** A hit, byte by byte: the values searched for are little-endian. */
  lemma HitsAreLittleEndian(q: Query, viable: int -> bool, memory: int -> Byte, x: nat)
    requires q.alignment > 0
    ensures IsHit(q, viable, memory, x)
       <==> && x % q.alignment == 0 && x + q.width <= q.end && q.value < Pow2(8 * q.width)
            && forall y :: x <= y < x + q.width ==> viable(y) && memory(y) == q.value / Pow2(8 * (y - x)) % 256
  {
    hide Pow2, Value;
    ValueIsLittleEndian(memory, x, q.width, q.value);
  }

  /** The hits from lo up to hi, in ascending order. */
  ghost function HitsIn(q: Query, viable: int -> bool, memory: int -> Byte, lo: nat, hi: nat): seq<nat>
    requires q.alignment > 0
    decreases hi
  {
    if hi <= lo then []
    else HitsIn(q, viable, memory, lo, hi - 1) + (if IsHit(q, viable, memory, hi - 1) then [hi - 1] else [])
  }

  lemma {:induction false} HitsAreAscending(q: Query, viable: int -> bool, memory: int -> Byte, lo: nat, hi: nat)
    requires q.alignment > 0
    ensures var hits := HitsIn(q, viable, memory, lo, hi);
      && (forall x :: x in hits <==> lo <= x < hi && IsHit(q, viable, memory, x))
      && (forall i, j :: 0 <= i < j < |hits| ==> hits[i] < hits[j])
    decreases hi
  {
    hide IsHit;
    if hi > lo {
      HitsAreAscending(q, viable, memory, lo, hi - 1);
      var before := HitsIn(q, viable, memory, lo, hi - 1);
      assert forall i :: 0 <= i < |before| ==> before[i] in before;
    }
  }

  lemma {:induction false} NoMoreHits(q: Query, viable: int -> bool, memory: int -> Byte, lo: nat, mid: nat, hi: nat)
    requires q.alignment > 0 && mid <= hi
    requires forall x: nat :: mid <= x < hi ==> !IsHit(q, viable, memory, x)
    ensures HitsIn(q, viable, memory, lo, hi) == HitsIn(q, viable, memory, lo, mid)
    decreases hi
  {
    hide IsHit;
    if mid < hi { NoMoreHits(q, viable, memory, lo, mid, hi - 1); }
  }

  // ---- The reader ----

  datatype Reading = Reading(size: nat, next: Word)

  type Reader = (Word, nat) -> Reading

  /** A reader that moves the longest viable prefix of every request below `end`, and whose `next` is sound. */
  ghost predicate ReadsViable(viable: int -> bool, pageSize: nat, end: Word, reader: Reader)
    requires pageSize > 0
  {
    forall address: Word, n: nat :: 0 < n && address + n <= end ==>
      ReaderAnswers(viable, pageSize, address, n, reader(address, n).size, reader(address, n).next)
  }

  const CARRY := 8

  /** Fills the data part of the buffer with what was read; what lies behind that is not specified. */
  method ReadChunk(memory: int -> Byte, address: nat, size: nat, buffer: array<Byte>)
    requires CARRY + size <= buffer.Length
    modifies buffer
    ensures forall j :: 0 <= j < CARRY ==> buffer[j] == old(buffer[j])
    ensures forall j :: CARRY <= j < CARRY + size ==> buffer[j] == memory(address + j - CARRY)
  {
    forall j | CARRY <= j < CARRY + size {
      buffer[j] := memory(address + j - CARRY);
    }
  }

  /** The little-endian integer in the `width` bytes of the buffer from p. */
  function Unpack(buffer: seq<Byte>, p: nat, width: nat): nat
    requires p + width <= |buffer|
    decreases width
  {
    if width == 0 then 0 else buffer[p] + 256 * Unpack(buffer, p + 1, width - 1)
  }

  lemma {:induction false} UnpackIsValue(buffer: seq<Byte>, p: nat, width: nat, memory: int -> Byte, x: int)
    requires p + width <= |buffer|
    requires forall j :: p <= j < p + width ==> buffer[j] == memory(x + (j - p))
    ensures Unpack(buffer, p, width) == Value(memory, x, width)
    decreases width
  {
    if width > 0 { UnpackIsValue(buffer, p + 1, width - 1, memory, x + 1); }
  }

  // ---- Rounding up ----

  /** round2_up on 64-bit values. */
  function RoundUp(x: Word, alignment: nat): Word
    requires alignment > 0
  {
    var y := Wrap(x + alignment - 1);
    y - y % alignment
  }

  /** It is the least multiple that is not below x just when x is not within the last alignment of the address space. */
  lemma RoundUpIsExact(x: Word, alignment: nat)
    requires IsWordSize(alignment)
    ensures RoundUp(x, alignment) % alignment == 0
    ensures x <= RoundUp(x, alignment) < x + alignment <==> x <= TWO_64 - alignment
  {
    hide Wrap;
    var y := x + alignment - 1;
    if y < TWO_64 {
      WrapSmall(y);
    } else {
      WrapAddMultiple(y - TWO_64, 1);
      WrapSmall(y - TWO_64);
    }
    RoundDown(Wrap(y), alignment);
  }

  lemma RoundDown(y: nat, alignment: nat)
    requires IsWordSize(alignment)
    ensures (y - y % alignment) % alignment == 0 && 0 <= y - y % alignment <= y < y - y % alignment + alignment
  {
  }

  // ---- The search ----

  /** Where the search stands before a chunk: what is found so far, and the bytes carried over in the buffer. */
  ghost predicate Carried(q: Query, viable: int -> bool, memory: int -> Byte, buffer: seq<Byte>, address: nat, p: nat)
    requires q.alignment > 0
  {
    && |buffer| == CARRY + q.pageSize
    && CARRY < p + q.width && p <= CARRY && CARRY - p <= address
    && address % q.alignment == 0 && (address + p - CARRY) % q.alignment == 0
    && AllViable(viable, address + p - CARRY, address)
    && forall j :: p <= j < CARRY ==> buffer[j] == memory(address + (j - CARRY))
  }

  /** Scans the buffer: all values that end within the chunk are reported. */
  method ScanChunk(q: Query, ghost viable: int -> bool, memory: int -> Byte, buffer: array<Byte>, address: nat,
                   size: nat, from: nat, ghost start: nat, found: seq<nat>)
    returns (p: nat, hits: seq<nat>)
    requires ValidQuery(q) && size <= q.pageSize && address + size <= q.end
    requires buffer.Length == CARRY + q.pageSize
    requires Carried(q, viable, memory, buffer[..], address, from)
    requires AllViable(viable, address, address + size)
    requires forall j :: CARRY <= j < CARRY + size ==> buffer[j] == memory(address + (j - CARRY))
    requires start + CARRY <= address + from
    requires found == HitsIn(q, viable, memory, start, address + from - CARRY)
    ensures from <= p && CARRY + size < p + q.width
    ensures p <= CARRY + size + q.alignment
    ensures from + q.width <= CARRY + size ==> p + q.width <= CARRY + size + q.alignment
    ensures (address + p - CARRY) % q.alignment == 0
    ensures hits == HitsIn(q, viable, memory, start, address + p - CARRY)
  {
    hide HitsIn, Unpack, Carried, AllViable;
    p, hits := from, found;
    CarriedFacts(q, viable, memory, buffer[..], address, from);
    while p + q.width <= CARRY + size
      invariant from <= p && (p == from || p + q.width <= CARRY + size + q.alignment)
      invariant (address + p - CARRY) % q.alignment == 0
      invariant hits == HitsIn(q, viable, memory, start, address + p - CARRY)
      decreases CARRY + size - p
    {
      NextAddress(q, viable, memory, buffer[..], address, size, from, p, start);
      if Unpack(buffer[..], p, q.width) == q.value {
        hits := hits + [address + p - CARRY];
      }
      p := p + q.alignment;
    }
  }

  /** A word of the buffer is a hit just when it has the value, and no address up to the next aligned one is a hit. */
  lemma HitAt(q: Query, viable: int -> bool, memory: int -> Byte, buffer: seq<Byte>, address: nat, size: nat,
              from: nat, p: nat)
    requires ValidQuery(q) && size <= q.pageSize && address + size <= q.end
    requires Carried(q, viable, memory, buffer, address, from)
    requires AllViable(viable, address, address + size)
    requires forall j :: CARRY <= j < CARRY + size ==> buffer[j] == memory(address + (j - CARRY))
    requires from <= p && p + q.width <= CARRY + size && (address + p - CARRY) % q.alignment == 0
    ensures IsHit(q, viable, memory, address + p - CARRY) <==> Unpack(buffer, p, q.width) == q.value
    ensures forall x: nat :: address + p - CARRY < x < address + p - CARRY + q.alignment ==>
      !IsHit(q, viable, memory, x)
    ensures (address + p - CARRY + q.alignment) % q.alignment == 0
  {
    UnpackIsValue(buffer, p, q.width, memory, address + p - CARRY);
    forall x: nat | address + p - CARRY < x < address + p - CARRY + q.alignment
      ensures x % q.alignment != 0
    {
      BetweenMultiples(address + p - CARRY, x, q.alignment);
    }
    RemainderOfSum(1, 0, q.alignment);
    MultiplesAdd(address + p - CARRY, q.alignment, q.alignment);
  }

  /** Checking one word of the buffer settles all addresses up to the next aligned one. */
  lemma NextAddress(q: Query, viable: int -> bool, memory: int -> Byte, buffer: seq<Byte>, address: nat, size: nat,
                    from: nat, p: nat, start: nat)
    requires ValidQuery(q) && size <= q.pageSize && address + size <= q.end
    requires Carried(q, viable, memory, buffer, address, from)
    requires AllViable(viable, address, address + size)
    requires forall j :: CARRY <= j < CARRY + size ==> buffer[j] == memory(address + (j - CARRY))
    requires from <= p && p + q.width <= CARRY + size && (address + p - CARRY) % q.alignment == 0
    requires start + CARRY <= address + from
    ensures q.alignment > 0 && p + q.width <= |buffer|
    ensures var x := address + p - CARRY;
      && (x + q.alignment) % q.alignment == 0
      && HitsIn(q, viable, memory, start, x + q.alignment)
         == HitsIn(q, viable, memory, start, x) + if Unpack(buffer, p, q.width) == q.value then [x] else []
  {
    hide IsHit, Unpack, AllViable;
    var x := address + p - CARRY;
    HitAt(q, viable, memory, buffer, address, size, from, p);
    NoMoreHits(q, viable, memory, start, x + 1, x + q.alignment);
  }

  lemma CarriedFacts(q: Query, viable: int -> bool, memory: int -> Byte, buffer: seq<Byte>, address: nat, p: nat)
    requires q.alignment > 0 && Carried(q, viable, memory, buffer, address, p)
    ensures CARRY < p + q.width && p <= CARRY && CARRY - p <= address
    ensures (address + p - CARRY) % q.alignment == 0 && address % q.alignment == 0
  {
  }

  lemma BetweenMultiples(a: nat, x: nat, alignment: nat)
    requires alignment > 0 && a % alignment == 0 && a < x < a + alignment
    ensures x % alignment != 0
  {
    if x % alignment == 0 { PagesApart(a, x, alignment); }
  }

  // ---- From one chunk to the next ----

  lemma ProductOfEights(a: nat, b: nat)
    ensures (a * (b * 8)) % 8 == 0
  {
    Regroup(a, b, 8);
    RemainderOfSum(a * b, 0, 8);
  }

  lemma PageIsAligned(q: Query, x: nat)
    requires ValidQuery(q) && x % q.pageSize == 0
    ensures x % q.alignment == 0
  {
    hide IsPageSize;
    assert x % 8 == 0 by {
      ExactQuotient(x, q.pageSize);
      ExactQuotient(q.pageSize, 8);
      ProductOfEights(x / q.pageSize, q.pageSize / 8);
    }
    EightsAreAligned(x, q.alignment);
  }

  lemma EightsAreAligned(x: nat, alignment: nat)
    requires IsWordSize(alignment) && x % 8 == 0
    ensures x % alignment == 0
  {
    if alignment == 2 || alignment == 4 {
      var k := x / 8;
      assert x == 2 * (4 * k) == 4 * (2 * k);
    }
  }

  /** Two multiples that are less than the alignment apart are the same. */
  lemma SameMultiple(a: nat, b: nat, alignment: nat)
    requires alignment > 0 && a % alignment == 0 && b % alignment == 0
    requires a < b + alignment && b < a + alignment
    ensures a == b
  {
    if a < b { PagesApart(a, b, alignment); }
    if b < a { PagesApart(b, a, alignment); }
  }

  /** With no hit from x on, everything is found. */
  lemma NothingLeft(q: Query, viable: int -> bool, memory: int -> Byte, start: nat, x: nat)
    requires q.alignment > 0 && q.width > 0
    requires forall y: nat :: x <= y < q.end ==> !IsHit(q, viable, memory, y)
    ensures HitsIn(q, viable, memory, start, x) == HitsIn(q, viable, memory, start, q.end)
  {
    if x <= q.end {
      NoMoreHits(q, viable, memory, start, x, q.end);
    } else {
      NoMoreHits(q, viable, memory, start, q.end, x);
    }
  }

  /**
    After a read that stopped at the byte e: the values not yet looked at that start at or below e run into it, and
    nothing before `next` is readable.
  */
  lemma AfterGap(q: Query, viable: int -> bool, memory: int -> Byte, start: nat, x: nat, e: nat, next: Word)
    requires ValidQuery(q) && x % q.alignment == 0
    requires e < x + q.width && x <= e + q.alignment
    requires !viable(e) && Resumes(viable, e, next, q.pageSize)
    ensures next == 0 || next >= q.end ==>
      HitsIn(q, viable, memory, start, x) == HitsIn(q, viable, memory, start, q.end)
    ensures 0 < next < q.end ==>
      next % q.alignment == 0 && HitsIn(q, viable, memory, start, x) == HitsIn(q, viable, memory, start, next)
  {
    hide Value;
    forall y: nat | x <= y < (if next == 0 then TWO_64 else next)
      ensures !IsHit(q, viable, memory, y)
    {
      assert if y <= e then !viable(e) else !viable(y);
    }
    if next == 0 || next >= q.end {
      NothingLeft(q, viable, memory, start, x);
    } else {
      PageIsAligned(q, next);
      if next < x { PagesApart(next, x, q.alignment); }
      NoMoreHits(q, viable, memory, start, x, next);
    }
  }

  /** After a full chunk that ends at e: the first address not looked at starts the last word that could straddle e. */
  lemma AfterChunk(q: Query, viable: int -> bool, memory: int -> Byte, start: nat, x: nat, e: nat)
    requires ValidQuery(q) && x % q.alignment == 0 && e % q.alignment == 0
    requires e < x + q.width && x + q.width <= e + q.alignment
    ensures q.alignment < q.width ==> x == e - q.width + q.alignment
    ensures q.width <= q.alignment ==> x == e
  {
    if q.alignment < q.width {
      assert q.width % q.alignment == 0;
      MultiplesAdd(x, q.width, q.alignment);
      MultiplesAdd(e, q.alignment, q.alignment);
      SameMultiple(x + q.width, e + q.alignment, q.alignment);
    } else {
      SameMultiple(x, e, q.alignment);
    }
  }

  /** How a chunk that ends at e = address + size leaves the search, when x is the first address not looked at. */
  lemma AfterRead(q: Query, viable: int -> bool, memory: int -> Byte, start: nat, address: nat, n: nat, size: nat,
                  next: Word, x: nat)
    requires ValidQuery(q) && address < q.end && n == Min(q.end - address, q.pageSize)
    requires ReaderAnswers(viable, q.pageSize, address, n, size, next)
    requires address % q.alignment == 0 && x % q.alignment == 0
    requires address + size < x + q.width && x <= address + size + q.alignment
    requires size == q.pageSize ==> x + q.width <= address + size + q.alignment
    ensures next == 0 || next >= q.end ==>
      HitsIn(q, viable, memory, start, x) == HitsIn(q, viable, memory, start, q.end)
    ensures 0 < next < q.end ==>
      && address < next && next % q.alignment == 0
      && if size < q.pageSize then HitsIn(q, viable, memory, start, x) == HitsIn(q, viable, memory, start, next)
         else next == address + size && x == if q.alignment < q.width then next - q.width + q.alignment else next
  {
    hide Value, AllViable, Resumes, Wrap, IsPageSize;
    var e := address + size;
    if size < n {
      AfterGap(q, viable, memory, start, x, e, next);
      ResumesFurther(viable, e, next, q.pageSize);
    } else {
      WrapSmall(e);
      if e == q.end {
        NothingLeft(q, viable, memory, start, x);
      } else {
        RemainderOfSum(1, 0, q.pageSize);
        PageIsAligned(q, q.pageSize);
        MultiplesAdd(address, q.pageSize, q.alignment);
        AfterChunk(q, viable, memory, start, x, e);
      }
    }
  }

  lemma ResumesFurther(viable: int -> bool, from: int, next: Word, pageSize: nat)
    requires pageSize > 0 && Resumes(viable, from, next, pageSize)
    ensures next == 0 || from < next
  {
  }

  lemma NothingCarried(q: Query, viable: int -> bool, memory: int -> Byte, buffer: seq<Byte>, address: nat)
    requires ValidQuery(q) && |buffer| == CARRY + q.pageSize && address % q.alignment == 0
    ensures Carried(q, viable, memory, buffer, address, CARRY)
  {
  }

  lemma CarriedKept(q: Query, viable: int -> bool, memory: int -> Byte, before: seq<Byte>, now: seq<Byte>,
                    address: nat, p: nat)
    requires q.alignment > 0 && Carried(q, viable, memory, before, address, p)
    requires |now| == |before| && forall j :: 0 <= j < CARRY ==> now[j] == before[j]
    ensures Carried(q, viable, memory, now, address, p)
  {
  }

  /** The last bytes of a full chunk, moved in front of the data, are what the next chunk needs. */
  lemma CarriedOver(q: Query, viable: int -> bool, memory: int -> Byte, before: seq<Byte>, now: seq<Byte>, address: nat)
    requires ValidQuery(q) && q.alignment < q.width && address % q.alignment == 0
    requires |before| == CARRY + q.pageSize && |now| == |before|
    requires AllViable(viable, address, address + q.pageSize)
    requires forall j :: CARRY <= j < CARRY + q.pageSize ==> before[j] == memory(address + (j - CARRY))
    requires forall j :: 0 <= j < CARRY ==> now[j] == before[q.pageSize + j]
    ensures Carried(q, viable, memory, now, address + q.pageSize, CARRY - q.width + q.alignment)
  {
    hide IsPageSize;
    RemainderOfSum(1, 0, q.pageSize);
    PageIsAligned(q, q.pageSize);
    MultiplesAdd(address, q.pageSize, q.alignment);
    assert q.width % q.alignment == 0;
    MultiplesAdd(address + q.pageSize, q.alignment - q.width, q.alignment);
  }

  /** Moves the last bytes of a full chunk in front of the data. */
  method CarryOver(q: Query, ghost viable: int -> bool, memory: int -> Byte, buffer: array<Byte>, address: nat)
    returns (p: nat)
    requires ValidQuery(q) && q.alignment < q.width && address % q.alignment == 0
    requires buffer.Length == CARRY + q.pageSize
    requires AllViable(viable, address, address + q.pageSize)
    requires forall j :: CARRY <= j < CARRY + q.pageSize ==> buffer[j] == memory(address + (j - CARRY))
    modifies buffer
    ensures p == CARRY - q.width + q.alignment
    ensures Carried(q, viable, memory, buffer[..], address + q.pageSize, p)
  {
    hide Carried, IsPageSize, AllViable;
    p := CARRY - q.width + q.alignment;
    ghost var chunk := buffer[..];
    forall j | 0 <= j < CARRY {
      buffer[j] := buffer[q.pageSize + j];
    }
    CarriedOver(q, viable, memory, chunk, buffer[..], address);
  }

  lemma {:induction false} NoHitsInFront(q: Query, viable: int -> bool, memory: int -> Byte, lo: nat, mid: nat, hi: nat)
    requires q.alignment > 0 && lo <= mid
    requires forall x: nat :: lo <= x < mid ==> !IsHit(q, viable, memory, x)
    ensures HitsIn(q, viable, memory, lo, hi) == HitsIn(q, viable, memory, mid, hi)
    decreases hi
  {
    hide IsHit;
    if hi > lo { NoHitsInFront(q, viable, memory, lo, mid, hi - 1); }
  }

  /** Rounding the start up passes no hit, unless it wraps around to 0. */
  lemma StartIsRounded(q: Query, viable: int -> bool, memory: int -> Byte, start: Word)
    requires ValidQuery(q)
    ensures var address := RoundUp(start, q.alignment);
      && address % q.alignment == 0
      && (start <= TWO_64 - q.alignment ==>
            HitsIn(q, viable, memory, start, q.end) == HitsIn(q, viable, memory, address, q.end))
  {
    hide Value, AllViable, RoundUp, Wrap;
    RoundUpIsExact(start, q.alignment);
    if start <= TWO_64 - q.alignment {
      var address := RoundUp(start, q.alignment);
      forall x: nat | start <= x < address
        ensures !IsHit(q, viable, memory, x)
      {
        if x % q.alignment == 0 { PagesApart(x, address, q.alignment); }
      }
      NoHitsInFront(q, viable, memory, start, address, q.end);
    }
  }

  /** The check before the loop lets through only a start below the end. */
  ghost predicate StartsBelowEnd(q: Query, address: Word) {
    Wrap(address + q.width - 1) < q.end ==> address < q.end
  }

  /** It does, unless the start is not below the end and the last byte of a value there wraps around to below it. */
  lemma CheckIsExact(q: Query, address: Word)
    requires ValidQuery(q)
    ensures StartsBelowEnd(q, address)
       <==> !(address + q.width - 1 >= TWO_64 && address + q.width - 1 - TWO_64 < q.end <= address)
  {
    hide IsPageSize, IsWordSize;
    QueryFacts(q);
    if address + q.width - 1 < TWO_64 {
      WrapSmall(address + q.width - 1);
    } else {
      WrapAddMultiple(address + q.width - 1 - TWO_64, 1);
      WrapSmall(address + q.width - 1 - TWO_64);
    }
  }

  /** What the check lets through starts below the end, and what it turns away has no hits. */
  lemma BeforeTheLoop(q: Query, viable: int -> bool, memory: int -> Byte, address: Word)
    requires ValidQuery(q) && StartsBelowEnd(q, address)
    ensures HitsIn(q, viable, memory, address, address) == []
    ensures if Wrap(address + q.width - 1) < q.end then address < q.end
            else HitsIn(q, viable, memory, address, q.end) == []
  {
    hide Value, AllViable;
    if address + q.width <= TWO_64 { WrapSmall(address + q.width - 1); }
    if address + q.width > q.end { NothingLeft(q, viable, memory, address, address); }
  }

  lemma ReadsAt(viable: int -> bool, pageSize: nat, end: Word, reader: Reader, address: Word, n: nat)
    requires pageSize > 0 && ReadsViable(viable, pageSize, end, reader) && 0 < n && address + n <= end
    ensures var reading := reader(address, n);
      && ReaderAnswers(viable, pageSize, address, n, reading.size, reading.next)
      && reading.size <= n && AllViable(viable, address, address + reading.size)
  {
  }

  /**
    Reports every aligned address from the rounded start on, with `width` readable bytes below `end` that hold the
    value, in ascending order and once each, including values that straddle two chunks. Unless rounding wraps around
    to 0, those are the ones from the start on.
  */
  method Find(q: Query, ghost viable: int -> bool, memory: int -> Byte, reader: Reader, start: Word)
    returns (hits: seq<nat>)
    requires ValidQuery(q)
    requires StartsBelowEnd(q, RoundUp(start, q.alignment))
    requires ReadsViable(viable, q.pageSize, q.end, reader)
    ensures hits == HitsIn(q, viable, memory, RoundUp(start, q.alignment), q.end)
    ensures start <= TWO_64 - q.alignment ==> hits == HitsIn(q, viable, memory, start, q.end)
    ensures var from := if start <= TWO_64 - q.alignment then start else RoundUp(start, q.alignment);
      forall x :: x in hits <==> from <= x < q.end && IsHit(q, viable, memory, x)
    ensures forall i, j :: 0 <= i < j < |hits| ==> hits[i] < hits[j]
  {
    hide HitsIn, IsHit, Carried, AllViable, Resumes, ReaderAnswers, ReadsViable, RoundUp, Wrap, IsPageSize, IsWordSize;
    QueryFacts(q);
    hits := [];
    ghost var first := RoundUp(start, q.alignment);
    var address: nat := RoundUp(start, q.alignment);
    StartIsRounded(q, viable, memory, start);
    BeforeTheLoop(q, viable, memory, address);
    HitsAreAscending(q, viable, memory, start, q.end);
    HitsAreAscending(q, viable, memory, first, q.end);
    if Wrap(address + q.width - 1) >= q.end {
      return;
    }
    var buffer := new Byte[CARRY + q.pageSize];
    var p: nat := CARRY;
    NothingCarried(q, viable, memory, buffer[..], address);
    while true
      invariant address < q.end && first + CARRY <= address + p
      invariant Carried(q, viable, memory, buffer[..], address, p)
      invariant hits == HitsIn(q, viable, memory, first, address + p - CARRY)
      decreases q.end - address
    {
      var n := Min(q.end - address, q.pageSize);
      var reading := reader(address, n);
      var size, next := reading.size, reading.next;
      ReadsAt(viable, q.pageSize, q.end, reader, address, n);
      CarriedFacts(q, viable, memory, buffer[..], address, p);
      ghost var carried := buffer[..];
      ReadChunk(memory, address, size, buffer);
      CarriedKept(q, viable, memory, carried, buffer[..], address, p);
      ghost var x := address + p - CARRY;
      if size > 0 {
        p, hits := ScanChunk(q, viable, memory, buffer, address, size, p, first, hits);
        x := address + p - CARRY;
        if q.alignment < q.width && size == q.pageSize {
          p := CarryOver(q, viable, memory, buffer, address);
        } else {
          p := CARRY;
        }
      } else {
        p := CARRY;
      }
      AfterRead(q, viable, memory, first, address, n, size, next, x);
      if next == 0 || next >= q.end {
        break;
      }
      if q.width <= q.alignment || size < q.pageSize { NothingCarried(q, viable, memory, buffer[..], next); }
      address := next;
    }
  }

  lemma QueryFacts(q: Query)
    requires ValidQuery(q)
    ensures 1 <= q.width <= 8 && 1 <= q.alignment <= 8 && q.pageSize >= 8
  {
  }
}
