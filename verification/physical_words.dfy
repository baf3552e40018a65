/** Splitting a physical transfer into the naturally aligned words that one kernel call can move. */
module PhysicalWords {
  import opened Common
  import opened TaskMemory

  predicate IsWordSize(n: nat) {
    n == 1 || n == 2 || n == 4 || n == 8
  }

  // ---- Bit positions ----

  /** The position of the most significant 1 bit of x, or -1 when there is none. */
  function TopBit(x: nat): (p: int)
    ensures p >= -1
    ensures x > 0 ==> p >= 0
  {
    if x == 0 then -1 else TopBit(x / 2) + 1
  }

  lemma {:induction false} TopBitBounds(x: nat)
    requires x > 0
    ensures Pow2(TopBit(x)) <= x < Pow2(TopBit(x) + 1)
  {
    if x > 1 { TopBitBounds(x / 2); }
  }

  method HibitPos(x: Word) returns (msb: int)
    ensures x == 0 ==> msb == -1
    ensures x > 0 ==> msb >= 0 && Pow2(msb) <= x < Pow2(msb + 1)
  {
    msb := -1;
    var y := x;
    while y > 0
      invariant 0 <= y
      invariant msb + 1 + TopBit(y) == TopBit(x)
      decreases y
    {
      y := y / 2;
      msb := msb + 1;
    }
    if x > 0 { TopBitBounds(x); }
  }

  /** lobit(x | 8) for a 64-bit x: the largest power of two, up to 8, that divides x. */
  lemma LobitIsAlignment(x: bv64)
    ensures var y := x | 8;
      y & (0 - y) == if x & 7 == 0 then 8 else if x & 3 == 0 then 4 else if x & 1 == 0 then 2 else 1
  {
  }

  /** lobit(x | 8), with the masks written as remainders. */
  function Alignment(x: Word): (a: nat)
    ensures IsWordSize(a) && x % a == 0 && (a < 8 ==> x % (2 * a) != 0)
  {
    if x % 8 == 0 then 8 else if x % 4 == 0 then 4 else if x % 2 == 0 then 2 else 1
  }

  function ResidueAlignment(r: nat): (a: nat)
    ensures IsWordSize(a)
  {
    if r == 0 then 8 else if r == 4 then 4 else if r % 2 == 0 then 2 else 1
  }

  // ---- Words ----

  /** A word the kernel can move in one call: naturally aligned and no wider than a nonzero access width. */
  predicate Fits(w: nat, paddr: Word, left: int, access: nat, truncate: bool) {
    && IsWordSize(w) && w <= left && paddr % w == 0
    && (access != 0 ==> w <= access)
    && (truncate ==> w <= 4)
  }

  ghost predicate IsWidest(w: nat, paddr: Word, left: int, access: nat, truncate: bool) {
    Fits(w, paddr, left, access, truncate) && forall v: nat :: Fits(v, paddr, left, access, truncate) ==> v <= w
  }

  /**
    A word is the widest that fits exactly if it has 1, 2, 4 or 8 bytes, is naturally aligned and within every limit,
    and twice its size is not.
  */
  lemma WidestMeans(w: nat, paddr: Word, left: int, access: nat, truncate: bool)
    ensures IsWidest(w, paddr, left, access, truncate)
       <==> && (w == 1 || w == 2 || w == 4 || w == 8)
            && paddr % w == 0 && w <= left && (access != 0 ==> w <= access) && (truncate ==> w <= 4)
            && (|| w == 8 || paddr % (2 * w) != 0 || 2 * w > left || (access != 0 && 2 * w > access)
                || (truncate && w == 4))
  {
    SmallModulus(paddr, 1);
    SmallModulus(paddr, 2);
    SmallModulus(paddr, 4);
    if Fits(w, paddr, left, access, truncate) {
      WiderFits(w, paddr, left, access, truncate);
    }
  }

  /** When a wider word fits, so does one of twice the size. */
  lemma WiderFits(w: nat, paddr: Word, left: int, access: nat, truncate: bool)
    requires Fits(w, paddr, left, access, truncate)
    ensures (exists v: nat :: v > w && Fits(v, paddr, left, access, truncate))
       <==> w < 8 && Fits(2 * w, paddr, left, access, truncate)
  {
    if v: nat :| v > w && Fits(v, paddr, left, access, truncate) {
      SmallModulus(paddr, v);
      SmallModulus(paddr, w);
      if w < 8 { SmallModulus(paddr, 2 * w); }
    }
  }

  /** Every word is the widest that fits when it is issued. */
  ghost predicate AllWidest(pieces: seq<Piece>, size: nat, access: nat, truncate: bool) {
    |pieces| > 0 ==>
      var before, last := pieces[..|pieces| - 1], pieces[|pieces| - 1];
      AllWidest(before, size, access, truncate)
      && IsWidest(last.size, last.address, size - Total(before), access, truncate)
  }

  lemma {:induction false} EveryWordIsWidest(pieces: seq<Piece>, size: nat, access: nat, truncate: bool)
    ensures AllWidest(pieces, size, access, truncate)
       <==> forall i :: 0 <= i < |pieces| ==>
              IsWidest(pieces[i].size, pieces[i].address, size - Total(pieces[..i]), access, truncate)
  {
    hide IsWidest, Total;
    if |pieces| > 0 {
      var before := pieces[..|pieces| - 1];
      EveryWordIsWidest(before, size, access, truncate);
      assert forall i :: 0 <= i < |before| ==> before[i] == pieces[i] && before[..i] == pieces[..i];
    }
  }

  /** The call for the next word fails. */
  ghost predicate IsRefused(kernel: Piece -> bool, paddr: Word, left: int, access: nat, truncate: bool) {
    exists w: nat :: IsWidest(w, paddr, left, access, truncate) && !kernel(Piece(paddr, w))
  }

  lemma OneMoreWord(pieces: seq<Piece>, size: nat, access: nat, truncate: bool, piece: Piece)
    requires AllWidest(pieces, size, access, truncate)
    requires IsWidest(piece.size, piece.address, size - Total(pieces), access, truncate)
    ensures AllWidest(pieces + [piece], size, access, truncate)
  {
    assert (pieces + [piece])[..|pieces|] == pieces;
  }

  /** The residue modulo 8 after moving w bytes. */
  function After(r: nat, w: nat): (s: nat)
    requires r < 8 && w <= 8
    ensures s < 8
  {
    if r + w < 8 then r + w else r + w - 8
  }

  /** How many words it takes to move `left` bytes from an address that is r past a multiple of 8. */
  function WordCount(r: nat, left: nat): (n: nat)
    requires r < 8
    ensures n <= left
    decreases left
  {
    if left == 0 then 0
    else
      var w := WidestWord(r, left);
      1 + WordCount(After(r, w), left - w)
  }

  /** The widest aligned word that starts r past a multiple of 8 and has no more than `left` bytes. */
  function WidestWord(r: nat, left: nat): (w: nat)
    requires r < 8 && left > 0
    ensures IsWordSize(w) && w <= left && r % w == 0
    ensures w < 8 ==> 2 * w > left || r % (2 * w) != 0
  {
    if r % 8 == 0 && left >= 8 then 8
    else if r % 4 == 0 && left >= 4 then 4
    else if r % 2 == 0 && left >= 2 then 2
    else 1
  }

  lemma FirstWord(r: nat, left: nat)
    requires r < 8 && left > 0
    ensures var w := WidestWord(r, left); WordCount(r, left) == 1 + WordCount(After(r, w), left - w)
  {
    hide WidestWord;
  }

  lemma {:induction false} AlignedWordCount(left: nat)
    ensures WordCount(0, left) <= left / 8 + 3
    ensures left % 8 == 0 ==> WordCount(0, left) == left / 8
  {
    hide WordCount;
    if left > 0 { FirstWord(0, left); }
    if left >= 8 {
      AlignedWordCount(left - 8);
    } else if left >= 4 {
      if left > 4 { FirstWord(4, left - 4); }
    }
  }

  /** The words before the first multiple of 8. */
  function LeadWords(r: nat): nat {
    if r == 0 then 0 else if r == 1 then 3 else if r == 2 || r == 3 || r == 5 then 2 else 1
  }

  lemma {:induction false} LeadingWordCount(r: nat, left: nat)
    requires 0 < r < 8 && left >= 8 - r
    ensures WordCount(r, left) == LeadWords(r) + WordCount(0, left - (8 - r))
    decreases 8 - r
  {
    hide WordCount;
    FirstWord(r, left);
    var w := WidestWord(r, left);
    if r + w < 8 { LeadingWordCount(r + w, left - w); }
  }

  lemma ShortWordCount(r: nat, left: nat)
    requires r < 8 && left < 8
    ensures WordCount(r, left) <= 5
  {
    hide WordCount;
    if left > 5 {
      FirstWord(r, left);
      var w := WidestWord(r, left);
      if w < 4 {
        var s := After(r, w);
        FirstWord(s, left - w);
        var v := WidestWord(s, left - w);
        if v == 2 && left - w - v > 0 { FirstWord(After(s, v), left - w - v); }
      }
    }
  }

  /** At most three words reach a multiple of 8 and at most three are left over, but not both when it matters. */
  lemma WordCountBound(r: nat, left: nat)
    requires r < 8
    ensures WordCount(r, left) <= left / 8 + 5
  {
    hide WordCount;
    if left < 8 {
      ShortWordCount(r, left);
    } else if r == 0 {
      AlignedWordCount(left);
    } else {
      LeadingWordCount(r, left);
      AlignedWordCount(left - (8 - r));
    }
  }

  // ---- The transfer ----

  lemma PowersBelowNine(p: nat, n: nat)
    requires Pow2(p) <= n < Pow2(p + 1) && n <= 8
    ensures IsWordSize(Pow2(p)) && Pow2(p) <= n < 2 * Pow2(p)
  {
    if p >= 4 { PowersGrow(p); }
  }

  lemma {:induction false} PowersGrow(p: nat)
    requires p >= 4
    ensures Pow2(p) >= 16
  {
    if p > 4 { PowersGrow(p - 1); } else { assert Pow2(2) == 4; }
  }

  lemma ModulusTwo(x: nat)
    ensures x % 2 == (x % 8) % 2
  {
  }

  lemma ModulusFour(x: nat)
    ensures x % 4 == (x % 8) % 4
  {
    var k, r := x / 8, x % 8;
    assert x == 4 * (2 * k + r / 4) + r % 4;
  }

  lemma SmallModulus(x: Word, w: nat)
    requires IsWordSize(w)
    ensures x % w == (x % 8) % w
  {
    if w == 2 {
      ModulusTwo(x);
    } else if w == 4 {
      ModulusFour(x);
    }
  }

  lemma ResidueFits(r: nat, left: nat, limit: nat, w: nat)
    requires r < 8 && left > 0 && IsWordSize(w) && w <= limit < 2 * w
    requires limit <= Min(left, ResidueAlignment(r))
    ensures r % w == 0
    ensures limit == Min(left, ResidueAlignment(r)) ==> w == WidestWord(r, left)
  {
  }

  /** A power of two that divides the alignment gives an aligned word, and the widest one if nothing narrows it. */
  lemma WordFits(paddr: Word, left: nat, limit: nat, w: nat)
    requires left > 0 && IsWordSize(w) && w <= limit < 2 * w
    requires limit <= Min(left, Alignment(paddr))
    ensures paddr % w == 0
    ensures limit == Min(left, Alignment(paddr)) ==> w == WidestWord(paddr % 8, left)
  {
    SmallModulus(paddr, 2);
    SmallModulus(paddr, 4);
    assert Alignment(paddr) == ResidueAlignment(paddr % 8);
    SmallModulus(paddr, w);
    ResidueFits(paddr % 8, left, limit, w);
  }

  lemma DivisorIsAligned(paddr: Word, v: nat)
    requires IsWordSize(v) && paddr % v == 0
    ensures v <= Alignment(paddr)
  {
    SmallModulus(paddr, 2);
    SmallModulus(paddr, 4);
    SmallModulus(paddr, v);
  }

  /** The size of the next word: the widest one, unless the access width or a narrow kernel call is in the way. */
  method ChooseWord(paddr: Word, left: nat, access: nat, truncate: bool) returns (wordSize: nat)
    requires left > 0
    ensures IsWidest(wordSize, paddr, left, access, truncate)
    ensures access == 0 && !truncate ==> wordSize == WidestWord(paddr % 8, left)
  {
    hide Alignment, WidestWord, Pow2;
    var align := Alignment(paddr);
    wordSize := Min(left, align);
    if access != 0 && access < wordSize { wordSize := access; }
    if wordSize == 8 && truncate { wordSize := 4; }
    ghost var limit := wordSize;
    var logSize := HibitPos(wordSize);
    wordSize := Pow2(logSize);
    PowersBelowNine(logSize, limit);
    WordFits(paddr, left, limit, wordSize);
    forall v: nat | Fits(v, paddr, left, access, truncate)
      ensures v <= wordSize
    {
      DivisorIsAligned(paddr, v);
    }
  }

  lemma WordStep(paddr: Word, w: nat)
    requires w <= 8
    ensures Wrap(paddr + w) % 8 == After(paddr % 8, w)
  {
  }

  /**
    Issues the words in order; `kernel` says which calls succeed. With no access width and 64-bit results, at
    most size / 8 + 5 words are issued.
  */
  method TransferPhysicalWords(kernel: Piece -> bool, wideReads: bool, start: Word, size: Word, access: nat,
                               isWrite: bool)
    returns (code: IoResult, moved: nat, pieces: seq<Piece>)
    ensures Tiles(pieces, start) && Total(pieces) == moved
    ensures AllWidest(pieces, size, access, !isWrite && !wideReads)
    ensures forall piece <- pieces :: kernel(piece)
    ensures if code.Success? then moved == size else code == Error && moved < size
    ensures !code.Success? ==>
      IsRefused(kernel, Wrap(start + moved), size - moved, access, !isWrite && !wideReads)
    ensures access == 0 && (isWrite || wideReads) ==> |pieces| <= size / 8 + 5
  {
    hide Wrap, Total, Tiles, WordCount, WidestWord, AllWidest, IsWidest;
    var paddr, left: nat := start, size;
    var truncate := !isWrite && !wideReads;
    code, pieces := Success, [];
    NoPieces(start);
    NoWords(size, access, truncate);
    while left > 0
      invariant Total(pieces) + left == size
      invariant paddr == Wrap(start + Total(pieces))
      invariant Tiles(pieces, start)
      invariant AllWidest(pieces, size, access, truncate)
      invariant forall piece <- pieces :: kernel(piece)
      invariant access == 0 && !truncate ==> |pieces| + WordCount(paddr % 8, left) == WordCount(start % 8, size)
    {
      FirstWord(paddr % 8, left);
      var wordSize := ChooseWord(paddr, left, access, truncate);
      var piece := Piece(paddr, wordSize);
      WidestIsNonempty(wordSize, paddr, left, access, truncate);
      if !kernel(piece) {
        code := Error;
        assert IsRefused(kernel, paddr, left, access, truncate);
        break;
      }
      OneMorePiece(pieces, start, piece);
      OneMoreWord(pieces, size, access, truncate, piece);
      WrapAdvance(start, Total(pieces), wordSize);
      WordStep(paddr, wordSize);
      pieces := pieces + [piece];
      paddr := Wrap(paddr + wordSize);
      left := left - wordSize;
    }
    moved := Wrap(paddr - start);
    WrapDistance(start, Total(pieces));
    WordCountBound(start % 8, size);
  }

  lemma NoWords(size: nat, access: nat, truncate: bool)
    ensures AllWidest([], size, access, truncate)
  {
  }

  lemma WidestIsNonempty(w: nat, paddr: Word, left: nat, access: nat, truncate: bool)
    requires IsWidest(w, paddr, left, access, truncate)
    ensures 0 < w <= 8 && w <= left
  {
  }
}
