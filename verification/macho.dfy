/**
 The symbol list of a Mach-O image and the linear searches over it.

 An image is what the loader reads out of it: the segments with their sections, and the entries
 of the symbol list when there is one. Structure accessors and the 32/64-bit split are left out.
 */
module MachO {
  import opened Common

  const N_STAB: bv8 := 0xe0
  const N_TYPE: bv8 := 0x0e
  const N_SECT: bv8 := 0x0e
  const NO_SECT := 0

  /** A symbol list entry. The name is None when the string index is out of range. */
  datatype Nlist = Nlist(name: Option<Name>, kind: bv8, sect: nat, value: Word) {
    predicate IsSection() {
      kind & N_TYPE == N_SECT
    }

    predicate IsStab() {
      kind & N_STAB != 0
    }

    predicate IsCollected() {
      !IsStab() && IsSection() && name.Some?
    }

    predicate IsSectionAtOrBelow(addr: Word) {
      IsSection() && value <= addr
    }
  }

  /** Section symbols have type 7 in bits 1 to 3. Those that are visited have no debugging bits either; only the
      two bits for external symbols (0x01 and 0x10) may differ. */
  lemma VisitedKinds(e: Nlist)
    ensures e.IsSection() <==> e.kind as int / 2 % 8 == 7
    ensures e.IsCollected()
            <==> e.name.Some? && (e.kind == 0x0e || e.kind == 0x0f || e.kind == 0x1e || e.kind == 0x1f)
  {
    assert e.kind & 0x0e == 0x0e <==> (e.kind >> 1) & 7 == 7;
  }

  datatype Section = Section(addr: Word, size: Word) {
    function End(): Word {
      Wrap(addr + size)
    }

    predicate Contains(a: Word) {
      addr <= a < End()
    }
  }

  datatype Segment = Segment(vmaddr: Word, vmsize: Word, sections: seq<Section>) {
    function End(): Word {
      Wrap(vmaddr + vmsize)
    }

    predicate Contains(a: Word) {
      vmaddr <= a < End()
    }
  }

  /** A segment contains the addresses it extends over, and none at all if it extends past the address space. */
  lemma SegmentContains(s: Segment, a: Word)
    ensures s.Contains(a) <==> s.vmaddr <= a < s.vmaddr + s.vmsize && s.vmaddr + s.vmsize < TWO_64
    ensures s.Contains(a) ==> s.End() == s.vmaddr + s.vmsize
  {
    WrapsOnce(s.vmaddr + s.vmsize);
  }

  lemma SectionContains(s: Section, a: Word)
    ensures s.Contains(a) <==> s.addr <= a < s.addr + s.size && s.addr + s.size < TWO_64
    ensures s.Contains(a) ==> s.End() == s.addr + s.size
  {
    WrapsOnce(s.addr + s.size);
  }

  lemma WrapsOnce(x: nat)
    requires x < 2 * TWO_64
    ensures Wrap(x) == if x < TWO_64 then x else x - TWO_64
  {
  }

  datatype Image = Image(segments: seq<Segment>, symtab: Option<seq<Nlist>>)

  datatype Binding = Binding(name: Name, address: Word)

  /** The symbols macho_for_each_symbol visits, in order. */
  function Collected(nl: seq<Nlist>): (bs: seq<Binding>)
    ensures |bs| <= |nl|
    ensures forall b <- bs :: exists e <- nl :: e.IsCollected() && b == Binding(e.name.value, e.value)
    ensures forall e <- nl :: e.IsCollected() ==> Binding(e.name.value, e.value) in bs
  {
    if nl == [] then
      []
    else
      var e := nl[|nl| - 1];
      Collected(nl[..|nl| - 1])
      + (if e.IsCollected() then [Binding(e.name.value, e.value)] else [])
  }

  lemma CollectedNone(nl: seq<Nlist>)
    ensures Collected(nl[..0]) == []
  {
  }

  lemma CollectedStep(nl: seq<Nlist>, i: nat)
    requires i < |nl|
    ensures Collected(nl[..i + 1]) == Collected(nl[..i])
                                      + (if nl[i].IsCollected()
                                         then [Binding(nl[i].name.value, nl[i].value)] else [])
  {
    assert nl[..i + 1][..i] == nl[..i];
  }

  lemma {:induction false} CollectedGrows(nl: seq<Nlist>, i: nat)
    requires i <= |nl|
    ensures Collected(nl[..i]) <= Collected(nl)
    decreases |nl| - i
  {
    if i < |nl| {
      CollectedStep(nl, i);
      CollectedGrows(nl, i + 1);
    } else {
      assert nl[..i] == nl;
    }
  }

  // ---- Linear searches --------------------------------------------------------------------------

  /** i is the first segment that contains the address, or the number of segments. */
  predicate IsFirstSegment(segments: seq<Segment>, addr: Word, i: nat) {
    && i <= |segments|
    && (forall j :: 0 <= j < i ==> !segments[j].Contains(addr))
    && (i < |segments| ==> segments[i].Contains(addr))
  }

  method SegmentContainingAddress(segments: seq<Segment>, addr: Word) returns (i: nat)
    ensures IsFirstSegment(segments, addr, i)
  {
    i := 0;
    while i < |segments| && !segments[i].Contains(addr)
      invariant i <= |segments| && forall j :: 0 <= j < i ==> !segments[j].Contains(addr)
    {
      i := i + 1;
    }
  }

  predicate IsFirstSection(sections: seq<Section>, addr: Word, i: nat) {
    && i <= |sections|
    && (forall j :: 0 <= j < i ==> !sections[j].Contains(addr))
    && (i < |sections| ==> sections[i].Contains(addr))
  }

  lemma SectionEndsAfter(sections: seq<Section>, addr: Word, i: nat)
    requires i < |sections| && IsFirstSection(sections, addr, i)
    ensures addr <= sections[i].End()
  {
  }

  method SectionContainingAddress(sections: seq<Section>, addr: Word) returns (i: nat)
    ensures IsFirstSection(sections, addr, i)
  {
    i := 0;
    while i < |sections| && !sections[i].Contains(addr)
      invariant i <= |sections| && forall j :: 0 <= j < i ==> !sections[j].Contains(addr)
    {
      i := i + 1;
    }
  }

  const NO_NEXT: Word := TWO_64 - 1

  /** The least value in the list above addr; the largest address stands for "none". */
  ghost predicate IsNext(nl: seq<Nlist>, addr: Word, next: Word) {
    && (next == NO_NEXT || exists e <- nl :: e.value == next && addr < next)
    && (forall e <- nl :: addr < e.value ==> next <= e.value)
  }

  method NextSymbol(nl: seq<Nlist>, addr: Word) returns (next: Word)
    ensures IsNext(nl, addr, next)
  {
    next := NO_NEXT;
    for i := 0 to |nl|
      invariant next == NO_NEXT || exists e <- nl[..i] :: e.value == next && addr < next
      invariant forall e <- nl[..i] :: addr < e.value ==> next <= e.value
    {
      if nl[i].value > addr && nl[i].value < next {
        next := nl[i].value;
        assert nl[i] in nl[..i + 1];
      }
      assert nl[..i + 1] == nl[..i] + [nl[i]];
    }
    assert nl[..|nl|] == nl;
  }

  /** The distances from the symbol to the next symbol, to the end of its segment and to the end
      of its section, as far as there are such. */
  ghost function Limits(m: Image, addr: Word, next: Word): set<int> {
    (if next == NO_NEXT then {} else {Wrap(next - addr)})
    + (set i: nat | i < |m.segments| && IsFirstSegment(m.segments, addr, i)
         :: m.segments[i].End() - addr)
    + (set i: nat, k: nat | i < |m.segments| && IsFirstSegment(m.segments, addr, i)
                            && k < |m.segments[i].sections|
                            && IsFirstSection(m.segments[i].sections, addr, k)
         :: m.segments[i].sections[k].End() - addr)
  }

  lemma LimitsAre(m: Image, addr: Word, next: Word, i: nat, k: nat)
    requires IsFirstSegment(m.segments, addr, i)
    requires i < |m.segments| ==> IsFirstSection(m.segments[i].sections, addr, k)
    ensures Limits(m, addr, next)
            == (if next == NO_NEXT then {} else {Wrap(next - addr)})
               + (if i == |m.segments| then {} else {m.segments[i].End() - addr})
               + (if i == |m.segments| || k == |m.segments[i].sections| then {}
                  else {m.segments[i].sections[k].End() - addr})
  {
    hide Wrap, Segment.End, Section.End;
    assert forall j: nat :: IsFirstSegment(m.segments, addr, j) ==> j == i;
    if i < |m.segments| {
      var sections := m.segments[i].sections;
      assert forall j: nat :: IsFirstSection(sections, addr, j) ==> j == k;
    }
  }

  /** What guess_symbol_size answers: the least limit, or 0 when nothing limits the symbol. */
  ghost predicate IsGuess(m: Image, addr: Word, next: Word, size: Word) {
    var limits := Limits(m, addr, next);
    if forall l <- limits :: l == TWO_64 - 1 then
      size == 0
    else
      size in limits && forall l <- limits :: size <= l
  }

  method GuessSymbolSize(m: Image, addr: Word, next: Word) returns (size: Word)
    ensures IsGuess(m, addr, next, size)
  {
    hide Limits, IsFirstSection, Section.Contains, Wrap;
    WrapMinusOne();
    size := Wrap(-1);
    if next != NO_NEXT {
      size := Wrap(next - addr);
    }
    var i := SegmentContainingAddress(m.segments, addr);
    if i == |m.segments| {
      LimitsAre(m, addr, next, i, 0);
    } else {
      var segment := m.segments[i];
      var k := SectionContainingAddress(segment.sections, addr);
      LimitsAre(m, addr, next, i, k);
      if k < |segment.sections| {
        SectionEndsAfter(segment.sections, addr, k);
        var section := segment.sections[k];
        var limited := Wrap(section.addr + section.size - addr);
        WrapDifference(section.addr + section.size, addr);
        if limited < size {
          size := limited;
        }
      }
      var limited := Wrap(segment.vmaddr + segment.vmsize - addr);
      WrapDifference(segment.vmaddr + segment.vmsize, addr);
      if limited < size {
        size := limited;
      }
    }
    if size == Wrap(-1) {
      size := 0;
    }
  }

  /** A guess in closed form: what is left of the symbol's segment, of its section and before the next symbol,
      whichever is least. Without any of these, the guess is 0. */
  lemma GuessIsLeast(m: Image, addr: Word, next: Word, size: Word, i: nat, k: nat)
    requires IsGuess(m, addr, next, size) && addr <= next
    requires IsFirstSegment(m.segments, addr, i)
    requires i < |m.segments| ==> IsFirstSection(m.segments[i].sections, addr, k)
    ensures var none: nat := 0xffff_ffff_ffff_ffff;
            var toNext := if next == none then none else next - addr;
            var toSegmentEnd :=
              if i == |m.segments| then none else m.segments[i].vmaddr + m.segments[i].vmsize - addr;
            var toSectionEnd :=
              if i == |m.segments| || k == |m.segments[i].sections| then none
              else m.segments[i].sections[k].addr + m.segments[i].sections[k].size - addr;
            var least := Min(toNext, Min(toSegmentEnd, toSectionEnd));
            size == if least == none then 0 else least
  {
    hide Limits, Wrap, Segment.Contains, Segment.End, Section.Contains, Section.End;
    LimitsAre(m, addr, next, i, k);
    WrapSmall(next - addr);
    if i < |m.segments| {
      SegmentContains(m.segments[i], addr);
      if k < |m.segments[i].sections| {
        SectionContains(m.segments[i].sections[k], addr);
      }
    }
  }

  datatype Resolution = NoSymbol | NoSection | Resolved(name: Option<Name>, size: Word, offset: Word)

  /** Entry i is the first of the section entries with the greatest value not above addr, among the
      first n entries. */
  ghost predicate IsBest(nl: seq<Nlist>, n: nat, addr: Word, i: nat) {
    && i < n <= |nl| && nl[i].IsSectionAtOrBelow(addr)
    && (forall j :: 0 <= j < n && nl[j].IsSectionAtOrBelow(addr) ==>
          nl[j].value < nl[i].value || (nl[j].value == nl[i].value && i <= j))
  }

  /** Every section symbol before the best one is smaller, or above the address. */
  lemma BestIsFirst(nl: seq<Nlist>, n: nat, addr: Word, i: nat, j: nat)
    requires IsBest(nl, n, addr, i) && j < n && nl[j].kind as int / 2 % 8 == 7 && nl[j].value <= addr
    ensures j < i ==> nl[j].value < nl[i].value <= addr
    ensures i <= j ==> nl[j].value <= nl[i].value <= addr
    ensures nl[i].kind as int / 2 % 8 == 7
  {
    hide Nlist.IsSection;
    VisitedKinds(nl[i]);
    VisitedKinds(nl[j]);
  }

  /** The answer of macho_resolve_address when entry i is the best one. */
  ghost predicate ResolvesTo(m: Image, nl: seq<Nlist>, addr: Word, i: nat, r: Resolution)
    requires i < |nl|
  {
    if nl[i].sect == NO_SECT then
      r == NoSection
    else
      && r.Resolved?
      && r.name == nl[i].name
      && r.offset == addr - nl[i].value
      && exists next :: IsNext(nl, nl[i].value, next) && IsGuess(m, nl[i].value, next, r.size)
  }

  ghost predicate Resolves(m: Image, nl: seq<Nlist>, addr: Word, r: Resolution) {
    if r.NoSymbol? then
      forall e <- nl :: !e.IsSectionAtOrBelow(addr)
    else
      exists i: nat :: IsBest(nl, |nl|, addr, i) && ResolvesTo(m, nl, addr, i, r)
  }

  method ResolveAddress(m: Image, nl: seq<Nlist>, addr: Word) returns (r: Resolution)
    ensures Resolves(m, nl, addr, r)
  {
    var best: Option<nat> := None;
    for i := 0 to |nl|
      invariant best.None? ==> forall j :: 0 <= j < i ==> !nl[j].IsSectionAtOrBelow(addr)
      invariant best.Some? ==> IsBest(nl, i, addr, best.value)
    {
      if nl[i].IsSection() {
        if (best.None? || nl[best.value].value < nl[i].value) && nl[i].value <= addr {
          best := Some(i);
        }
      }
    }
    if best.None? {
      return NoSymbol;
    }
    var e := nl[best.value];
    if e.sect == NO_SECT {
      return NoSection;
    }
    var next := NextSymbol(nl, e.value);
    var size := GuessSymbolSize(m, e.value, next);
    return Resolved(e.name, size, addr - e.value);
  }
}
