/** The index against the linear search it replaces. */
module LinearLookup {
  import opened Common
  import opened MachO
  import opened SymbolTables

  /** The images on which the two searches look at the same symbols: no debugging entries, every
      section symbol named, in a section and inside a segment, and segments that do not overlap. */
  ghost predicate WellFormed(m: Image) {
    && m.symtab.Some?
    && Disjoint(ExtentsOfSegments(m.segments))
    && forall e <- m.symtab.value ::
         !e.IsStab() && (e.IsSection() ==>
           && e.name.Some? && e.sect != NO_SECT
           && SegmentEnd(ExtentsOfSegments(m.segments), e.value).Some?)
  }

  lemma SectionSymbolsAreBindings(m: Image, x: Word)
    requires WellFormed(m)
    ensures x in TableOf(m).addresses <==> exists e <- m.symtab.value :: e.IsSection() && e.value == x
  {
    var nl := m.symtab.value;
    var bs := Collected(nl);
    if x in TableOf(m).addresses {
      var i :| 0 <= i < |bs| && bs[i].address == x;
      assert bs[i] in bs;
    }
    if e :| e in nl && e.IsSection() && e.value == x {
      assert Binding(e.name.value, e.value) in bs;
      var i :| 0 <= i < |bs| && bs[i] == Binding(e.name.value, e.value);
      assert TableOf(m).addresses[i] == x;
    }
  }

  lemma {:induction false} FirstSegmentEnd(segments: seq<Segment>, a: Word) returns (i: nat)
    ensures IsFirstSegment(segments, a, i)
    ensures SegmentEnd(ExtentsOfSegments(segments), a)
            == if i < |segments| then Some(segments[i].End()) else None
  {
    if segments == [] || segments[0].Contains(a) {
      i := 0;
    } else {
      i := FirstSegmentEnd(segments[1..], a);
      i := i + 1;
      assert ExtentsOfSegments(segments)[1..] == ExtentsOfSegments(segments[1..]);
    }
  }

  /** A guess ends no later than the next symbol and the end of the symbol's segment. */
  lemma GuessIsBounded(m: Image, nl: seq<Nlist>, a: Word, next: Word, size: Word)
    requires IsNext(nl, a, next) && IsGuess(m, a, next, size)
    requires SegmentEnd(ExtentsOfSegments(m.segments), a).Some?
    ensures a + size <= SegmentEnd(ExtentsOfSegments(m.segments), a).value
    ensures forall e <- nl :: a < e.value ==> a + size <= e.value
  {
    hide Limits, IsFirstSegment, SegmentEnd, ExtentsOfSegments, Segment.End, Wrap;
    var i := FirstSegmentEnd(m.segments, a);
    LimitsInclude(m, a, next, i);
    assert a + size <= m.segments[i].End();
  }

  lemma LimitsInclude(m: Image, a: Word, next: Word, i: nat)
    requires i < |m.segments| && IsFirstSegment(m.segments, a, i)
    ensures m.segments[i].End() - a in Limits(m, a, next)
    ensures next != NO_NEXT ==> Wrap(next - a) in Limits(m, a, next)
    ensures a <= next ==> Wrap(next - a) == next - a
  {
  }

  lemma SegmentEndsInOrder(segments: seq<Extent>, a: Word, b: Word)
    requires Disjoint(segments) && a <= b
    requires SegmentEnd(segments, a).Some? && SegmentEnd(segments, b).Some?
    ensures SegmentEnd(segments, a).value <= SegmentEnd(segments, b).value
  {
    SegmentEndIsAbove(segments, a);
    SegmentEndIsAbove(segments, b);
    var s :| s in segments && s.Contains(a);
    var t :| t in segments && t.Contains(b);
    var i :| 0 <= i < |segments| && segments[i] == s;
    var j :| 0 <= j < |segments| && segments[j] == t;
    SegmentEndOf(segments, i, a);
    SegmentEndOf(segments, j, b);
    if i != j {
      assert !s.Contains(b);
    }
  }

  /** Whenever the index resolves an address to the symbol at start, extending to end, the linear
      search answers with the same offset and a size that is no larger. */
  lemma LinearAgreesWithIndex(m: Image, a: Word, start: Word, end: Word, r: Resolution)
    requires WellFormed(m)
    requires IsExtent(TableOf(m), a, start, end)
    requires Resolves(m, m.symtab.value, a, r)
    ensures r.Resolved? && r.offset == a - start && start + r.size <= end
    ensures r.name.Some? && Binds(TableOf(m), r.name.value, start)
  {
    var nl := m.symtab.value;
    var segments := ExtentsOfSegments(m.segments);
    SectionSymbolsAreBindings(m, start);
    var e :| e in nl && e.IsSection() && e.value == start;
    assert e.IsSectionAtOrBelow(a);
    var i: nat :| IsBest(nl, |nl|, a, i) && ResolvesTo(m, nl, a, i, r);
    BestIsStart(m, a, start, end, i);
    assert nl[i] in nl;
    SectionSymbolIsBound(m, i);
    var next :| IsNext(nl, start, next) && IsGuess(m, start, next, r.size);
    GuessIsBounded(m, nl, start, next, r.size);
    SegmentEndsInOrder(segments, start, a);
    if end != SegmentEnd(segments, a).value {
      SectionSymbolsAreBindings(m, end);
    }
  }

  lemma SectionSymbolIsBound(m: Image, i: nat)
    requires WellFormed(m) && i < |m.symtab.value| && m.symtab.value[i].IsSection()
    ensures var e := m.symtab.value[i]; e.name.Some? && Binds(TableOf(m), e.name.value, e.value)
  {
    var e, bs := m.symtab.value[i], Collected(m.symtab.value);
    assert e in m.symtab.value;
    assert Binding(e.name.value, e.value) in bs;
    var j :| 0 <= j < |bs| && bs[j] == Binding(e.name.value, e.value);
    assert TableOf(m).names[j] == e.name.value && TableOf(m).addresses[j] == e.value;
  }

  lemma BestIsStart(m: Image, a: Word, start: Word, end: Word, i: nat)
    requires WellFormed(m)
    requires IsExtent(TableOf(m), a, start, end)
    requires IsBest(m.symtab.value, |m.symtab.value|, a, i)
    ensures m.symtab.value[i].value == start
  {
    var nl := m.symtab.value;
    SectionSymbolsAreBindings(m, start);
    SectionSymbolsAreBindings(m, nl[i].value);
    var e :| e in nl && e.IsSection() && e.value == start;
    var j :| 0 <= j < |nl| && nl[j] == e;
    assert nl[j].IsSectionAtOrBelow(a);
  }

  /** Inside the segments, the two searches succeed on the same addresses. */
  lemma LinearSucceedsWithIndex(m: Image, a: Word, r: Resolution)
    requires WellFormed(m)
    requires SegmentEnd(ExtentsOfSegments(m.segments), a).Some?
    requires Resolves(m, m.symtab.value, a, r)
    ensures r.Resolved? <==> exists start, end :: IsExtent(TableOf(m), a, start, end)
  {
    var nl := m.symtab.value;
    ExtentExists(TableOf(m), a);
    if r.Resolved? {
      var i: nat :| IsBest(nl, |nl|, a, i) && ResolvesTo(m, nl, a, i, r);
      SectionSymbolsAreBindings(m, nl[i].value);
    }
    if start, end :| IsExtent(TableOf(m), a, start, end) {
      LinearAgreesWithIndex(m, a, start, end, r);
    }
  }
}
