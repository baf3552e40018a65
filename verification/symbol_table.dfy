/**
 The symbol table: two parallel arrays, indexed by two sorting permutations that are updated in
 place.

 `Table` is the simple meaning of a symbol table: the bindings in the order they came in, and the
 segments. The class below keeps the indexes, and every query is specified over the table alone.
 */
module SymbolTables {
  import opened Common
  import opened Algorithm
  import opened MachO

  // ---- The simple meaning -----------------------------------------------------------------------

  /** The addresses from start up to but not including end. */
  datatype Extent = Extent(start: Word, end: Word) {
    predicate Contains(a: Word) {
      start <= a < end
    }
  }

  datatype Table = Table(names: seq<Name>, addresses: seq<Word>, segments: seq<Extent>)

  ghost predicate Binds(t: Table, name: Name, a: Word) {
    exists i :: 0 <= i < |t.names| && i < |t.addresses| && t.names[i] == name && t.addresses[i] == a
  }

  /** The end of the first segment that contains the address. */
  function SegmentEnd(segments: seq<Extent>, a: Word): Option<Word> {
    if segments == [] then None
    else if segments[0].Contains(a) then Some(segments[0].end)
    else SegmentEnd(segments[1..], a)
  }

  ghost predicate Disjoint(segments: seq<Extent>) {
    forall i, j, a :: 0 <= i < j < |segments| && segments[i].Contains(a) ==> !segments[j].Contains(a)
  }

  /** The symbol at `start` extends over address a up to `end`: no symbol lies between start and
      end, and the end is the next symbol or the end of a's segment, whichever comes first. */
  ghost predicate IsExtent(t: Table, a: Word, start: int, end: int) {
    && start in t.addresses && start <= a < end
    && (forall x <- t.addresses :: x <= start || end <= x)
    && SegmentEnd(t.segments, a).Some?
    && var segmentEnd := SegmentEnd(t.segments, a).value;
       end <= segmentEnd && (end == segmentEnd || end in t.addresses)
  }

  /** An address has at most one extent. */
  lemma ExtentUnique(t: Table, a: Word, start: int, end: int, start': int, end': int)
    requires IsExtent(t, a, start, end) && IsExtent(t, a, start', end')
    ensures start == start' && end == end'
  {
  }

  /** It has one exactly when a segment contains it and some symbol is at or below it. */
  lemma ExtentExists(t: Table, a: Word)
    ensures (exists start, end :: IsExtent(t, a, start, end))
            <==> SegmentEnd(t.segments, a).Some? && exists x <- t.addresses :: x <= a
  {
    if SegmentEnd(t.segments, a).Some? && exists x <- t.addresses :: x <= a {
      SegmentEndIsAbove(t.segments, a);
      var start := Greatest(t.addresses, a);
      var end := Least(t.addresses, a, SegmentEnd(t.segments, a).value);
      assert IsExtent(t, a, start, end);
    }
  }

  lemma {:induction false} SegmentEndIsAbove(segments: seq<Extent>, a: Word)
    ensures SegmentEnd(segments, a).Some? <==> exists s <- segments :: s.Contains(a)
    ensures SegmentEnd(segments, a).Some? ==> a < SegmentEnd(segments, a).value
  {
    if segments != [] {
      assert segments == [segments[0]] + segments[1..];
      SegmentEndIsAbove(segments[1..], a);
    }
  }

  lemma {:induction false} Greatest(xs: seq<Word>, a: Word) returns (x: Word)
    requires exists y <- xs :: y <= a
    ensures x in xs && x <= a && forall y <- xs :: y <= x || a < y
  {
    var tail := xs[1..];
    assert xs == [xs[0]] + tail;
    if y :| y in tail && y <= a {
      x := Greatest(tail, a);
      if x < xs[0] <= a {
        x := xs[0];
      }
    } else {
      x := xs[0];
    }
  }

  lemma {:induction false} Least(xs: seq<Word>, a: Word, limit: Word) returns (x: Word)
    requires a < limit
    ensures a < x <= limit && (x == limit || x in xs) && forall y <- xs :: y <= a || x <= y
  {
    x := limit;
    if xs != [] {
      assert xs == [xs[0]] + xs[1..];
      x := Least(xs[1..], a, limit);
      if a < xs[0] < x {
        x := xs[0];
      }
    }
  }

  lemma {:induction false} SegmentEndOf(segments: seq<Extent>, i: nat, a: Word)
    requires Disjoint(segments) && i < |segments| && segments[i].Contains(a)
    ensures SegmentEnd(segments, a) == Some(segments[i].end)
  {
    if i > 0 {
      assert Disjoint(segments[1..]);
      assert !segments[0].Contains(a);
      SegmentEndOf(segments[1..], i - 1, a);
    }
  }

  /** With disjoint segments, every address of a symbol's own extent has that same extent. */
  lemma ExtentCoversItself(t: Table, start: Word, end: int, a: Word)
    requires Disjoint(t.segments) && IsExtent(t, start, start, end) && start <= a < end
    ensures IsExtent(t, a, start, end)
  {
    SegmentEndIsAbove(t.segments, start);
    var s :| s in t.segments && s.Contains(start);
    var i :| 0 <= i < |t.segments| && t.segments[i] == s;
    SegmentEndOf(t.segments, i, start);
    SegmentEndOf(t.segments, i, a);
  }

  // ---- Comparisons ------------------------------------------------------------------------------

  /** strcmp. */
  function CompareNames(a: Name, b: Name): int {
    if a == [] then (if b == [] then 0 else -1)
    else if b == [] then 1
    else if a[0] < b[0] then -1
    else if a[0] > b[0] then 1
    else CompareNames(a[1..], b[1..])
  }

  function CompareAddresses(a: Word, b: Word): int {
    if a < b then -1 else if a > b then 1 else 0
  }

  lemma {:induction false} CompareNamesEqual(a: Name, b: Name)
    ensures CompareNames(a, b) == 0 <==> a == b
    ensures CompareNames(a, b) <= 0 <==> CompareNames(b, a) >= 0
  {
    if a != [] && b != [] {
      CompareNamesEqual(a[1..], b[1..]);
      assert a == [a[0]] + a[1..] && b == [b[0]] + b[1..];
    }
  }

  lemma {:induction false} CompareNamesTransitive(a: Name, b: Name, c: Name)
    requires CompareNames(a, b) <= 0 && CompareNames(b, c) <= 0
    ensures CompareNames(a, c) <= 0
  {
    if a != [] && b != [] && c != [] && a[0] == b[0] == c[0] {
      CompareNamesTransitive(a[1..], b[1..], c[1..]);
    }
  }

  lemma ComparisonsAreOrders()
    ensures Preorder(CompareNames) && Preorder(CompareAddresses)
  {
    forall a, b ensures CompareNames(a, b) <= 0 <==> CompareNames(b, a) >= 0 {
      CompareNamesEqual(a, b);
    }
    forall a, b, c | CompareNames(a, b) <= 0 && CompareNames(b, c) <= 0
      ensures CompareNames(a, c) <= 0
    {
      CompareNamesTransitive(a, b, c);
    }
  }

  // ---- The table as the program keeps it --------------------------------------------------------

  method CountSymbols(nl: seq<Nlist>) returns (n: nat)
    ensures n == |Collected(nl)|
  {
    n := 0;
    for i := 0 to |nl|
      invariant n == |Collected(nl[..i])|
    {
      CollectedStep(nl, i);
      if nl[i].IsCollected() {
        n := n + 1;
      }
    }
    assert nl[..|nl|] == nl;
  }

  /** byName lists the bindings in the order of their names. */
  ghost predicate NameIndex(names: seq<Name>, byName: seq<nat>) {
    IsPermutation(byName, |names|) && SortedThrough(names, byName, CompareNames)
  }

  /** byAddress lists the bindings in the order of their addresses. */
  ghost predicate AddressIndex(addresses: seq<Word>, byAddress: seq<nat>) {
    IsPermutation(byAddress, |addresses|) && SortedThrough(addresses, byAddress, CompareAddresses)
  }

  function ExtentsOfWords(words: seq<Word>, n: nat): seq<Extent>
    requires 2 * n <= |words|
  {
    seq(n, i requires 0 <= i < n => Extent(words[2 * i], words[2 * i + 1]))
  }

  function ExtentsOfSegments(segments: seq<Segment>): seq<Extent> {
    seq(|segments|, i requires 0 <= i < |segments| => Extent(segments[i].vmaddr, segments[i].End()))
  }

  function Names(bs: seq<Binding>): seq<Name> {
    seq(|bs|, i requires 0 <= i < |bs| => bs[i].name)
  }

  function Addresses(bs: seq<Binding>): seq<Word> {
    seq(|bs|, i requires 0 <= i < |bs| => bs[i].address)
  }

  /** The table a Mach-O image stands for. */
  function TableOf(m: Image): Table {
    var bs := if m.symtab.None? then [] else Collected(m.symtab.value);
    Table(Names(bs), Addresses(bs), ExtentsOfSegments(m.segments))
  }

  /** The table binds exactly the names and values of the named section symbols that are not debugging entries. */
  lemma TableBindsSectionSymbols(m: Image, name: Name, a: Word)
    ensures Binds(TableOf(m), name, a)
            <==> m.symtab.Some? && exists e <- m.symtab.value ::
                   && e.name == Some(name) && e.value == a
                   && (e.kind == 0x0e || e.kind == 0x0f || e.kind == 0x1e || e.kind == 0x1f)
  {
    hide Nlist.IsCollected;
    if m.symtab.Some? {
      var nl, bs := m.symtab.value, Collected(m.symtab.value);
      forall e <- nl
        ensures e.IsCollected()
                <==> e.name.Some? && (e.kind == 0x0e || e.kind == 0x0f || e.kind == 0x1e || e.kind == 0x1f)
      {
        VisitedKinds(e);
      }
      assert Binds(TableOf(m), name, a) <==> Binding(name, a) in bs by {
        if Binding(name, a) in bs {
          var i :| 0 <= i < |bs| && bs[i] == Binding(name, a);
          assert TableOf(m).names[i] == name && TableOf(m).addresses[i] == a;
        }
        if Binds(TableOf(m), name, a) {
          var i :| 0 <= i < |bs| && TableOf(m).names[i] == name && TableOf(m).addresses[i] == a;
          assert bs[i] == Binding(name, a);
        }
      }
    }
  }

  /** The segments of the table are those of the image that lie within the address space, as far as an address
      inside them can tell. */
  lemma TableSegmentsAreTheImages(m: Image, i: nat, a: Word)
    requires i < |m.segments|
    ensures |TableOf(m).segments| == |m.segments|
    ensures var s, t := m.segments[i], TableOf(m).segments[i];
            && (t.Contains(a) <==> s.vmaddr <= a < s.vmaddr + s.vmsize && s.vmaddr + s.vmsize < TWO_64)
            && (t.Contains(a) ==> t.start == s.vmaddr && t.end == s.vmaddr + s.vmsize)
  {
    SegmentContains(m.segments[i], a);
  }

  lemma SearchNames(names: seq<Name>, p: seq<nat>, name: Name)
    requires NameIndex(names, p)
    ensures |p| == |names| && forall i :: 0 <= i < |p| ==> p[i] < |names|
    ensures forall i, j :: 0 <= i < j < |p| ==>
              && (CompareNames(name, names[p[i]]) <= 0 ==> CompareNames(name, names[p[j]]) <= 0)
              && (CompareNames(name, names[p[i]]) < 0 ==> CompareNames(name, names[p[j]]) < 0)
  {
    ComparisonsAreOrders();
    SortedIsSearchable(names, p, CompareNames, name);
  }

  lemma SearchAddresses(addresses: seq<Word>, p: seq<nat>, a: Word)
    requires AddressIndex(addresses, p)
    ensures |p| == |addresses| && forall i :: 0 <= i < |p| ==> p[i] < |addresses|
    ensures forall i, j :: 0 <= i < j < |p| ==>
              && (CompareAddresses(a, addresses[p[i]]) <= 0 ==>
                    CompareAddresses(a, addresses[p[j]]) <= 0)
              && (CompareAddresses(a, addresses[p[i]]) < 0 ==>
                    CompareAddresses(a, addresses[p[j]]) < 0)
  {
    ComparisonsAreOrders();
    SortedIsSearchable(addresses, p, CompareAddresses, a);
  }

  lemma NamePlace(names: seq<Name>, p: seq<nat>, name: Name, i: nat)
    requires NameIndex(names, p) && i <= |p|
    requires forall j :: 0 <= j < i ==> CompareNames(name, names[p[j]]) > 0
    requires forall j :: i <= j < |p| ==> CompareNames(name, names[p[j]]) < 0
    ensures name !in names && NameIndex(names + [name], Inserted<nat>(p, i, |names|))
  {
    ComparisonsAreOrders();
    forall k | 0 <= k < |names| ensures names[k] != name {
      assert k in p;
      CompareNamesEqual(name, names[k]);
    }
    InsertKeepsPermutation(p, |names|, i);
    InsertKeepsSorted(names, p, CompareNames, name, i);
  }

  /** The addresses before position i of the index are at most a, and from there on at least a. */
  ghost predicate Splits(addresses: seq<Word>, p: seq<nat>, a: Word, i: nat) {
    && i <= |p|
    && (forall j :: 0 <= j < |p| ==> p[j] < |addresses|)
    && (forall j :: 0 <= j < i ==> addresses[p[j]] <= a)
    && (forall j :: i <= j < |p| ==> a <= addresses[p[j]])
  }

  lemma AddressPlace(addresses: seq<Word>, p: seq<nat>, a: Word, i: nat)
    requires AddressIndex(addresses, p) && Splits(addresses, p, a, i)
    ensures AddressIndex(addresses + [a], Inserted<nat>(p, i, |addresses|))
  {
    ComparisonsAreOrders();
    InsertKeepsPermutation(p, |addresses|, i);
    InsertKeepsSorted(addresses, p, CompareAddresses, a, i);
  }

  class SymbolTable {
    var count: nat
    var symbol: array<Name>
    var address: array<Word>
    var sortSymbol: array<nat>
    var sortAddress: array<nat>
    var segment: array<Word>
    var segmentCount: nat

    ghost predicate NamesValid()
      reads this, symbol, sortSymbol
    {
      && count <= symbol.Length && count <= sortSymbol.Length
      && NameIndex(symbol[..count], sortSymbol[..count])
    }

    ghost predicate AddressesValid()
      reads this, address, sortAddress
    {
      && count <= address.Length && count <= sortAddress.Length
      && AddressIndex(address[..count], sortAddress[..count])
    }

    ghost predicate Valid()
      reads this, symbol, address, sortSymbol, sortAddress, segment
    {
      NamesValid() && AddressesValid() && 2 * segmentCount <= segment.Length
    }

    /** The table this object stands for. */
    ghost function View(): Table
      requires Valid()
      reads this, symbol, address, sortSymbol, sortAddress, segment
    {
      Table(symbol[..count], address[..count], ExtentsOfWords(segment[..], segmentCount))
    }

    constructor InitWithMacho(macho: Image)
      ensures Valid() && View() == TableOf(macho)
    {
      hide NameIndex, AddressIndex, ExtentsOfSegments, ExtentsOfWords, Collected, Names, Addresses, TableOf;
      count := 0;
      symbol, address := new Name[0], new Word[0];
      sortSymbol, sortAddress := new nat[0], new nat[0];
      segment, segmentCount := new Word[0], 0;
      new;
      EmptyIndexes();
      Collect(macho);
    }

    /** Fills a table that has no symbols yet. */
    method Collect(macho: Image)
      requires NamesValid() && AddressesValid() && count == 0
      modifies this
      ensures Valid() && View() == TableOf(macho)
    {
      hide NameIndex, AddressIndex, ExtentsOfSegments, ExtentsOfWords, Collected, Names, Addresses, TableOf;
      TableOfParts(macho);
      CollectSegments(macho.segments);
      if macho.symtab.Some? {
        InitSymbols(macho.symtab.value);
      }
      assert View() == TableOf(macho);
    }

    method InitSymbols(nl: seq<Nlist>)
      modifies this`count, this`symbol, this`address, this`sortSymbol, this`sortAddress
      ensures NamesValid() && AddressesValid()
      ensures symbol[..count] == Names(Collected(nl))
      ensures address[..count] == Addresses(Collected(nl))
    {
      hide NameIndex, AddressIndex, Collected, Names, Addresses;
      var n := CountSymbols(nl);
      symbol, address := new Name[n], new Word[n];
      CollectSymbols(nl);
      assert symbol[..count] == symbol[..] && address[..count] == address[..];
      SortIndexes();
    }

    method SortIndexes()
      requires count == symbol.Length == address.Length
      modifies this`sortSymbol, this`sortAddress
      ensures NamesValid() && AddressesValid()
    {
      hide IsPermutation, SortedThrough, Preorder;
      ComparisonsAreOrders();
      assert symbol[..count] == symbol[..] && address[..count] == address[..];
      sortSymbol := new nat[count];
      SortingPermutation(symbol[..], CompareNames, sortSymbol);
      sortAddress := new nat[count];
      SortingPermutation(address[..], CompareAddresses, sortAddress);
      assert sortSymbol[..count] == sortSymbol[..] && sortAddress[..count] == sortAddress[..];
    }

    method CollectSegments(segments: seq<Segment>)
      modifies this`segment, this`segmentCount
      ensures fresh(segment) && 2 * segmentCount <= segment.Length
      ensures ExtentsOfWords(segment[..], segmentCount) == ExtentsOfSegments(segments)
    {
      segment := new Word[2 * |segments|];
      segmentCount := |segments|;
      for i := 0 to |segments|
        invariant forall j :: 0 <= j < i ==> segment[2 * j] == segments[j].vmaddr
                                             && segment[2 * j + 1] == segments[j].End()
        modifies segment
      {
        segment[2 * i] := segments[i].vmaddr;
        segment[2 * i + 1] := Wrap(segments[i].vmaddr + segments[i].vmsize);
      }
    }

    /** Appends one symbol to the two arrays and says whether they are full. */
    method CollectSymbol(b: Binding) returns (stop: bool)
      requires count < symbol.Length == address.Length
      modifies this`count, symbol, address
      ensures count == old(count) + 1 && symbol[old(count)] == b.name && address[old(count)] == b.address
      ensures forall j :: 0 <= j < old(count) ==> symbol[j] == old(symbol[j]) && address[j] == old(address[j])
      ensures stop <==> count == symbol.Length
    {
      symbol[count] := b.name;
      address[count] := b.address;
      count := count + 1;
      return count == symbol.Length;
    }

    /** Fills the symbol and address arrays, stopping once they are full. */
    method CollectSymbols(nl: seq<Nlist>)
      requires symbol.Length == address.Length == |Collected(nl)|
      modifies this`count, symbol, address
      ensures count == |Collected(nl)|
      ensures symbol[..] == Names(Collected(nl)) && address[..] == Addresses(Collected(nl))
    {
      hide Collected, Names, Addresses;
      var i, stop := 0, false;
      count := 0;
      CollectedNone(nl);
      ghost var bs := Collected(nl);
      while !stop && i < |nl|
        invariant i <= |nl| && count <= |bs| && Collected(nl[..i]) == bs[..count]
        invariant stop ==> count == |bs|
        invariant forall j :: 0 <= j < count ==> symbol[j] == bs[j].name && address[j] == bs[j].address
      {
        CollectNext(nl, i, count);
        if nl[i].IsCollected() {
          stop := CollectSymbol(Binding(nl[i].name.value, nl[i].value));
        }
        i := i + 1;
      }
      CollectedGrows(nl, i);
      assert i == |nl| ==> nl[..i] == nl;
      Filled(symbol[..], address[..], bs);
    }

    method FindIndexOfSymbol(name: Name) returns (index: Option<nat>, place: nat)
      requires NamesValid()
      ensures index.Some? <==> name in symbol[..count]
      ensures index.Some? ==> index.value < count && symbol[index.value] == name
      ensures index.None? ==>
                && place <= count
                && NameIndex(symbol[..count] + [name], Inserted<nat>(sortSymbol[..count], place, count))
    {
      hide Inserted, NameIndex;
      var names := symbol[..count];
      ghost var p := sortSymbol[..count];
      SearchNames(names, p, name);
      var found;
      found, place := BinarySearch(sortSymbol, count,
                                   (i: nat) requires i < |names| => CompareNames(name, names[i]));
      if found {
        assert p[place] < |names|;
        index := Some(sortSymbol[place]);
        CompareNamesEqual(name, names[p[place]]);
      } else {
        index := None;
        NamePlace(names, p, name, place);
      }
    }

    method FindIndexOfAddress(a: Word) returns (index: Option<nat>, place: nat)
      requires AddressesValid()
      ensures Splits(address[..count], sortAddress[..count], a, place)
      ensures index.Some? <==> a in address[..count]
      ensures index.Some? ==> && place < count && index.value == sortAddress[place]
                              && index.value < count && address[index.value] == a
    {
      hide AddressIndex;
      var addresses := address[..count];
      ghost var p := sortAddress[..count];
      SearchAddresses(addresses, p, a);
      var found;
      found, place := BinarySearch(sortAddress, count,
                                   (i: nat) requires i < |addresses| => CompareAddresses(a, addresses[i]));
      if found {
        assert CompareAddresses(a, addresses[p[place]]) == 0;
        index := Some(sortAddress[place]);
      } else {
        index := None;
        AbsentAddress(addresses, p, a, place);
      }
    }

    /** Replaces the arrays by larger copies, one after the other, until memory runs out. */
    method GrowArrays(size: nat, allocations: nat) returns (ok: bool)
      requires Valid() && count <= size
      modifies this`symbol, this`address, this`sortSymbol, this`sortAddress
      ensures Valid() && View() == old(View())
      ensures sortSymbol[..count] == old(sortSymbol[..count])
      ensures sortAddress[..count] == old(sortAddress[..count])
      ensures ok == (allocations >= 4)
      ensures ok ==> && fresh(symbol) && fresh(address) && fresh(sortSymbol) && fresh(sortAddress)
                     && symbol.Length == address.Length == size
                     && sortSymbol.Length == sortAddress.Length == size
                     && sortSymbol != sortAddress
    {
      hide NameIndex, AddressIndex;
      if allocations == 0 { return false; }
      symbol := Realloc(symbol, count, size, "");
      if allocations == 1 { return false; }
      address := Realloc(address, count, size, 0);
      if allocations == 2 { return false; }
      sortSymbol := Realloc(sortSymbol, count, size, 0);
      if allocations == 3 { return false; }
      sortAddress := Realloc(sortAddress, count, size, 0);
      return true;
    }

    /** Adds a symbol unless its name is taken or memory runs out (`allocations` is how many
        allocations will still succeed); a refused symbol changes nothing. */
    method AddSymbol(name: Name, a: Word, allocations: nat) returns (added: bool)
      requires Valid()
      modifies this
      ensures Valid()
      ensures added <==> name !in old(View()).names && allocations >= 5
      ensures View() == if added
                        then old(View()).(names := old(View()).names + [name],
                                          addresses := old(View()).addresses + [a])
                        else old(View())
    {
      hide NameIndex, AddressIndex, Inserted;
      var symbolIndex, sortSymbolIndex := FindIndexOfSymbol(name);
      if symbolIndex.Some? {
        return false;
      }
      ghost var t, byName, byAddress := View(), sortSymbol[..count], sortAddress[..count];
      var n := count;
      var ok := GrowArrays(n + 1, allocations);
      if !ok || allocations < 5 {
        return false;
      }
      symbol[n] := name;
      address[n] := a;
      InsertInPlace<nat>(sortSymbol, n, sortSymbolIndex, n);
      var _, sortAddressIndex := FindIndexOfAddress(a);
      AddressPlace(t.addresses, byAddress, a, sortAddressIndex);
      InsertInPlace<nat>(sortAddress, n, sortAddressIndex, n);
      count := n + 1;
      assert symbol[..count] == t.names + [name] && address[..count] == t.addresses + [a];
      assert sortSymbol[..count] == Inserted<nat>(byName, sortSymbolIndex, n);
      assert sortAddress[..count] == Inserted<nat>(byAddress, sortAddressIndex, n);
      return true;
    }

    method FindSegmentContainingAddress(a: Word) returns (end: Option<Word>)
      requires Valid()
      ensures end == SegmentEnd(View().segments, a)
    {
      ghost var segments := View().segments;
      var i := 0;
      assert segments[0..] == segments;
      while i < segmentCount
        invariant i <= segmentCount
        invariant SegmentEnd(segments[i..], a) == SegmentEnd(segments, a)
      {
        if segment[2 * i] <= a < segment[2 * i + 1] {
          return Some(segment[2 * i + 1]);
        }
        assert segments[i..][1..] == segments[i + 1..];
        i := i + 1;
      }
      return None;
    }

    /** The end of the symbol that extends over a: the next symbol, but not past segmentEnd. */
    method FindSymbolEndAddress(a: Word, segmentEnd: Word) returns (end: Word)
      requires AddressesValid() && a < segmentEnd
      ensures a < end <= segmentEnd && (end == segmentEnd || end in address[..count])
      ensures forall x <- address[..count] :: x <= a || end <= x
    {
      hide AddressIndex;
      var index, sortAddressIndex := FindIndexOfAddress(a + 1);
      ghost var addresses, p := address[..count], sortAddress[..count];
      SplitEverywhere(addresses, p, a + 1, sortAddressIndex);
      if sortAddressIndex == count {
        return segmentEnd;
      }
      assert p[sortAddressIndex] < |addresses|;
      var next := address[sortAddress[sortAddressIndex]];
      assert next == addresses[p[sortAddressIndex]];
      end := if next < segmentEnd then next else segmentEnd;
    }

    /** Resolves a name. A size may only be asked for when the symbol lies in a segment. */
    method ResolveSymbol(name: Name, wantSize: bool) returns (found: bool, start: Word, size: Option<Word>)
      requires Valid()
      requires wantSize ==> forall a :: Binds(View(), name, a) ==> SegmentEnd(View().segments, a).Some?
      ensures found <==> name in View().names
      ensures found ==> Binds(View(), name, start) && (size.Some? <==> wantSize)
      ensures found && wantSize ==> IsExtent(View(), start, start, start + size.value)
    {
      hide NameIndex, AddressIndex;
      ghost var t := View();
      var index, _ := FindIndexOfSymbol(name);
      if index.None? {
        return false, 0, None;
      }
      start := address[index.value];
      assert t.names[index.value] == name && t.addresses[index.value] == start;
      if !wantSize {
        return true, start, None;
      }
      var segmentEnd := FindSegmentContainingAddress(start);
      assert Binds(t, name, start);
      SegmentEndIsAbove(t.segments, start);
      var end := FindSymbolEndAddress(start, segmentEnd.value);
      return true, start, Some(end - start);
    }

    /** Resolves an address into the symbol that extends over it. */
    method ResolveAddress(a: Word) returns (found: bool, name: Name, size: Word, offset: Word)
      requires Valid()
      ensures found <==> && SegmentEnd(View().segments, a).Some?
                         && exists x <- View().addresses :: x <= a
      ensures found ==> && offset <= a
                        && IsExtent(View(), a, a - offset, a - offset + size)
                        && Binds(View(), name, a - offset)
    {
      hide NameIndex, AddressIndex;
      ghost var t, p := View(), sortAddress[..count];
      var segmentEnd := FindSegmentContainingAddress(a);
      if segmentEnd.None? {
        return false, "", 0, 0;
      }
      SegmentEndIsAbove(t.segments, a);
      var index, sortAddressIndex := FindIndexOfAddress(a);
      SplitEverywhere(t.addresses, p, a, sortAddressIndex);
      if index.None? {
        if sortAddressIndex == 0 {
          return false, "", 0, 0;
        }
        assert p[sortAddressIndex - 1] < |t.addresses|;
        index := Some(sortAddress[sortAddressIndex - 1]);
      }
      var start := address[index.value];
      assert t.addresses[index.value] == start && t.names[index.value] == symbol[index.value];
      assert start in t.addresses && start <= a;
      var end := FindSymbolEndAddress(a, segmentEnd.value);
      return true, symbol[index.value], end - start, a - start;
    }
  }

  lemma Filled(symbols: seq<Name>, addresses: seq<Word>, bs: seq<Binding>)
    requires |symbols| == |addresses| == |bs|
    requires forall j :: 0 <= j < |bs| ==> symbols[j] == bs[j].name && addresses[j] == bs[j].address
    ensures symbols == Names(bs) && addresses == Addresses(bs)
  {
  }

  /** Where entry i of the list goes when the entries before it have filled `count` places. */
  lemma CollectNext(nl: seq<Nlist>, i: nat, count: nat)
    requires i < |nl| && count <= |Collected(nl)| && Collected(nl[..i]) == Collected(nl)[..count]
    ensures if nl[i].IsCollected() then
              && count < |Collected(nl)|
              && Collected(nl)[count] == Binding(nl[i].name.value, nl[i].value)
              && Collected(nl[..i + 1]) == Collected(nl)[..count + 1]
            else
              Collected(nl[..i + 1]) == Collected(nl)[..count]
  {
    hide Collected;
    CollectedStep(nl, i);
    CollectedGrows(nl, i + 1);
  }

  /** Every address is on its side of the split. */
  lemma SplitEverywhere(addresses: seq<Word>, p: seq<nat>, a: Word, i: nat)
    requires AddressIndex(addresses, p) && Splits(addresses, p, a, i)
    ensures forall x <- addresses :: (i > 0 && x <= addresses[p[i - 1]] <= a)
                                     || (i < |p| && a <= addresses[p[i]] <= x)
  {
    forall k | 0 <= k < |addresses|
      ensures (i > 0 && addresses[k] <= addresses[p[i - 1]] <= a)
              || (i < |p| && a <= addresses[p[i]] <= addresses[k])
    {
      assert k in p;
      var j :| 0 <= j < |p| && p[j] == k;
      if j < i {
        assert j < i - 1 ==> CompareAddresses(addresses[p[j]], addresses[p[i - 1]]) <= 0;
      } else {
        assert i < j ==> CompareAddresses(addresses[p[i]], addresses[p[j]]) <= 0;
      }
    }
  }

  lemma TableOfParts(m: Image)
    ensures TableOf(m).segments == ExtentsOfSegments(m.segments)
    ensures m.symtab.None? ==> TableOf(m).names == [] && TableOf(m).addresses == []
    ensures m.symtab.Some? ==> TableOf(m).names == Names(Collected(m.symtab.value))
                               && TableOf(m).addresses == Addresses(Collected(m.symtab.value))
  {
  }

  lemma EmptyIndexes()
    ensures NameIndex([], []) && AddressIndex([], [])
    ensures Names([]) == [] && Addresses([]) == []
  {
  }

  lemma AbsentAddress(addresses: seq<Word>, p: seq<nat>, a: Word, i: nat)
    requires AddressIndex(addresses, p) && i <= |p|
    requires forall j :: 0 <= j < i ==> CompareAddresses(a, addresses[p[j]]) > 0
    requires forall j :: i <= j < |p| ==> CompareAddresses(a, addresses[p[j]]) < 0
    ensures a !in addresses
  {
    forall k | 0 <= k < |addresses| ensures addresses[k] != a {
      assert k in p;
    }
  }
}
