/**
 The kernel extension cache: a sorted array of reference-counted objects that may become outdated
 while callers still hold them. The class refines the protocol of `KextProtocol`.
 */
module Kernel {
  import opened Common
  import opened Algorithm
  import opened MachO
  import opened SymbolTables
  import opened KextProtocol

  datatype KextResult = Success | Error | NoKext | NotFound

  /** What a call into the operating system answers: a value, or the code of its failure. */
  datatype Answer<+T> = Got(value: T) | Failed(code: KextResult) {
    predicate IsProper() {
      Failed? ==> code != Success
    }

    function ToOption(): Option<T> {
      if Got? then Some(value) else None
    }
  }

  const KERNEL_ID: Name := "__kernel__"

  /** A loaded extension's image and the base address it was linked for. */
  datatype Loaded = Loaded(image: Image, staticBase: Word)

  class KextInfo {
    const bundleId: Name
    const info: LoadInfo
    const slide: Word
    const symtab: SymbolTable
    var refcount: nat   // an unsigned integer of 32 bits
    var outdated: bool

    constructor (id: Name, li: LoadInfo, loaded: Loaded)
      ensures bundleId == id && info == li && refcount == 1 && !outdated
      ensures slide == Wrap(li.base - loaded.staticBase)
      ensures fresh(symtab) && symtab.Valid() && symtab.View() == TableOf(loaded.image)
    {
      bundleId, info, refcount, outdated := id, li, 1, false;
      slide := Wrap(li.base - loaded.staticBase);
      symtab := new SymbolTable.InitWithMacho(loaded.image);
    }

    ghost function Value(): Entry
      reads this
    {
      Entry(bundleId, info, refcount, outdated)
    }

    ghost predicate SymtabValid()
      reads symtab, symtab.symbol, symtab.address, symtab.sortSymbol, symtab.sortAddress, symtab.segment
    {
      symtab.Valid()
    }

    /** Finds the runtime address of a symbol. */
    method FindSymbol(name: Name, wantSize: bool)
      returns (r: KextResult, address: Word, size: Option<Word>)
      requires SymtabValid()
      requires wantSize ==> forall a :: Binds(symtab.View(), name, a) ==>
                                          SegmentEnd(symtab.View().segments, a).Some?
      ensures r == (if name in symtab.View().names then Success else NotFound)
      ensures r == Success ==> size.Some? == wantSize
                               && IsFound(symtab.View(), slide, name, address, size)
    {
      var found, start;
      found, start, size := symtab.ResolveSymbol(name, wantSize);
      if !found {
        return NotFound, 0, None;
      }
      return Success, Wrap(start + slide), size;
    }

    /** Finds the symbol that extends over a runtime address. */
    method ResolveAddress(address: Word) returns (r: KextResult, name: Option<Name>, size: Word, offset: Word)
      requires SymtabValid()
      ensures r == (if IsCovered(symtab.View(), slide, address) then Success else NotFound)
      ensures r == Success ==> name.Some?
                               && IsResolved(symtab.View(), slide, address, name.value, size, offset)
      ensures r == NotFound ==> name == None && size == 0 && offset == Wrap(address - info.base)
    {
      var found, symbol;
      found, symbol, size, offset := symtab.ResolveAddress(Wrap(address - slide));
      if !found {
        return NotFound, None, 0, Wrap(address - info.base);
      }
      return Success, Some(symbol), size, offset;
    }
  }

  // ---- Symbols at runtime addresses ---------------------------------------------------------------

  /** The address is where a symbol of that name is at run time, and the size is the symbol's. */
  ghost predicate IsFound(t: Table, slide: Word, name: Name, address: Word, size: Option<Word>) {
    exists start: Word :: Binds(t, name, start) && address == Wrap(start + slide)
                    && (size.Some? ==> IsExtent(t, start, start, start + size.value))
  }

  /** The static address lies in a segment, with a symbol at or below it. */
  ghost predicate IsCovered(t: Table, slide: Word, address: Word) {
    var a := Wrap(address - slide);
    SegmentEnd(t.segments, a).Some? && exists x <- t.addresses :: x <= a
  }

  ghost predicate IsResolved(t: Table, slide: Word, address: Word, name: Name, size: Word, offset: Word) {
    var a := Wrap(address - slide);
    && offset <= a
    && IsExtent(t, a, a - offset, a - offset + size)
    && Binds(t, name, a - offset)
  }

  /** With disjoint segments, every address inside a found symbol can be resolved, and resolves back
      to the symbol's start with the symbol's size, whatever the slide. */
  lemma FoundSymbolResolves(t: Table, slide: Word, name: Name, address: Word, size: Word, k: Word)
    returns (start: Word)
    requires Disjoint(t.segments) && IsFound(t, slide, name, address, Some(size)) && k < size
    ensures Binds(t, name, start) && IsCovered(t, slide, Wrap(address + k))
    ensures Wrap(Wrap(address + k) - slide) == start + k
    ensures IsExtent(t, start + k, start, start + size)
  {
    hide Wrap, Binds, SegmentEnd;
    start :| Binds(t, name, start) && address == Wrap(start + slide)
             && IsExtent(t, start, start, start + size);
    ExtentFits(t, start, start, start + size);
    Unslide(start, slide, k);
    ExtentCoversItself(t, start, start + size, start + k);
  }

  lemma FoundSymbolResolvesUniquely(t: Table, slide: Word, name: Name, address: Word, size: Word,
                                    k: Word, name': Name, size': Word, offset': Word)
    requires Disjoint(t.segments) && IsFound(t, slide, name, address, Some(size)) && k < size
    requires IsResolved(t, slide, Wrap(address + k), name', size', offset')
    ensures offset' == k && size' == size
  {
    hide Wrap, Binds, IsExtent, IsFound;
    var start := FoundSymbolResolves(t, slide, name, address, size, k);
    var a := Wrap(Wrap(address + k) - slide);
    ExtentUnique(t, a, start, start + size, a - offset', a - offset' + size');
  }

  lemma ExtentFits(t: Table, a: Word, start: int, end: int)
    requires IsExtent(t, a, start, end)
    ensures end < TWO_64
  {
  }

  lemma Unslide(start: Word, slide: Word, k: nat)
    requires start + k < TWO_64
    ensures Wrap(Wrap(Wrap(start + slide) + k) - slide) == start + k
  {
  }

  // ---- The sorted array as a map ----------------------------------------------------------------

  ghost predicate SortedById(ks: seq<KextInfo>) {
    forall i, j :: 0 <= i < j < |ks| ==> CompareNames(ks[i].bundleId, ks[j].bundleId) < 0
  }

  /** The list holds exactly the objects of the map, under their identifiers. */
  ghost predicate Represents(ks: seq<KextInfo>, m: map<Name, KextInfo>) {
    && SortedById(ks)
    && (forall k <- ks :: k.bundleId in m && m[k.bundleId] == k)
    && (forall id <- m :: m[id] in ks && m[id].bundleId == id)
  }

  /** Where the identifier can be inserted. */
  ghost predicate Place(ks: seq<KextInfo>, id: Name, i: nat) {
    && i <= |ks|
    && (forall j :: 0 <= j < i ==> CompareNames(id, ks[j].bundleId) > 0)
    && (forall j :: i <= j < |ks| ==> CompareNames(id, ks[j].bundleId) < 0)
  }

  lemma InsertedElements<T>(s: seq<T>, i: nat, x: T)
    requires i <= |s|
    ensures forall y <- Inserted(s, i, x) :: y in s || y == x
    ensures (forall y <- s :: y in Inserted(s, i, x)) && x in Inserted(s, i, x)
  {
    assert s == s[..i] + s[i..];
  }

  lemma RemovedElements<T>(s: seq<T>, i: nat)
    requires i < |s| && forall j :: 0 <= j < |s| && j != i ==> s[j] != s[i]
    ensures forall y <- Removed(s, i) :: y in s && y != s[i]
    ensures forall y <- s :: y != s[i] ==> y in Removed(s, i)
  {
    assert s == s[..i] + [s[i]] + s[i + 1..];
    assert s[i] !in s[..i] && s[i] !in s[i + 1..];
  }

  lemma SortedInsertById(ks: seq<KextInfo>, i: nat, k: KextInfo)
    requires SortedById(ks) && Place(ks, k.bundleId, i)
    ensures i <= |ks| && SortedById(Inserted<KextInfo>(ks, i, k))
    ensures forall x <- ks :: x.bundleId != k.bundleId
  {
    forall j | 0 <= j < |ks|
      ensures CompareNames(ks[j].bundleId, k.bundleId) < 0
              <==> CompareNames(k.bundleId, ks[j].bundleId) > 0
      ensures ks[j].bundleId != k.bundleId
    {
      CompareNamesEqual(ks[j].bundleId, k.bundleId);
      CompareNamesEqual(k.bundleId, ks[j].bundleId);
    }
  }

  lemma InsertRepresents(ks: seq<KextInfo>, m: map<Name, KextInfo>, i: nat, k: KextInfo)
    requires Represents(ks, m) && Place(ks, k.bundleId, i)
    ensures Represents(Inserted<KextInfo>(ks, i, k), m[k.bundleId := k])
  {
    hide SortedById, Place, Inserted;
    SortedInsertById(ks, i, k);
    InsertedElements<KextInfo>(ks, i, k);
  }

  lemma SortedRemoveById(ks: seq<KextInfo>, i: nat)
    requires SortedById(ks) && i < |ks|
    ensures SortedById(Removed<KextInfo>(ks, i)) && Place(Removed<KextInfo>(ks, i), ks[i].bundleId, i)
    ensures forall x <- Removed<KextInfo>(ks, i) :: x in ks && x.bundleId != ks[i].bundleId
    ensures forall x <- ks :: x != ks[i] ==> x in Removed<KextInfo>(ks, i)
  {
    forall j | 0 <= j < |ks| && j != i
      ensures ks[j].bundleId != ks[i].bundleId
      ensures j < i ==> CompareNames(ks[i].bundleId, ks[j].bundleId) > 0
    {
      CompareNamesEqual(ks[i].bundleId, ks[j].bundleId);
      CompareNamesEqual(ks[j].bundleId, ks[i].bundleId);
    }
    RemovedElements(ks, i);
  }

  lemma RemoveRepresents(ks: seq<KextInfo>, m: map<Name, KextInfo>, i: nat)
    requires Represents(ks, m) && i < |ks|
    ensures Represents(Removed<KextInfo>(ks, i), m - {ks[i].bundleId})
    ensures Place(Removed<KextInfo>(ks, i), ks[i].bundleId, i)
  {
    hide SortedById, Removed, Place;
    SortedRemoveById(ks, i);
    assert ks[i] in ks;
  }

  lemma SearchIds(ks: seq<KextInfo>, id: Name)
    requires SortedById(ks)
    ensures Searchable(ks, (k: KextInfo) => CompareNames(id, k.bundleId))
  {
    ComparisonsAreOrders();
    assert Preorder(CompareNames);
    forall i, j | 0 <= i < j < |ks|
      ensures CompareNames(id, ks[i].bundleId) <= 0 ==> CompareNames(id, ks[j].bundleId) < 0
    {
      var x, y := ks[i].bundleId, ks[j].bundleId;
      assert CompareNames(x, y) < 0;
      assert CompareNames(y, id) <= 0 && CompareNames(id, x) <= 0 ==> CompareNames(y, x) <= 0;
    }
  }

  /** The object has the slide and the symbols of what was loaded, as its constructor set them. */
  ghost predicate IsLoadedFrom(k: KextInfo, li: LoadInfo, loaded: Loaded)
    reads k.symtab, k.symtab.symbol, k.symtab.address, k.symtab.sortSymbol, k.symtab.sortAddress, k.symtab.segment
  {
    && k.info == li && k.slide == Wrap(li.base - loaded.staticBase)
    && k.SymtabValid() && k.symtab.View() == TableOf(loaded.image)
  }

  /** Sliding takes the base the image was linked for to the one it is loaded at. */
  lemma BaseIsSlid(k: KextInfo, li: LoadInfo, loaded: Loaded)
    requires IsLoadedFrom(k, li, loaded)
    ensures Wrap(loaded.staticBase + k.slide) == k.info.base
  {
    hide KextInfo.SymtabValid, TableOf, Wrap;
    SlideFrom(loaded.staticBase, li.base);
  }

  lemma SlideFrom(staticBase: Word, base: Word)
    ensures Wrap(staticBase + Wrap(base - staticBase)) == base
  {
  }

  class Kexts {
    const kernel: KextInfo
    var kexts: array<KextInfo>
    var count: nat
    ghost var state: State<KextInfo>   // the state of the protocol this object stands for

    /** The array represents the cached objects, and they are as the state says. */
    ghost predicate Consistent()
      reads this, kexts, state.entries.Keys
    {
      && count <= kexts.Length
      && Represents(kexts[..count], state.cached)
      && EntriesMatch() && Inv(state)
    }

    /** The objects are as the state says, and the kernel is none of them. */
    ghost predicate EntriesMatch()
      reads this, state.entries.Keys
    {
      && (forall k <- state.entries :: k.Value() == state.entries[k])
      && kernel !in state.entries && kernel !in state.freed
    }

    /** The objects are as the state says, but for k, which has just become outdated. */
    ghost predicate MatchButFor(k: KextInfo)
      reads this, state.entries.Keys
    {
      && (forall j <- state.entries :: j != k ==> j.Value() == state.entries[j])
      && k in state.entries && k.Value() == state.entries[k].(outdated := true)
      && kernel !in state.entries && kernel !in state.freed
    }

    /** Every object has a valid symbol table. */
    ghost predicate SymtabsValid()
      reads this
      reads set k | k in state.entries.Keys + {kernel} :: k.symtab
      reads set k | k in state.entries.Keys + {kernel} :: k.symtab.symbol
      reads set k | k in state.entries.Keys + {kernel} :: k.symtab.address
      reads set k | k in state.entries.Keys + {kernel} :: k.symtab.sortSymbol
      reads set k | k in state.entries.Keys + {kernel} :: k.symtab.sortAddress
      reads set k | k in state.entries.Keys + {kernel} :: k.symtab.segment
    {
      kernel.SymtabValid() && forall k <- state.entries :: k.SymtabValid()
    }

    /** No object has so many handles that one more would wrap its reference count. */
    ghost predicate CountsFit()
      reads this
    {
      forall k <- state.entries :: state.entries[k].refcount + 1 < TWO_32
    }

    constructor (kernel: KextInfo)
      requires kernel.SymtabValid()
      ensures Consistent() && SymtabsValid() && this.kernel == kernel && state == Initial() && fresh(kexts)
    {
      this.kernel := kernel;
      kexts, count := new KextInfo[0], 0;
      state := Initial();
    }

    /** The slot of the identifier, or where to insert one. */
    method FindSlot(id: Name) returns (found: bool, index: nat)
      requires Consistent()
      ensures found <==> id in state.cached
      ensures found ==> index < count && kexts[index] == state.cached[id]
      ensures !found ==> Place(kexts[..count], id, index)
    {
      hide SortedById, Inv;
      ghost var ks := kexts[..count];
      SearchIds(ks, id);
      found, index := BinarySearch(kexts, count, (k: KextInfo) => CompareNames(id, k.bundleId));
      if found {
        CompareNamesEqual(id, ks[index].bundleId);
        assert ks[index] in ks;
      } else {
        CompareNamesEqual(id, id);
      }
    }

    /** Destroys the object if it is outdated and nobody holds it. */
    method HandleKextRelease(ki: KextInfo)
      requires ki in state.entries && ki.Value() == state.entries[ki]
      modifies this`state
      ensures state == Reap(old(state), ki)
    {
      if ki.refcount == 0 && ki.outdated {
        state := state.(entries := state.entries - {ki}, freed := state.freed + {ki});
      }
    }

    /** Takes the object at `index` out of the array. */
    method ArrayRemove(index: nat)
      requires index < count <= kexts.Length
      modifies kexts, this`count
      ensures count == old(count) - 1 && kexts[..count] == Removed<KextInfo>(old(kexts[..count]), index)
    {
      MoveDown(kexts, index, count);
      count := count - 1;
    }

    /** Takes the object at `index` out of the array, and frees it if it has no references. */
    method RemoveOutdated(index: nat)
      requires Consistent() && index < count
      modifies this, kexts, state.entries.Keys
      ensures Consistent() && state == Evict(old(state), old(kexts[index]).bundleId)
      ensures kexts == old(kexts) && index <= count <= kexts.Length
      ensures Place(kexts[..count], old(kexts[index]).bundleId, index)
    {
      hide Inv, Represents, Place, Removed, Evict;
      ghost var s, ks := state, kexts[..count];
      var ki := kexts[index];
      RepresentedAt(ks, s.cached, index);
      RemoveRepresents(ks, s.cached, index);
      EvictKeepsInv(s, ki.bundleId);
      CachedFacts(s, ki.bundleId);
      InvFacts(s, ki);
      ki.outdated := true;
      ArrayRemove(index);
      ReleaseOutdated(ki);
    }

    /** Lets go of an object that has just become outdated and left the array. */
    method ReleaseOutdated(ki: KextInfo)
      requires MatchButFor(ki)
      requires ki.bundleId in state.cached && state.cached[ki.bundleId] == ki
      modifies this`state
      ensures state == Evict(old(state), ki.bundleId) && EntriesMatch()
      ensures state.cached == old(state).cached - {ki.bundleId}
    {
      hide Reap, Evict, Outdated;
      EvictIsReap(state, ki);
      state := Outdated(state, ki);
      HandleKextRelease(ki);
    }

    /** Makes room for a new object at `index` of the array and puts it there. */
    method InsertNew(ki: KextInfo, index: nat)
      requires Consistent() && Place(kexts[..count], ki.bundleId, index)
      requires ki !in state.entries && ki !in state.freed && ki != kernel
      requires ki.refcount == 1 && !ki.outdated
      modifies this
      ensures Consistent() && state == Install(old(state), ki.bundleId, ki.info, ki)
    {
      hide Inv, Represents, Inserted, Install;
      ghost var ks := kexts[..count];
      InstallAddsObject(state, ki.bundleId, ki.info, ki);
      InsertRepresents(ks, state.cached, index, ki);
      PlacedIsAbsent(ks, state.cached, ki.bundleId, index);
      InstallKeepsInv(state, ki.bundleId, ki.info, ki);
      kexts := ArrayInsert(kexts, count, index, ki);
      count := count + 1;
      assert kexts[..count] == kexts[..];
      state := Install(state, ki.bundleId, ki.info, ki);
    }

    method CreateAndInsert(id: Name, li: LoadInfo, loaded: Loaded, index: nat) returns (ki: KextInfo)
      requires Consistent() && Place(kexts[..count], id, index)
      modifies this
      ensures fresh(ki) && ki !in old(state).entries && ki !in old(state).freed
      ensures Consistent() && state == Install(old(state), id, li, ki)
      ensures fresh(ki.symtab) && ki.SymtabValid() && IsLoadedFrom(ki, li, loaded)
    {
      hide Inv, Represents, Place, Install, TableOf;
      ki := new KextInfo(id, li, loaded);
      assert Consistent();
      InsertNew(ki, index);
    }

    /** Hands out one more reference to a cached object. */
    method AddReference(ki: KextInfo)
      requires Consistent() && ki in state.entries && ki.refcount + 1 < TWO_32
      modifies this`state, ki`refcount
      ensures Consistent() && state == Retain(old(state), ki)
    {
      hide Inv, Represents;
      RetainKeepsInv(state, ki);
      ki.refcount := (ki.refcount + 1) % TWO_32;
      state := Retain(state, ki);
    }

    /** Finds the cached object and hands it out, unless it is outdated: then it is evicted. */
    method FindCurrent(id: Name, li: LoadInfo) returns (kext: KextInfo?, index: nat)
      requires Consistent() && CountsFit()
      modifies this, kexts, state.entries.Keys
      ensures Consistent() && kexts == old(kexts)
      ensures kext != null <==> IsCurrent(old(state), id, li)
      ensures kext != null ==> kext == old(state).cached[id] && state == Retain(old(state), kext)
      ensures kext != null ==> state.entries.Keys == old(state).entries.Keys && kext in state.entries
      ensures kext == null ==> state == Evict(old(state), id) && Place(kexts[..count], id, index)
    {
      hide Inv, Represents, Place, Evict, Retain;
      ghost var s := state;
      var found;
      found, index := FindSlot(id);
      if !found {
        EvictNothing(s, id);
        return null, index;
      }
      var ki := kexts[index];
      CachedFacts(s, id);
      if ki.info == li {
        RetainKeepsObjects(s, ki);
        AddReference(ki);
        return ki, index;
      }
      RemoveOutdated(index);
      return null, index;
    }

    /** kernel_kext for an extension other than the kernel: the call is one step of the protocol.
        `made` is the object this call created, if it did. */
    method LookUp(id: Name, info: Answer<LoadInfo>, loaded: Answer<Loaded>)
      returns (r: KextResult, kext: KextInfo?, ghost made: Option<KextInfo>)
      requires Consistent() && CountsFit() && info.IsProper() && loaded.IsProper()
      modifies this, kexts, state.entries.Keys
      ensures Consistent() && (kext != null ==> kext in state.entries)
      ensures forall k <- state.entries :: k in old(state).entries || made == Some(k)
      ensures made.Some? ==> fresh(made.value) && fresh(made.value.symtab) && made.value.SymtabValid()
                             && info.Got? && loaded.Got? && IsLoadedFrom(made.value, info.value, loaded.value)
      ensures r == Success <==> kext != null
      ensures var e := Get(id, info.ToOption(), made);
              && Enabled(old(state), e) && state == Step(old(state), e)
              && Returned(old(state), e) == (if kext == null then None else Some(kext))
      ensures info.Failed? ==> r == info.code
      ensures info.Got? && !IsCurrent(old(state), id, info.value) ==>
                (made.Some? <==> loaded.Got?) && (loaded.Failed? ==> r == loaded.code)
      ensures info.Failed? || IsCurrent(old(state), id, info.value) ==> made == None
    {
      hide Consistent, Place, Evict, Install, Retain, IsCurrent, Step, Enabled, Returned, IsLoadedFrom,
           KextInfo.SymtabValid;
      if info.Failed? {
        StepFails(state, id);
        return info.code, null, None;
      }
      StepFinds(state, id, info.value);
      ghost var s := state;
      var index;
      kext, index := FindCurrent(id, info.value);
      if kext != null {
        return Success, kext, None;
      }
      EvictKeepsAbsent(s, id);
      if loaded.Failed? {
        return loaded.code, null, None;
      }
      var ki := CreateAndInsert(id, info.value, loaded.value, index);
      StepInstalls(s, id, info.value, ki);
      InstallAddsObject(Evict(s, id), id, info.value, ki);
      return Success, ki, Some(ki);
    }

    method KernelKext(id: Name, info: Answer<LoadInfo>, loaded: Answer<Loaded>)
      returns (r: KextResult, kext: KextInfo?, ghost made: Option<KextInfo>)
      requires Consistent() && SymtabsValid() && CountsFit() && info.IsProper() && loaded.IsProper()
      modifies this, kexts, state.entries.Keys
      ensures Consistent() && SymtabsValid() && (r == Success <==> kext != null)
      ensures kext != null ==> kext.SymtabValid()
      ensures made.Some? ==> fresh(made.value) && fresh(made.value.symtab)
                             && info.Got? && loaded.Got? && IsLoadedFrom(made.value, info.value, loaded.value)
      ensures id == KERNEL_ID ==> kext == kernel && state == old(state)
      ensures id != KERNEL_ID ==>
                var e := Get(id, info.ToOption(), made);
                && Enabled(old(state), e) && state == Step(old(state), e)
                && Returned(old(state), e) == (if kext == null then None else Some(kext))
      ensures id != KERNEL_ID && info.Failed? ==> r == info.code
      ensures id != KERNEL_ID && info.Got? && !IsCurrent(old(state), id, info.value) ==>
                (made.Some? <==> loaded.Got?) && (loaded.Failed? ==> r == loaded.code)
      ensures id == KERNEL_ID || info.Failed? || IsCurrent(old(state), id, info.value) ==> made == None
    {
      hide Consistent, Step, Enabled, Returned, IsCurrent, IsLoadedFrom, KextInfo.SymtabValid;
      if id == KERNEL_ID {
        return Success, kernel, None;
      }
      r, kext, made := LookUp(id, info, loaded);
    }

    /** Gives back a handle to an object of the cache. */
    method DropHandle(kext: KextInfo)
      requires Consistent() && kext in state.handles
      modifies this`state, kext`refcount
      ensures Consistent() && Enabled(old(state), Release(kext)) && state == Step(old(state), Release(kext))
      ensures state.entries.Keys <= old(state).entries.Keys
    {
      hide Inv, Represents, Drop, Reap, Released;
      ghost var s := state;
      InvFacts(s, kext);
      DropKeepsInv(s, kext);
      DropIsReap(s, kext);
      kext.refcount := kext.refcount - 1;
      state := Released(s, kext);
      HandleKextRelease(kext);
    }

    /** Gives back a handle. The kernel itself is not counted. */
    method KextRelease(kext: KextInfo)
      requires Consistent() && SymtabsValid() && (kext == kernel || kext in state.handles)
      modifies this`state, kext`refcount
      ensures Consistent() && SymtabsValid()
      ensures kext == kernel ==> state == old(state)
      ensures kext != kernel ==> Enabled(old(state), Release(kext))
                                 && state == Step(old(state), Release(kext))
    {
      hide Consistent, Step, Enabled, KextInfo.SymtabValid;
      if kext == kernel {
        return;
      }
      DropHandle(kext);
    }
  }

  lemma RepresentedAt(ks: seq<KextInfo>, m: map<Name, KextInfo>, i: nat)
    requires Represents(ks, m) && i < |ks|
    ensures ks[i].bundleId in m && m[ks[i].bundleId] == ks[i]
  {
    assert ks[i] in ks;
  }

  /** What handle_kext_release does to the state. */
  ghost function Reap(s: State<KextInfo>, k: KextInfo): State<KextInfo>
    requires k in s.entries
  {
    if s.entries[k].refcount == 0 && s.entries[k].outdated
    then s.(entries := s.entries - {k}, freed := s.freed + {k})
    else s
  }

  /** The state with the object outdated and out of the cache, before it may be destroyed. */
  ghost function Outdated(s: State<KextInfo>, k: KextInfo): State<KextInfo>
    requires k in s.entries
  {
    s.(cached := s.cached - {k.bundleId}, entries := s.entries[k := s.entries[k].(outdated := true)])
  }

  /** Evicting is marking as outdated and then reaping; no other entry changes. */
  lemma EvictIsReap(s: State<KextInfo>, k: KextInfo)
    requires k in s.entries && k.bundleId in s.cached && s.cached[k.bundleId] == k
    ensures var r, s' := Outdated(s, k), Evict(s, k.bundleId);
            && k in r.entries && r.entries[k] == s.entries[k].(outdated := true)
            && s' == Reap(r, k)
            && s'.cached == s.cached - {k.bundleId} && s'.freed <= s.freed + {k}
            && (forall j <- s'.entries :: j in s.entries)
            && (forall j <- s'.entries :: j != k ==> s'.entries[j] == s.entries[j])
            && (k in s'.entries ==> s'.entries[k] == r.entries[k])
  {
  }

  lemma StepFails(s: State<KextInfo>, id: Name)
    ensures var e := Get(id, None, None);
            Enabled(s, e) && Step(s, e) == s && Returned(s, e) == None
  {
  }

  lemma StepFinds(s: State<KextInfo>, id: Name, li: LoadInfo)
    ensures var e := Get(id, Some(li), None);
            && Enabled(s, e)
            && (IsCurrent(s, id, li) ==>
                  Step(s, e) == Retain(s, s.cached[id]) && Returned(s, e) == Some(s.cached[id]))
            && (!IsCurrent(s, id, li) ==> Step(s, e) == Evict(s, id) && Returned(s, e) == None)
  {
  }

  lemma StepInstalls(s: State<KextInfo>, id: Name, li: LoadInfo, k: KextInfo)
    requires !IsCurrent(s, id, li) && k !in s.entries && k !in s.freed
    ensures var e := Get(id, Some(li), Some(k));
            && Enabled(s, e) && Step(s, e) == Install(Evict(s, id), id, li, k)
            && Returned(s, e) == Some(k)
  {
  }

  lemma RetainKeepsObjects(s: State<KextInfo>, k: KextInfo)
    requires k in s.entries
    ensures Retain(s, k).entries.Keys == s.entries.Keys
  {
  }

  lemma InstallAddsObject(s: State<KextInfo>, id: Name, info: LoadInfo, k: KextInfo)
    ensures var s' := Install(s, id, info, k);
            && s'.entries.Keys == s.entries.Keys + {k}
            && s'.entries[k] == Entry(id, info, 1, false)
            && (forall j <- s.entries :: j != k ==> s'.entries[j] == s.entries[j])
            && s'.cached == s.cached[id := k] && s'.freed == s.freed
  {
  }

  lemma EvictKeepsAbsent(s: State<KextInfo>, id: Name)
    ensures Evict(s, id).entries.Keys <= s.entries.Keys
    ensures Evict(s, id).freed <= s.freed + s.entries.Keys
  {
  }

  /** The state with one handle less, before the object may be destroyed. */
  ghost function Released(s: State<KextInfo>, k: KextInfo): State<KextInfo>
    requires k in s.entries && s.entries[k].refcount >= 1
  {
    var entry := s.entries[k];
    s.(handles := s.handles - multiset{k}, entries := s.entries[k := entry.(refcount := entry.refcount - 1)])
  }

  /** Dropping a handle is releasing and then reaping; no other entry changes. */
  lemma DropIsReap(s: State<KextInfo>, k: KextInfo)
    requires k in s.entries && s.entries[k].refcount >= 1
    ensures var entry, r := s.entries[k], Released(s, k);
            && k in r.entries && r.entries[k] == entry.(refcount := entry.refcount - 1)
            && Drop(s, k) == Reap(r, k)
    ensures var s' := Drop(s, k);
            && s'.cached == s.cached && s'.freed <= s.freed + {k}
            && (forall j <- s'.entries :: j in s.entries)
            && (forall j <- s'.entries :: j != k ==> s'.entries[j] == s.entries[j])
            && (k in s'.entries ==> s'.entries[k] == Released(s, k).entries[k])
  {
  }

  lemma EvictNothing(s: State<KextInfo>, id: Name)
    requires id !in s.cached
    ensures Evict(s, id) == s
  {
  }

  lemma PlacedIsAbsent(ks: seq<KextInfo>, m: map<Name, KextInfo>, id: Name, i: nat)
    requires Represents(ks, m) && Place(ks, id, i)
    ensures id !in m
  {
    forall k <- ks ensures k.bundleId != id {
      CompareNamesEqual(id, k.bundleId);
    }
  }

  lemma CachedFacts(s: State<KextInfo>, id: Name)
    requires Inv(s) && id in s.cached
    ensures s.cached[id] in s.entries && s.entries[s.cached[id]].bundleId == id
  {
  }
}
