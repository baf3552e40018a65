/** The range finders that walk the kernel's virtual memory map: heap-only and safe transfers. */
module KernelMemory {
  import opened Common
  import opened Pages
  import opened TaskMemory

  // ---- The memory map ----

  datatype Protection = Read | Write | Execute

  datatype ShareMode = Cow | Private | Empty | Shared | TrueShared | PrivateAliased | SharedAliased

  const VM_KERN_MEMORY_ZONE := 12
  const VM_KERN_MEMORY_KALLOC := 13

  datatype Region = Region(start: nat, size: nat, protection: set<Protection>, shareMode: ShareMode, tag: nat) {
    function End(): nat { start + size }

    predicate Contains(x: int) { start <= x < End() }
  }

  predicate RegionIsHeap(r: Region) {
    && {Read, Write} <= r.protection
    && r.shareMode != Empty
    && (r.tag == VM_KERN_MEMORY_ZONE || r.tag == VM_KERN_MEMORY_KALLOC)
  }

  predicate RegionLooksSafe(r: Region, isWrite: bool) {
    && (if isWrite then Write else Read) in r.protection
    && r.shareMode != Empty
  }

  /**
    The kernel's map: its regions in order, the page size, and the physical page number that backs the page
    starting at a given address (0 when the page is not mapped).
  */
  datatype Map = Map(regions: seq<Region>, pageSize: nat, frame: int -> nat)

  ghost predicate PageAligned(r: Region, pageSize: nat)
    requires pageSize > 0
  {
    r.size > 0 && r.start % pageSize == 0 && r.End() % pageSize == 0 && r.End() <= TWO_64
  }

  /** The regions are nonempty, made of whole pages, in order and disjoint. */
  ghost predicate ValidMap(m: Map) {
    && IsPageSize(m.pageSize)
    && (forall r <- m.regions :: PageAligned(r, m.pageSize))
    && (forall i, j :: 0 <= i < j < |m.regions| ==> m.regions[i].End() <= m.regions[j].start)
  }

  predicate Mapped(m: Map, x: nat)
    requires m.pageSize > 0
  {
    m.frame(PageStart(x, m.pageSize)) != 0
  }

  lemma MappedByPage(m: Map, p: nat, x: nat)
    requires m.pageSize > 0 && p % m.pageSize == 0 && p <= x < p + m.pageSize
    ensures Mapped(m, x) <==> m.frame(p) != 0
  {
    PageOf(p, x, m.pageSize);
  }

  /** The region a lookup at x reports: the first one that ends above x. */
  function Lookup(regions: seq<Region>, x: nat): Option<Region> {
    if |regions| == 0 then None
    else if x < regions[0].End() then Some(regions[0])
    else Lookup(regions[1..], x)
  }

  lemma {:induction false} LookupIsFirst(regions: seq<Region>, x: nat) returns (i: nat)
    ensures match Lookup(regions, x)
      case None => forall r <- regions :: r.End() <= x
      case Some(r) =>
        i < |regions| && r == regions[i] && x < r.End() && forall j :: 0 <= j < i ==> regions[j].End() <= x
  {
    i := 0;
    if |regions| > 0 && x >= regions[0].End() {
      i := LookupIsFirst(regions[1..], x);
      i := i + 1;
    }
  }

  /** x lies in a region that is good. */
  ghost predicate InGoodRegion(m: Map, good: Region -> bool, x: int) {
    exists r <- m.regions :: r.Contains(x) && good(r)
  }

  /** Every region is the one a lookup at x reports, or ends at or below x before it, or starts behind it. */
  lemma LookupSeparates(m: Map, x: nat, q: Region)
    requires ValidMap(m) && q in m.regions
    ensures match Lookup(m.regions, x)
      case None => q.End() <= x
      case Some(r) => q == r || (q.End() <= x && q.End() <= r.start) || r.End() <= q.start
  {
    hide PageAligned;
    var i := LookupIsFirst(m.regions, x);
    var j :| 0 <= j < |m.regions| && m.regions[j] == q;
  }

  lemma LookupFinds(m: Map, x: nat)
    requires ValidMap(m)
    ensures match Lookup(m.regions, x)
      case None => true
      case Some(r) => r in m.regions && PageAligned(r, m.pageSize) && x < r.End()
  {
    var i := LookupIsFirst(m.regions, x);
  }

  ghost function GoodBytes(m: Map, good: Region -> bool): int -> bool {
    x => InGoodRegion(m, good, x)
  }

  /** What a lookup at x tells about the addresses from x on: nothing above it is in a region ... */
  lemma NothingFound(m: Map, good: Region -> bool, x: nat)
    requires ValidMap(m) && Lookup(m.regions, x).None?
    ensures NoneViable(GoodBytes(m, good), x, TWO_64)
  {
    forall q | q in m.regions ensures q.End() <= x { LookupSeparates(m, x, q); }
  }

  /** ... or the bytes before the region found are in none, and those inside it are good if the region is. */
  lemma RegionFound(m: Map, good: Region -> bool, x: nat, r: Region)
    requires ValidMap(m) && Lookup(m.regions, x) == Some(r)
    ensures r in m.regions && x < r.End() <= TWO_64 && r.start < r.End()
    ensures m.pageSize > 0 && OnPage(r.start, m.pageSize) && OnPage(r.End(), m.pageSize)
    ensures NoneViable(GoodBytes(m, good), x, r.start)
    ensures good(r) ==> AllViable(GoodBytes(m, good), r.start, r.End())
    ensures !good(r) ==> NoneViable(GoodBytes(m, good), x, r.End())
  {
    hide ValidMap;
    assert m.pageSize > 0 by { ValidPageSize(m); }
    LookupFinds(m, x);
    forall q | q in m.regions ensures q == r || q.End() <= x || r.End() <= q.start { LookupSeparates(m, x, q); }
  }

  lemma ValidPageSize(m: Map)
    requires ValidMap(m)
    ensures m.pageSize > 0 && OnPage(TWO_64, m.pageSize)
  {
  }

  /** Why the byte at x cannot be transferred: it is in a region that is not good, or it is not mapped at all. */
  ghost function FailureAt(m: Map, good: Region -> bool, x: int): IoResult {
    if exists r <- m.regions :: r.Contains(x) && !good(r) then Protection else Unmapped
  }

  lemma FailureFacts(m: Map, good: Region -> bool, x: nat)
    requires ValidMap(m)
    ensures match Lookup(m.regions, x)
      case None => FailureAt(m, good, x) == Unmapped
      case Some(r) => forall y :: x <= y < r.End() ==>
        FailureAt(m, good, y) == if r.start <= y && !good(r) then Protection else Unmapped
  {
    hide ValidMap;
    LookupFinds(m, x);
    forall q | q in m.regions { LookupSeparates(m, x, q); }
  }

  // ---- Building an answer ----

  lemma EmptyRange(viable: int -> bool, x: int)
    ensures AllViable(viable, x, x)
  {
  }

  lemma PrefixGrows(viable: int -> bool, lo: int, mid: int, end: int, start: int, limit: int)
    requires AllViable(viable, lo, mid) && AllViable(viable, start, limit)
    requires start <= mid && end <= limit
    ensures AllViable(viable, lo, end)
  {
  }

  /** A failure at the first byte that is not viable, going on at a page boundary before which nothing is viable. */
  lemma StopsHere(viable: int -> bool, pageSize: nat, address: nat, n: nat, answer: RangeAnswer, next: nat)
    requires pageSize > 0 && !answer.code.Success? && answer.size < n
    requires AllViable(viable, address, address + answer.size)
    requires address + answer.size < next <= TWO_64 && OnPage(next, pageSize)
    requires NoneViable(viable, address + answer.size, next)
    requires answer.next == if next == TWO_64 then 0 else next
    ensures FinderAnswers(viable, pageSize, address, n, answer)
  {
  }

  lemma GrantsAll(viable: int -> bool, pageSize: nat, address: int, n: nat, answer: RangeAnswer)
    requires pageSize > 0 && answer.code.Success? && answer.size == n
    requires AllViable(viable, address, address + n)
    requires answer.next == Wrap(address + n)
    ensures FinderAnswers(viable, pageSize, address, n, answer)
  {
  }

  lemma WrapsOnlyAtTheTop(x: nat)
    requires x <= TWO_64
    ensures Wrap(x) == if x == TWO_64 then 0 else x
  {
  }

  // ---- Heap transfers ----

  ghost function HeapBytes(m: Map): int -> bool {
    GoodBytes(m, RegionIsHeap)
  }

  /** Heap bytes lie in a region that is readable and writable, not empty, and tagged as zone or kalloc memory. */
  lemma HeapBytesAre(m: Map, x: int)
    ensures HeapBytes(m)(x)
       <==> exists r <- m.regions ::
              && r.start <= x < r.start + r.size
              && Read in r.protection && Write in r.protection && r.shareMode != Empty && (r.tag == 12 || r.tag == 13)
    ensures FailureAt(m, RegionIsHeap, x).Protection?
       <==> exists r <- m.regions ::
              && r.start <= x < r.start + r.size
              && (Read !in r.protection || Write !in r.protection || r.shareMode == Empty
                  || (r.tag != 12 && r.tag != 13))
    ensures FailureAt(m, RegionIsHeap, x).Protection? || FailureAt(m, RegionIsHeap, x).Unmapped?
  {
  }

  /** Where an unexpected error of the lookup at x lets the caller go on: the next page. */
  function PageAfter(x: nat, pageSize: nat): Word
    requires pageSize > 0
  {
    Wrap(PageStart(x, pageSize) + pageSize)
  }

  /** Behind the topmost page there is none, and 0 says so. */
  lemma PageAfterIsNext(x: Word, pageSize: nat)
    requires IsPageSize(pageSize)
    ensures PageAfter(x, pageSize) == 0 <==> TWO_64 - pageSize <= x
    ensures PageAfter(x, pageSize) != 0 ==>
      x < PageAfter(x, pageSize) <= x + pageSize && PageAfter(x, pageSize) % pageSize == 0
  {
    hide IsPageSize, Wrap, PageStart;
    PageSizeDivides(pageSize);
    NextPage(x, pageSize);
    var stop := PageStart(x, pageSize) + pageSize;
    WrapsOnlyAtTheTop(stop);
    PageBounds(x, pageSize);
    if stop < TWO_64 { PagesApart(stop, TWO_64, pageSize); }
  }

  lemma PageSizeDivides(pageSize: nat)
    requires IsPageSize(pageSize)
    ensures pageSize > 0 && OnPage(TWO_64, pageSize)
  {
  }

  /** A range finder gave up because the lookup behind the bytes it found had failed. */
  ghost predicate GaveUp(viable: int -> bool, m: Map, fails: Word -> bool, address: Word, n: nat, answer: RangeAnswer)
    requires m.pageSize > 0
  {
    && answer.size < n && address + answer.size < TWO_64
    && fails(address + answer.size)
    && AllViable(viable, address, address + answer.size)
    && answer.next == PageAfter(address + answer.size, m.pageSize)
  }

  /**
    Finds the part of a request that is on the heap; `fails` says which lookups return an unexpected error.
    Without such an error the answer is exactly the longest prefix of heap bytes and skips none of them.
  */
  method TransferRangeHeap(m: Map, fails: Word -> bool, address: Word, size: nat, access: nat)
    returns (answer: RangeAnswer)
    requires ValidMap(m) && address + size <= TWO_64
    ensures answer.access == access
    ensures answer.code.Success? ==> answer.size == size
    ensures answer.code.Error? ==> GaveUp(HeapBytes(m), m, fails, address, size, answer)
    ensures !answer.code.Error? ==> FinderAnswers(HeapBytes(m), m.pageSize, address, size, answer)
    ensures !answer.code.Error? && answer.size < size ==>
      answer.code == FailureAt(m, RegionIsHeap, address + answer.size)
  {
    hide RegionIsHeap, AllViable, NoneViable, FinderAnswers, PageAfter, Wrap, ValidMap, GoodBytes, FailureAt;
    ValidPageSize(m);
    ghost var heap := HeapBytes(m);
    var kaddr, left: nat := address, size;
    var transferSize: nat := 0;
    var code := Success;
    var nextViable: Word := Wrap(address + size);
    ghost var stop: nat := 0;
    assert AllViable(heap, address, address) by { EmptyRange(heap, address); }
    while left > 0
      invariant transferSize + left == size && kaddr == address + transferSize
      invariant AllViable(heap, address, kaddr)
    {
      if fails(kaddr) {
        code, nextViable := Error, PageAfter(kaddr, m.pageSize);
        break;
      }
      FailureFacts(m, RegionIsHeap, kaddr);
      var found := Lookup(m.regions, kaddr);
      if found.None? {
        code, nextViable := Unmapped, 0;
        NothingFound(m, RegionIsHeap, kaddr);
        stop := TWO_64;
        break;
      }
      var region := found.value;
      RegionFound(m, RegionIsHeap, kaddr, region);
      WrapsOnlyAtTheTop(region.End());
      var viable := RegionIsHeap(region);
      stop := region.End();
      if region.start > kaddr {
        code := Unmapped;
        if viable {
          nextViable := region.start;
          stop := region.start;
        } else {
          nextViable := Wrap(region.End());
        }
        break;
      }
      if !viable {
        code, nextViable := Protection, Wrap(region.End());
        break;
      }
      var regionSize := Min(left, region.size - (kaddr - region.start));
      PrefixGrows(heap, address, kaddr, kaddr + regionSize, region.start, region.End());
      kaddr := kaddr + regionSize;
      left := left - regionSize;
      transferSize := transferSize + regionSize;
    }
    answer := RangeAnswer(code, transferSize, access, nextViable);
    if code.Success? {
      GrantsAll(heap, m.pageSize, address, size, answer);
    } else if !code.Error? {
      StopsHere(heap, m.pageSize, address, size, answer, stop);
    }
  }

  // ---- Safe transfers ----

  /**
    The bytes a safe transfer may touch: in a region that looks safe and on a mapped page. With `unchecked`, the
    pages of a region that reaches the top of the address space need not be mapped.
  */
  ghost predicate IsSafe(m: Map, isWrite: bool, unchecked: bool, x: int)
    requires m.pageSize > 0
  {
    exists r <- m.regions ::
      r.Contains(x) && RegionLooksSafe(r, isWrite) && (Mapped(m, x) || (unchecked && r.End() == TWO_64))
  }

  ghost function LooksSafe(isWrite: bool): Region -> bool {
    r => RegionLooksSafe(r, isWrite)
  }

  ghost function SafeBytes(m: Map, isWrite: bool, unchecked: bool): int -> bool
    requires m.pageSize > 0
  {
    x => IsSafe(m, isWrite, unchecked, x)
  }

  lemma SafeIsGood(m: Map, isWrite: bool, unchecked: bool, lo: nat, hi: nat)
    requires m.pageSize > 0
    requires NoneViable(GoodBytes(m, LooksSafe(isWrite)), lo, hi)
    ensures NoneViable(SafeBytes(m, isWrite, unchecked), lo, hi)
  {
    hide RegionLooksSafe;
    var good := GoodBytes(m, LooksSafe(isWrite));
    forall x | lo <= x < hi
      ensures !SafeBytes(m, isWrite, unchecked)(x)
    {
      assert !good(x);
    }
  }

  /** Inside a region that looks safe, the mapped bytes are the safe ones, but for the unchecked top region. */
  lemma SafeInRegion(m: Map, isWrite: bool, unchecked: bool, x: nat, r: Region, y: nat)
    requires ValidMap(m) && Lookup(m.regions, x) == Some(r)
    requires r.start <= x && r.Contains(y) && RegionLooksSafe(r, isWrite)
    ensures m.pageSize > 0
    ensures IsSafe(m, isWrite, unchecked, y) <==> Mapped(m, y) || (unchecked && r.End() == TWO_64)
  {
    hide RegionLooksSafe, Mapped, ValidMap;
    ValidPageSize(m);
    LookupFinds(m, x);
    if IsSafe(m, isWrite, unchecked, y) {
      var q :| q in m.regions && q.Contains(y) && RegionLooksSafe(q, isWrite)
               && (Mapped(m, y) || (unchecked && q.End() == TWO_64));
      LookupSeparates(m, x, q);
    }
  }

  ghost predicate AllMapped(m: Map, lo: nat, hi: nat)
    requires m.pageSize > 0
  {
    forall x :: lo <= x < hi ==> Mapped(m, x)
  }

  ghost predicate NoneMapped(m: Map, lo: nat, hi: nat)
    requires m.pageSize > 0
  {
    forall x :: lo <= x < hi ==> !Mapped(m, x)
  }

  lemma FirstPage(m: Map, kaddr: nat)
    requires IsPageSize(m.pageSize)
    ensures m.pageSize > 0
    ensures var p := PageStart(kaddr, m.pageSize);
      p <= kaddr < p + m.pageSize && OnPage(p, m.pageSize) && AllMapped(m, kaddr, p)
  {
    hide Mapped;
    PageBounds(kaddr, m.pageSize);
  }

  /** A page is mapped or not as a whole. */
  lemma PageStep(m: Map, kaddr: nat, p: nat)
    requires IsPageSize(m.pageSize) && OnPage(p, m.pageSize) && p < TWO_64
    ensures p + m.pageSize <= TWO_64 && OnPage(p + m.pageSize, m.pageSize) && OnPage(0, m.pageSize)
    ensures AllMapped(m, kaddr, p) && m.frame(p) != 0 ==> AllMapped(m, kaddr, p + m.pageSize)
    ensures m.frame(p) == 0 ==> NoneMapped(m, p, p + m.pageSize)
    ensures AllMapped(m, kaddr, kaddr)
  {
    hide Mapped;
    PagesApart(p, TWO_64, m.pageSize);
    RemainderOfSum(1, 0, m.pageSize);
    MultiplesAdd(p, m.pageSize, m.pageSize);
    forall x | p <= x < p + m.pageSize
      ensures Mapped(m, x) <==> m.frame(p) != 0
    {
      MappedByPage(m, p, x);
    }
  }

  lemma FewerMapped(m: Map, lo: nat, hi: nat, mid: nat)
    requires m.pageSize > 0 && mid <= hi
    ensures AllMapped(m, lo, hi) ==> AllMapped(m, lo, mid)
    ensures NoneMapped(m, lo, hi) && lo <= mid ==> NoneMapped(m, mid, hi)
  {
  }

  /** The page counter can stop. */
  ghost predicate SomePageIsUnmapped(m: Map)
    requires m.pageSize > 0
  {
    exists p: nat :: p < TWO_64 && OnPage(p, m.pageSize) && m.frame(p) == 0
  }

  /** The page counter has passed the topmost page, and `next` is behind the first page that is not mapped. */
  ghost predicate StartsOver(m: Map, next: Word)
    requires m.pageSize > 0
  {
    exists p: nat :: p < TWO_64 && OnPage(p, m.pageSize) && m.frame(p) == 0 && AllMapped(m, 0, p)
      && next == Wrap(p + m.pageSize)
  }

  lemma NotAllMapped(m: Map, hi: nat)
    requires IsPageSize(m.pageSize)
    ensures SomePageIsUnmapped(m) && AllMapped(m, 0, hi) ==> hi < TWO_64
  {
    if SomePageIsUnmapped(m) && AllMapped(m, 0, hi) {
      var p: nat :| p < TWO_64 && OnPage(p, m.pageSize) && m.frame(p) == 0;
      MappedByPage(m, p, p);
      assert !Mapped(m, p);
    }
  }

  lemma UnmappedIsBelow(m: Map, lo: nat, hi: nat, p: nat)
    requires m.pageSize > 0 && AllMapped(m, lo, hi) && NoneMapped(m, p, p + m.pageSize) && p < hi
    ensures p < lo
  {
    assert !Mapped(m, p);
  }

  /**
    How a check of the pages under partSize bytes from kaddr on comes out. A `stop` above 0 is the end of the
    first page that is not mapped; 0 means that the page counter started over and stopped somewhere below.
  */
  ghost predicate PagesChecked(m: Map, kaddr: Word, partSize: nat, truncated: bool, size: nat, next: Word, stop: nat)
    requires m.pageSize > 0
  {
    var end := kaddr + partSize;
    if !truncated then
      size == partSize && (end < TWO_64 ==> end <= TWO_64 - m.pageSize && AllMapped(m, kaddr, end))
    else if stop == 0 then
      && size == 0 && StartsOver(m, next)
      && TWO_64 - m.pageSize < end < TWO_64 && AllMapped(m, kaddr, end)
    else
      && size < partSize && end < TWO_64 && AllMapped(m, kaddr, kaddr + size)
      && kaddr + size < stop <= TWO_64 && NoneMapped(m, kaddr + size, stop)
      && OnPage(stop, m.pageSize) && stop - m.pageSize <= kaddr + size && next == Wrap(stop)
  }

  /**
    Checks the pages under a part of a region, up to the first one that is not mapped. Both the end of the part
    and the page counter are 64-bit values: nothing is checked when the part ends at the top of the address
    space, and the counter starts over from page 0 when it passes the topmost page.
  */
  method CheckPages(m: Map, kaddr: Word, partSize: nat)
    returns (truncated: bool, size: nat, next: Word)
    requires IsPageSize(m.pageSize) && 0 < partSize && kaddr + partSize <= TWO_64
    requires TWO_64 - m.pageSize < kaddr + partSize < TWO_64 ==> SomePageIsUnmapped(m)
    ensures exists stop: nat :: PagesChecked(m, kaddr, partSize, truncated, size, next, stop)
  {
    hide Mapped, Wrap, AllMapped, NoneMapped, IsPageSize, OnPage, PageStart;
    truncated, size, next := false, partSize, 0;
    ghost var stop: nat := 0;
    FirstPage(m, kaddr);
    var unmapped: Word := PageStart(kaddr, m.pageSize);
    var limit := Wrap(kaddr + partSize);
    WrapsOnlyAtTheTop(kaddr + partSize);
    ghost var wrapped := false;
    while unmapped < limit
      invariant OnPage(unmapped, m.pageSize)
      invariant wrapped ==> TWO_64 - m.pageSize < kaddr + partSize && AllMapped(m, kaddr, kaddr + partSize)
      invariant wrapped ==> AllMapped(m, 0, unmapped)
      invariant !wrapped ==> kaddr < unmapped + m.pageSize && AllMapped(m, kaddr, unmapped)
      invariant !wrapped && kaddr < unmapped ==> unmapped < kaddr + partSize + m.pageSize
      decreases !wrapped, limit - unmapped
    {
      PageStep(m, kaddr, unmapped);
      PageStep(m, 0, unmapped);
      if m.frame(unmapped) == 0 {
        if wrapped {
          UnmappedIsBelow(m, kaddr, kaddr + partSize, unmapped);
          assert StartsOver(m, Wrap(unmapped + m.pageSize));
        }
        if !wrapped && unmapped < kaddr { FewerMapped(m, unmapped, unmapped + m.pageSize, kaddr); }
        truncated := true;
        size := if unmapped > kaddr then unmapped - kaddr else 0;
        next := Wrap(unmapped + m.pageSize);
        stop := if wrapped then 0 else unmapped + m.pageSize;
        break;
      }
      WrapsOnlyAtTheTop(unmapped + m.pageSize);
      if wrapped { NotAllMapped(m, unmapped + m.pageSize); }
      wrapped := wrapped || unmapped + m.pageSize == TWO_64;
      if unmapped + m.pageSize == TWO_64 { FewerMapped(m, kaddr, TWO_64, kaddr + partSize); }
      unmapped := Wrap(unmapped + m.pageSize);
    }
    if !truncated {
      PageStep(m, kaddr, unmapped);
      if !wrapped && limit != 0 { FewerMapped(m, kaddr, unmapped, kaddr + partSize); }
    }
    assert PagesChecked(m, kaddr, partSize, truncated, size, next, stop);
  }

  /** What a part of a safe-looking region that was checked to be mapped adds to the answer. */
  lemma PartIsSafe(m: Map, isWrite: bool, unchecked: bool, kaddr: nat, r: Region, lo: nat, hi: nat)
    requires ValidMap(m) && Lookup(m.regions, kaddr) == Some(r)
    requires r.start <= kaddr <= lo <= hi <= r.End() && RegionLooksSafe(r, isWrite)
    ensures m.pageSize > 0
    ensures AllMapped(m, lo, hi) || (unchecked && r.End() == TWO_64) ==>
      AllViable(SafeBytes(m, isWrite, unchecked), lo, hi)
    ensures NoneMapped(m, lo, hi) && !(unchecked && r.End() == TWO_64) ==>
      NoneViable(SafeBytes(m, isWrite, unchecked), lo, hi)
  {
    hide RegionLooksSafe, Mapped, ValidMap, IsSafe;
    ValidPageSize(m);
    forall x | lo <= x < hi
      ensures IsSafe(m, isWrite, unchecked, x) <==> Mapped(m, x) || (unchecked && r.End() == TWO_64)
    {
      SafeInRegion(m, isWrite, unchecked, kaddr, r, x);
    }
  }

  /**
    A byte is safe exactly if some region that contains it is not empty and grants what is asked for, writing for a
    write and reading for a read, and its page is mapped, or is not checked. A byte that cannot be transferred is
    reported as protected exactly if some region that contains it does not grant that, and as unmapped otherwise.
  */
  lemma SafeBytesAre(m: Map, isWrite: bool, unchecked: bool, x: int)
    requires m.pageSize > 0
    ensures SafeBytes(m, isWrite, unchecked)(x)
       <==> exists r <- m.regions ::
              && r.start <= x < r.start + r.size
              && (isWrite ==> Write in r.protection) && (!isWrite ==> Read in r.protection) && r.shareMode != Empty
              && (m.frame(x - x % m.pageSize) != 0 || (unchecked && r.start + r.size == TWO_64))
    ensures FailureAt(m, LooksSafe(isWrite), x).Protection?
       <==> exists r <- m.regions ::
              && r.start <= x < r.start + r.size
              && (r.shareMode == Empty || if isWrite then Write !in r.protection else Read !in r.protection)
    ensures FailureAt(m, LooksSafe(isWrite), x).Protection? || FailureAt(m, LooksSafe(isWrite), x).Unmapped?
  {
  }

  /** The ways a search for a safe range can end. */
  ghost predicate SafeAnswer(m: Map, isWrite: bool, fails: Word -> bool, address: Word, n: nat, answer: RangeAnswer)
    requires m.pageSize > 0
  {
    var safe := SafeBytes(m, isWrite, address + n == TWO_64);
    if answer.code.Error? then GaveUp(safe, m, fails, address, n, answer)
    else if TWO_64 - m.pageSize < address + n < TWO_64 && n > 0 && AllViable(safe, address, address + n) then
      answer.code.Unmapped? && answer.size < n && StartsOver(m, answer.next)
    else
      (answer.code.Success? ==> answer.size == n) && FinderAnswers(safe, m.pageSize, address, n, answer)
  }

  /** The search stopped at a byte that is not safe, or started over from page 0 with the request all safe. */
  ghost predicate Stopped(m: Map, isWrite: bool, address: nat, n: nat, k: nat, code: IoResult, next: Word, stop: nat)
    requires m.pageSize > 0
  {
    var safe := SafeBytes(m, isWrite, address + n == TWO_64);
    && k < n
    && code == FailureAt(m, LooksSafe(isWrite), address + k)
    && if stop == 0 then
         TWO_64 - m.pageSize < address + n < TWO_64 && AllViable(safe, address, address + n)
         && code.Unmapped? && StartsOver(m, next)
       else
         address + k < stop <= TWO_64 && OnPage(stop, m.pageSize) && NoneViable(safe, address + k, stop)
         && next == Wrap(stop)
  }

  /** What the check of the pages under a part of a safe-looking region means for the search. */
  lemma CheckedPart(m: Map, isWrite: bool, address: nat, n: nat, kaddr: Word, r: Region, partSize: nat,
                    truncated: bool, size: nat, next: Word, stop: nat)
    requires ValidMap(m) && Lookup(m.regions, kaddr) == Some(r)
    requires r.start <= kaddr && RegionLooksSafe(r, isWrite)
    requires address <= kaddr < address + n <= TWO_64
    requires partSize == Min(address + n - kaddr, r.End() - kaddr)
    requires m.pageSize > 0 && PagesChecked(m, kaddr, partSize, truncated, size, next, stop)
    requires AllViable(SafeBytes(m, isWrite, address + n == TWO_64), address, kaddr)
    ensures size <= partSize
    ensures AllViable(SafeBytes(m, isWrite, address + n == TWO_64), address, kaddr + size)
    ensures truncated ==> Stopped(m, isWrite, address, n, kaddr - address + size, Unmapped, next, stop)
    ensures !truncated ==> size == partSize
    ensures !truncated ==> kaddr + size <= TWO_64 - m.pageSize || kaddr + size == TWO_64
  {
    hide RegionLooksSafe, AllViable, NoneViable, Wrap, ValidMap, SafeBytes, AllMapped, NoneMapped, Lookup, OnPage,
         FailureAt;
    var unchecked := address + n == TWO_64;
    var safe := SafeBytes(m, isWrite, unchecked);
    RegionBounds(m, kaddr, r);
    FailureFacts(m, LooksSafe(isWrite), kaddr);
    if truncated && stop == 0 {
      PartIsSafe(m, isWrite, unchecked, kaddr, r, kaddr, kaddr + partSize);
      PrefixGrows(safe, address, kaddr, address + n, kaddr, kaddr + partSize);
    } else {
      PartIsSafe(m, isWrite, unchecked, kaddr, r, kaddr, kaddr + size);
      PrefixGrows(safe, address, kaddr, kaddr + size, kaddr, kaddr + size);
      if truncated {
        PageWithin(stop, r.End(), m.pageSize);
        PartIsSafe(m, isWrite, unchecked, kaddr, r, kaddr + size, stop);
      }
    }
  }

  lemma RegionBounds(m: Map, x: nat, r: Region)
    requires ValidMap(m) && Lookup(m.regions, x) == Some(r)
    ensures m.pageSize > 0 && x < r.End() <= TWO_64 && OnPage(r.End(), m.pageSize)
    ensures r.End() < TWO_64 ==> r.End() <= TWO_64 - m.pageSize
  {
    LookupFinds(m, x);
    if r.End() < TWO_64 { PagesApart(r.End(), TWO_64, m.pageSize); }
  }

  lemma PageWithin(stop: nat, end: nat, pageSize: nat)
    requires pageSize > 0 && OnPage(stop, pageSize) && OnPage(end, pageSize) && stop - pageSize < end
    ensures stop <= end
  {
    if end < stop { PagesApart(end, stop, pageSize); }
  }

  /** A page is safe or not as a whole. */
  lemma SafePage(m: Map, isWrite: bool, x: nat)
    requires ValidMap(m) && IsSafe(m, isWrite, false, x)
    ensures m.pageSize > 0 && IsSafe(m, isWrite, false, PageStart(x, m.pageSize))
  {
    var r :| r in m.regions && r.Contains(x) && RegionLooksSafe(r, isWrite) && Mapped(m, x);
    var p := PageStart(x, m.pageSize);
    PageBounds(x, m.pageSize);
    if p < r.start { PagesApart(p, r.start, m.pageSize); }
    PageOf(p, p, m.pageSize);
    assert Mapped(m, p) && r.Contains(p);
  }

  /** A safe-looking region that reaches into the topmost page makes it safe, if it is mapped. */
  lemma TopmostPage(m: Map, isWrite: bool, x: nat, r: Region)
    requires ValidMap(m) && Lookup(m.regions, x) == Some(r) && RegionLooksSafe(r, isWrite)
    requires TWO_64 - m.pageSize < r.End()
    ensures m.pageSize > 0 && (IsSafe(m, isWrite, false, TWO_64 - m.pageSize) || SomePageIsUnmapped(m))
  {
    LookupFinds(m, x);
    var p: nat := TWO_64 - m.pageSize;
    TopPageIsPage(m.pageSize);
    if r.End() < TWO_64 { PagesApart(r.End(), TWO_64, m.pageSize); }
    if p < r.start { PagesApart(p, r.start, m.pageSize); }
    PageOf(p, p, m.pageSize);
    assert r.Contains(p);
    assert m.frame(p) == 0 || Mapped(m, p);
  }

  lemma TopPageIsPage(pageSize: nat)
    requires IsPageSize(pageSize)
    ensures pageSize <= TWO_64 && OnPage(TWO_64 - pageSize, pageSize)
  {
    PagesApart(0, TWO_64, pageSize);
    var back: int := -1 * pageSize;
    RemainderOfSum(-1, 0, pageSize);
    MultiplesAdd(TWO_64, back, pageSize);
  }

  lemma StoppedAnswer(m: Map, isWrite: bool, fails: Word -> bool, address: Word, n: nat, answer: RangeAnswer, stop: nat)
    requires m.pageSize > 0 && address + n <= TWO_64
    requires !answer.code.Success? && !answer.code.Error?
    requires AllViable(SafeBytes(m, isWrite, address + n == TWO_64), address, address + answer.size)
    requires Stopped(m, isWrite, address, n, answer.size, answer.code, answer.next, stop)
    ensures SafeAnswer(m, isWrite, fails, address, n, answer)
  {
    hide SafeBytes, FinderAnswers, Wrap, FailureAt;
    var safe := SafeBytes(m, isWrite, address + n == TWO_64);
    if stop > 0 {
      assert !safe(address + answer.size);
      WrapsOnlyAtTheTop(stop);
      StopsHere(safe, m.pageSize, address, n, answer, stop);
    }
  }

  /**
    Finds the part of a request that looks safe and is mapped. If every page were mapped, the page counter would
    not stop for a request that ends inside the topmost page when that page is safe.
  */
  method TransferRangeSafe(m: Map, fails: Word -> bool, address: Word, size: nat, access: nat, isWrite: bool)
    returns (answer: RangeAnswer)
    requires ValidMap(m) && address + size <= TWO_64
    requires TWO_64 - m.pageSize < address + size < TWO_64 && IsSafe(m, isWrite, false, TWO_64 - m.pageSize) ==>
      SomePageIsUnmapped(m)
    ensures answer.access == access
    ensures SafeAnswer(m, isWrite, fails, address, size, answer)
    ensures !answer.code.Error? && answer.size < size ==>
      answer.code == FailureAt(m, LooksSafe(isWrite), address + answer.size)
  {
    hide RegionLooksSafe, AllViable, NoneViable, FinderAnswers, PageAfter, Wrap, ValidMap, GoodBytes, SafeBytes,
         AllMapped, NoneMapped, OnPage, FailureAt, PagesChecked;
    ValidPageSize(m);
    ghost var unchecked := address + size == TWO_64;
    ghost var safe := SafeBytes(m, isWrite, unchecked);
    var kaddr, left: nat := address, size;
    var transferSize: nat := 0;
    var code := Success;
    var nextViable: Word := Wrap(address + size);
    ghost var stop: nat := 0;
    EmptyRange(safe, address);
    WrapsOnlyAtTheTop(TWO_64);
    while code.Success? && left > 0
      invariant transferSize + left == size && kaddr == address + transferSize
      invariant AllViable(safe, address, kaddr)
      invariant code.Success? && size > 0 ==> kaddr <= TWO_64 - m.pageSize || kaddr == TWO_64 || transferSize == 0
      invariant code.Success? ==> nextViable == Wrap(address + size)
      invariant !code.Success? ==>
        code.Unmapped? && Stopped(m, isWrite, address, size, transferSize, code, nextViable, stop)
      decreases code.Success?, left
    {
      if fails(kaddr) {
        code, nextViable := Error, PageAfter(kaddr, m.pageSize);
        break;
      }
      var found := Lookup(m.regions, kaddr);
      if found.None? {
        code, nextViable := Unmapped, 0;
        FailureFacts(m, LooksSafe(isWrite), kaddr);
        NothingFound(m, LooksSafe(isWrite), kaddr);
        SafeIsGood(m, isWrite, unchecked, kaddr, TWO_64);
        stop := TWO_64;
        break;
      }
      var region := found.value;
      RegionFound(m, LooksSafe(isWrite), kaddr, region);
      WrapsOnlyAtTheTop(region.End());
      WrapsOnlyAtTheTop(region.start);
      var viable := RegionLooksSafe(region, isWrite);
      stop := region.End();
      if region.start > kaddr {
        code := Unmapped;
        if viable {
          nextViable := region.start;
          stop := region.start;
        } else {
          nextViable := Wrap(region.End());
        }
        FailureFacts(m, LooksSafe(isWrite), kaddr);
        SafeIsGood(m, isWrite, unchecked, kaddr, stop);
        break;
      }
      if !viable {
        code, nextViable := Protection, Wrap(region.End());
        FailureFacts(m, LooksSafe(isWrite), kaddr);
        SafeIsGood(m, isWrite, unchecked, kaddr, stop);
        break;
      }
      var regionSize := Min(left, region.size - (kaddr - region.start));
      RegionBounds(m, kaddr, region);
      if TWO_64 - m.pageSize < kaddr + regionSize < TWO_64 { TopmostPage(m, isWrite, kaddr, region); }
      var truncated, partSize, nextPage := CheckPages(m, kaddr, regionSize);
      ghost var partStop: nat :| PagesChecked(m, kaddr, regionSize, truncated, partSize, nextPage, partStop);
      CheckedPart(m, isWrite, address, size, kaddr, region, regionSize, truncated, partSize, nextPage, partStop);
      if truncated {
        code, regionSize, nextViable := Unmapped, partSize, nextPage;
        stop := partStop;
      }
      kaddr := kaddr + regionSize;
      left := left - regionSize;
      transferSize := transferSize + regionSize;
    }
    answer := RangeAnswer(code, transferSize, access, nextViable);
    if code.Success? {
      GrantsAll(safe, m.pageSize, address, size, answer);
    } else if !code.Error? {
      StoppedAnswer(m, isWrite, fails, address, size, answer, stop);
    }
  }

  /** Every byte that is granted for a write may be written, and for a read may be read, however the search ended. */
  lemma GrantedBytesMayBeTransferred(m: Map, isWrite: bool, fails: Word -> bool, address: Word, n: nat,
                                     answer: RangeAnswer, x: nat) returns (r: Region)
    requires m.pageSize > 0 && SafeAnswer(m, isWrite, fails, address, n, answer)
    requires address <= x < address + answer.size
    ensures r in m.regions && r.start <= x < r.start + r.size && r.shareMode != Empty
    ensures (isWrite ==> Write in r.protection) && (!isWrite ==> Read in r.protection)
    ensures m.frame(x - x % m.pageSize) != 0 || address + n == r.start + r.size == TWO_64
  {
    hide IsSafe, OnPage, Wrap, StartsOver, Resumes;
    var unchecked := address + n == TWO_64;
    assert SafeBytes(m, isWrite, unchecked)(x);
    SafeBytesAre(m, isWrite, unchecked, x);
    r :| r in m.regions && r.start <= x < r.start + r.size
         && (isWrite ==> Write in r.protection) && (!isWrite ==> Read in r.protection) && r.shareMode != Empty
         && (m.frame(x - x % m.pageSize) != 0 || (unchecked && r.start + r.size == TWO_64));
  }

  // ---- When a safe answer is exact ----

  lemma {:induction false} FirstFailure(viable: int -> bool, lo: int, hi: int) returns (x: int)
    requires !AllViable(viable, lo, hi)
    ensures lo <= x < hi && AllViable(viable, lo, x) && !viable(x)
    decreases hi - lo
  {
    if AllViable(viable, lo, hi - 1) {
      x := hi - 1;
    } else {
      x := FirstFailure(viable, lo, hi - 1);
    }
  }

  /**
    The requests that a search gets wrong. Those ending at the top of the address space, when the first byte that
    is not safe lies in a safe-looking region that reaches the top: its pages are not checked. And those ending
    inside the topmost page, when they are safe throughout: the page counter starts over from page 0.
  */
  ghost predicate IsMissed(m: Map, isWrite: bool, address: Word, n: nat)
    requires m.pageSize > 0
  {
    var safe := SafeBytes(m, isWrite, false);
    && n > 0
    && if address + n == TWO_64 then
         exists x :: address <= x < TWO_64
           && AllViable(safe, address, x) && !safe(x) && IsSafe(m, isWrite, true, x)
       else
         TWO_64 - m.pageSize < address + n && AllViable(safe, address, address + n)
  }

  lemma CheckedIsSafe(m: Map, isWrite: bool)
    requires m.pageSize > 0
    ensures forall x :: SafeBytes(m, isWrite, false)(x) ==> SafeBytes(m, isWrite, true)(x)
  {
    forall x | IsSafe(m, isWrite, false, x)
      ensures IsSafe(m, isWrite, true, x)
    {
      var r :| r in m.regions && r.Contains(x) && RegionLooksSafe(r, isWrite) && Mapped(m, x);
    }
  }

  /**
    A safe answer is the longest prefix of safe mapped bytes, with a sound place to go on, just when the request is
    not missed.
  */
  lemma SafeAnswerExactness(m: Map, isWrite: bool, fails: Word -> bool, address: Word, n: nat, answer: RangeAnswer)
    requires m.pageSize > 0 && address + n <= TWO_64
    requires SafeAnswer(m, isWrite, fails, address, n, answer) && !answer.code.Error?
    ensures FinderAnswers(SafeBytes(m, isWrite, false), m.pageSize, address, n, answer)
       <==> !IsMissed(m, isWrite, address, n)
  {
    hide Wrap, IsSafe;
    if address + n == TWO_64 { TopExactness(m, isWrite, address, n, answer); }
  }

  /** Every request that ends at or below `end` is answered rightly. */
  ghost predicate NoneIsMissed(m: Map, isWrite: bool, end: Word)
    requires m.pageSize > 0
  {
    forall address: Word, n: nat :: address + n <= end ==> !IsMissed(m, isWrite, address, n)
  }

  /** So it is exactly if `end` is not inside the topmost page, or that page is not safe. */
  lemma NoneMissedBelow(m: Map, isWrite: bool, end: Word)
    requires ValidMap(m)
    ensures 0 < m.pageSize <= TWO_64
    ensures NoneIsMissed(m, isWrite, end)
       <==> end <= TWO_64 - m.pageSize || !IsSafe(m, isWrite, false, TWO_64 - m.pageSize)
  {
    hide ValidMap, IsSafe;
    ValidPageSize(m);
    assert IsPageSize(m.pageSize);
    TopPageIsPage(m.pageSize);
    var top: nat, safe := TWO_64 - m.pageSize, SafeBytes(m, isWrite, false);
    if end > top && IsSafe(m, isWrite, false, top) {
      assert AllViable(safe, top, top + 1);
      assert IsMissed(m, isWrite, top, 1);
    } else {
      forall address: Word, n: nat | address + n <= end
        ensures !IsMissed(m, isWrite, address, n)
      {
        if IsMissed(m, isWrite, address, n) {
          var x: nat := address + n - 1;
          assert safe(x);
          SafePage(m, isWrite, x);
          PageOf(top, x, m.pageSize);
          assert false;
        }
      }
    }
  }

  lemma TopExactness(m: Map, isWrite: bool, address: Word, n: nat, answer: RangeAnswer)
    requires m.pageSize > 0 && address + n == TWO_64
    requires answer.code.Success? ==> answer.size == n
    requires FinderAnswers(SafeBytes(m, isWrite, true), m.pageSize, address, n, answer)
    ensures FinderAnswers(SafeBytes(m, isWrite, false), m.pageSize, address, n, answer)
       <==> !IsMissed(m, isWrite, address, n)
  {
    hide Wrap, IsSafe, OnPage;
    CheckedIsSafe(m, isWrite);
    var safe, loose := SafeBytes(m, isWrite, false), SafeBytes(m, isWrite, true);
    assert forall x :: loose(x) <==> IsSafe(m, isWrite, true, x);
    if AllViable(safe, address, address + answer.size) {
      assert !IsMissed(m, isWrite, address, n);
    } else {
      var x := FirstFailure(safe, address, address + answer.size);
      assert loose(x);
    }
  }

  /** A map with one readable region, the topmost page. */
  function TopPage(frame: int -> nat): Map {
    Map([Region(TWO_64 - 0x1000, 0x1000, {Read}, Private, 0)], 0x1000, frame)
  }

  lemma TopPageIsValid(frame: int -> nat)
    ensures ValidMap(TopPage(frame))
  {
    assert TWO_64 % 0x1000 == 0;
  }

  /** A page that is not mapped is taken for readable when the request ends at the top of the address space. */
  lemma UncheckedPageIsMissed(m: Map)
    requires m == TopPage(p => 0)
    ensures ValidMap(m) && IsMissed(m, false, TWO_64 - 0x1000, 0x1000)
  {
    TopPageIsValid(p => 0);
    var x: int := TWO_64 - 0x1000;
    assert m.regions[0] in m.regions && m.regions[0].Contains(x);
    assert IsSafe(m, false, true, x) && !SafeBytes(m, false, false)(x);
    EmptyRange(SafeBytes(m, false, false), x);
  }

  /** A mapped readable page is not found when the request ends inside it and it is the topmost one. */
  lemma StartingOverIsMissed(m: Map)
    requires m == TopPage(p => if p == 0 then 0 else 1)
    ensures ValidMap(m) && SomePageIsUnmapped(m) && IsMissed(m, false, TWO_64 - 0x1000, 16)
  {
    TopPageIsValid(p => if p == 0 then 0 else 1);
    assert OnPage(0, m.pageSize) && m.frame(0) == 0;
    var p: nat := TWO_64 - 0x1000;
    assert p % 0x1000 == 0;
    forall x | p <= x < p + 16
      ensures SafeBytes(m, false, false)(x)
    {
      MappedByPage(m, p, x);
      assert m.regions[0] in m.regions && m.regions[0].Contains(x);
    }
  }
}
