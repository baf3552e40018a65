/** The range finder that also respects special regions of virtual and physical memory, such as device registers. */
module TransferAll {
  import opened Common
  import opened Pages
  import opened TaskMemory
  import opened KernelMemory

  // ---- Special regions ----

  /** A range of memory, both ends included, and the width it must be accessed with, 0 if it must not be accessed. */
  datatype Special = Special(start: Word, end: Word, access: nat) {
    predicate Contains(x: int) { start <= x <= end }
  }

  /** Special regions are listed in order and disjoint, and none is the whole address space. */
  ghost predicate ValidSpecials(specials: seq<Special>) {
    && (forall r <- specials :: r.start <= r.end && r.end - r.start < TWO_64 - 1)
    && (forall i, j :: 0 <= i < j < |specials| ==> specials[i].end < specials[j].start)
  }

  /** The region with the smallest start that intersects the n bytes from x, if there is one. */
  function FindSpecial(specials: seq<Special>, x: nat, n: nat): Option<Special> {
    if |specials| == 0 then None
    else if specials[0].end < x then FindSpecial(specials[1..], x, n)
    else if specials[0].start < x + n then Some(specials[0])
    else None
  }

  lemma {:induction false} FindSpecialIsFirst(specials: seq<Special>, x: nat, n: nat) returns (i: nat)
    requires ValidSpecials(specials)
    ensures i <= |specials| && forall j :: 0 <= j < i ==> specials[j].end < x
    ensures i < |specials| ==> specials[i].end >= x
    ensures FindSpecial(specials, x, n)
      == if i < |specials| && specials[i].start < x + n then Some(specials[i]) else None
  {
    i := 0;
    if |specials| > 0 && specials[0].end < x {
      i := FindSpecialIsFirst(specials[1..], x, n);
      i := i + 1;
    }
  }

  /** The width that a byte's special region asks for. */
  function AccessAt(specials: seq<Special>, x: nat): Option<nat> {
    match FindSpecial(specials, x, 1)
    case None => None
    case Some(r) => Some(r.access)
  }

  lemma AccessAtIsTheRegions(specials: seq<Special>, x: nat)
    requires ValidSpecials(specials)
    ensures AccessAt(specials, x).Some? <==> exists r <- specials :: r.Contains(x)
    ensures forall r <- specials :: r.Contains(x) ==> AccessAt(specials, x) == Some(r.access)
  {
    var i := FindSpecialIsFirst(specials, x, 1);
    forall r | r in specials && r.Contains(x)
      ensures i < |specials| && r == specials[i]
    {
      var j :| 0 <= j < |specials| && specials[j] == r;
    }
    if i < |specials| {
      assert specials[i] in specials;
      assert AccessAt(specials, x).Some? <==> specials[i].Contains(x);
    }
  }

  /** A lookup over n bytes says what every byte up to the end of the region found asks for. */
  lemma FindSpecialFacts(specials: seq<Special>, x: nat, n: nat)
    requires ValidSpecials(specials)
    ensures match FindSpecial(specials, x, n)
      case None => forall y :: x <= y < x + n ==> AccessAt(specials, y) == None
      case Some(r) =>
        && r in specials && x <= r.end && r.start <= r.end && r.start < x + n && r.end - r.start < TWO_64 - 1
        && (forall y :: x <= y < r.start ==> AccessAt(specials, y) == None)
        && (forall y :: r.start <= y <= r.end ==> AccessAt(specials, y) == Some(r.access))
  {
    hide AccessAt;
    var i := FindSpecialIsFirst(specials, x, n);
    forall y | 0 <= y
      ensures AccessAt(specials, y).Some? <==> exists r <- specials :: r.Contains(y)
      ensures forall r <- specials :: r.Contains(y) ==> AccessAt(specials, y) == Some(r.access)
    {
      AccessAtIsTheRegions(specials, y);
    }
  }

  // ---- What each byte asks for ----

  /** The kernel's memory map together with the special regions of virtual and physical memory. */
  datatype Layout = Layout(vm: Map, virtual: seq<Special>, physical: seq<Special>)

  ghost predicate ValidLayout(m: Layout) {
    IsPageSize(m.vm.pageSize) && ValidSpecials(m.virtual) && ValidSpecials(m.physical)
  }

  /** The physical address behind x, 0 when its page is not mapped. */
  function Physical(vm: Map, x: nat): nat
    requires vm.pageSize > 0
  {
    var frame := vm.frame(PageStart(x, vm.pageSize));
    if frame == 0 then 0 else frame * vm.pageSize + x % vm.pageSize
  }

  /** Within a page, physical addresses run on from each other. */
  lemma PhysicalRunsOn(vm: Map, x: nat, k: nat)
    requires vm.pageSize > 0 && x % vm.pageSize + k < vm.pageSize
    ensures Mapped(vm, x) <==> Physical(vm, x) > 0
    ensures Mapped(vm, x + k) <==> Mapped(vm, x)
    ensures Mapped(vm, x) ==> Physical(vm, x + k) == Physical(vm, x) + k
    ensures PageStart(x + k, vm.pageSize) == PageStart(x, vm.pageSize)
  {
    var p := PageStart(x, vm.pageSize);
    PageBounds(x, vm.pageSize);
    PageOf(p, x + k, vm.pageSize);
    if vm.frame(p) > 0 { ProductAtLeast(vm.frame(p), vm.pageSize); }
  }

  /** What a byte allows: no transfer, or one with the given access width, 0 for any. */
  datatype Demand = Blocked(code: IoResult) | Needs(width: nat)

  /**
    What a byte allows, given the widths its special regions ask for. When the caller did not choose an access
    width (`strict`), a special region of width 0 must not be touched; special regions of both kinds of memory
    must agree.
  */
  function Allowed(strict: bool, virtual: Option<nat>, mapped: bool, physical: Option<nat>): Demand {
    var width := if virtual.Some? then virtual.value else 0;
    if strict && virtual == Some(0) then Blocked(Inaccessible)
    else if !mapped then Blocked(Unmapped)
    else if physical.None? then Needs(width)
    else if strict && physical == Some(0) then Blocked(Inaccessible)
    else if width != 0 && width != physical.value then Blocked(Inaccessible)
    else Needs(physical.value)
  }

  function DemandAt(m: Layout, strict: bool, x: nat): Demand
    requires m.vm.pageSize > 0
  {
    Allowed(strict, AccessAt(m.virtual, x), Mapped(m.vm, x), AccessAt(m.physical, Physical(m.vm, x)))
  }

  /**
    What a byte allows, in terms of the regions that contain it. By default a special region of width 0 forbids it;
    so do two regions of different widths, unless the virtual one has width 0. Its virtual region is looked at before
    its page, and its page before its physical region.
  */
  lemma DemandMeans(m: Layout, strict: bool, x: nat)
    requires ValidLayout(m)
    ensures m.vm.pageSize > 0
    ensures var demand, frame := DemandAt(m, strict, x), m.vm.frame(x - x % m.vm.pageSize);
      var paddr := frame * m.vm.pageSize + x % m.vm.pageSize;
      && (demand == Blocked(Unmapped) <==>
            frame == 0 && !(strict && exists r <- m.virtual :: r.start <= x <= r.end && r.access == 0))
      && (demand == Blocked(Inaccessible) <==>
            || (strict && exists r <- m.virtual :: r.start <= x <= r.end && r.access == 0)
            || (frame != 0 && strict && exists q <- m.physical :: q.start <= paddr <= q.end && q.access == 0)
            || (frame != 0 && exists r <- m.virtual, q <- m.physical ::
                  r.start <= x <= r.end && q.start <= paddr <= q.end && r.access != 0 && r.access != q.access))
      && (forall q <- m.physical :: demand.Needs? && q.start <= paddr <= q.end ==> demand.width == q.access)
      && (forall r <- m.virtual :: demand.Needs? && r.start <= x <= r.end ==>
            demand.width == r.access || r.access == 0)
      && (demand.Needs? && demand.width != 0 ==>
            || (exists r <- m.virtual :: r.start <= x <= r.end && r.access == demand.width)
            || (exists q <- m.physical :: q.start <= paddr <= q.end && q.access == demand.width))
      && (demand.Blocked? ==> demand.code.Unmapped? || demand.code.Inaccessible?)
  {
    hide AccessAt, ValidSpecials;
    LayoutHasPages(m);
    var frame := m.vm.frame(PageStart(x, m.vm.pageSize));
    if frame != 0 { ProductAtLeast(frame, m.vm.pageSize); }
    AccessAtIsTheRegions(m.virtual, x);
    AccessAtIsTheRegions(m.physical, Physical(m.vm, x));
  }

  // ---- One step of the search ----

  /** Every byte from lo up to hi asks for the same thing. */
  ghost predicate Uniform(m: Layout, strict: bool, lo: nat, hi: nat, demand: Demand)
    requires m.vm.pageSize > 0
  {
    forall x :: lo <= x < hi ==> DemandAt(m, strict, x) == demand
  }

  lemma UniformAt(m: Layout, strict: bool, x: nat, n: nat, demand: Demand)
    requires m.vm.pageSize > 0 && n > 0 && Uniform(m, strict, x, x + n, demand)
    ensures DemandAt(m, strict, x) == demand
  {
  }

  ghost predicate SameAccess(specials: seq<Special>, lo: nat, hi: nat, access: Option<nat>) {
    forall x :: lo <= x < hi ==> AccessAt(specials, x) == access
  }

  /** Bytes of one page whose virtual and physical addresses lie in the same special regions allow the same. */
  lemma UniformStep(m: Layout, strict: bool, x: nat, n: nat, virtual: Option<nat>, physical: Option<nat>)
    requires m.vm.pageSize > 0 && x % m.vm.pageSize + n <= m.vm.pageSize
    requires SameAccess(m.virtual, x, x + n, virtual)
    requires Mapped(m.vm, x) ==> SameAccess(m.physical, Physical(m.vm, x), Physical(m.vm, x) + n, physical)
    ensures Uniform(m, strict, x, x + n, Allowed(strict, virtual, Mapped(m.vm, x), physical))
  {
    hide AccessAt, Physical, Mapped, PageStart;
    var base := Physical(m.vm, x);
    forall y | x <= y < x + n
      ensures DemandAt(m, strict, y) == Allowed(strict, virtual, Mapped(m.vm, x), physical)
    {
      PhysicalRunsOn(m.vm, x, y - x);
      if Mapped(m.vm, x) { assert AccessAt(m.physical, base + (y - x)) == physical; }
    }
  }

  lemma FewerBytes(specials: seq<Special>, x: nat, n: nat, k: nat, access: Option<nat>)
    requires k <= n && SameAccess(specials, x, x + n, access)
    ensures SameAccess(specials, x, x + k, access)
  {
  }

  /** Where the search goes on when the byte at x is blocked: past its virtual special region, or the next page. */
  ghost predicate SkipsTo(m: Layout, strict: bool, x: nat, stop: nat)
    requires m.vm.pageSize > 0
  {
    if strict && AccessAt(m.virtual, x) == Some(0) then
      exists r <- m.virtual :: r.Contains(x) && stop == r.end + 1
    else
      stop == PageStart(x, m.vm.pageSize) + m.vm.pageSize
  }

  /** What the virtual special regions say about the n bytes from x: the first `size` of them ask for the same. */
  method InspectVirtual(m: Layout, strict: bool, x: Word, n: nat)
    returns (blocked: bool, access: nat, size: nat, next: Word)
    requires ValidLayout(m) && 0 < n && x + n <= TWO_64
    ensures blocked == (strict && AccessAt(m.virtual, x) == Some(0))
    ensures blocked ==> exists r <- m.virtual :: r.Contains(x) && next == Wrap(r.end + 1)
    ensures !blocked ==> 0 < size <= n && SameAccess(m.virtual, x, x + size, AccessAt(m.virtual, x))
    ensures !blocked ==> access == if AccessAt(m.virtual, x).Some? then AccessAt(m.virtual, x).value else 0
  {
    hide AccessAt;
    blocked, access, size, next := false, 0, n, 0;
    ghost var virtual: Option<nat> := None;
    FindSpecialFacts(m.virtual, x, n);
    var vr := FindSpecial(m.virtual, x, n);
    if vr.None? {
    } else if x < vr.value.start {
      size := vr.value.start - x;
    } else {
      virtual := Some(vr.value.access);
      if strict && vr.value.access == 0 {
        blocked, next := true, Wrap(vr.value.end + 1);
      } else {
        access := vr.value.access;
        WrapsOnlyAtTheTop(vr.value.end + 1 - x);
        size := Min(n, Wrap(vr.value.end + 1 - x));
      }
    }
    assert AccessAt(m.virtual, x) == virtual;
  }

  /** What the physical special regions say about the n bytes from paddr. */
  method InspectPhysical(m: Layout, paddr: nat, n: nat)
    returns (found: bool, access: nat, size: nat)
    requires ValidLayout(m) && 0 < n && 0 < paddr
    ensures 0 < size <= n && SameAccess(m.physical, paddr, paddr + size, AccessAt(m.physical, paddr))
    ensures AccessAt(m.physical, paddr) == if found then Some(access) else None
  {
    hide AccessAt;
    found, access, size := false, 0, n;
    FindSpecialFacts(m.physical, paddr, n);
    var pr := FindSpecial(m.physical, paddr, n);
    if pr.None? {
    } else if paddr < pr.value.start {
      size := pr.value.start - paddr;
    } else {
      found, access := true, pr.value.access;
      size := Min(n, pr.value.end + 1 - paddr);
    }
  }

  /**
    Looks at the bytes from x on: how many of them, within one page, ask for the same access width; or why the
    first one cannot be transferred and where to go on.
  */
  method Inspect(m: Layout, strict: bool, x: Word, remaining: nat)
    returns (code: IoResult, access: nat, size: nat, next: Word)
    requires ValidLayout(m) && 0 < remaining && x + remaining <= TWO_64
    ensures code.Success? ==> 0 < size <= remaining && Uniform(m, strict, x, x + size, Needs(access))
    ensures !code.Success? ==> DemandAt(m, strict, x) == Blocked(code)
    ensures !code.Success? ==> exists stop: nat :: SkipsTo(m, strict, x, stop) && next == Wrap(stop)
  {
    hide Wrap, AccessAt, Mapped, Physical, SameAccess, PageStart, Uniform, ValidSpecials;
    var pageSize := m.vm.pageSize;
    assert pageSize > 0;
    code := Success;
    ghost var virtual := AccessAt(m.virtual, x);
    var blocked: bool;
    blocked, access, size, next := InspectVirtual(m, strict, x, remaining);
    if blocked {
      code := Inaccessible;
      return;
    }
    next := Wrap(PageStart(x, pageSize) + pageSize);
    assert SkipsTo(m, strict, x, PageStart(x, pageSize) + pageSize);
    var paddr := Physical(m.vm, x);
    PhysicalRunsOn(m.vm, x, 0);
    if paddr == 0 {
      code := Unmapped;
      return;
    }
    var pageLeft := pageSize - x % pageSize;
    ghost var physical := AccessAt(m.physical, paddr);
    ghost var virtualSize := size;
    var found, physicalAccess;
    found, physicalAccess, size := InspectPhysical(m, paddr, Min(size, pageLeft));
    FewerBytes(m.virtual, x, virtualSize, size, virtual);
    UniformStep(m, strict, x, size, virtual, physical);
    UniformAt(m, strict, x, size, Allowed(strict, virtual, true, physical));
    if found {
      if (strict && physicalAccess == 0) || (access != 0 && access != physicalAccess) {
        code := Inaccessible;
        return;
      }
      access := physicalAccess;
    }
  }

  // ---- The search ----

  /** The bytes from lo up to hi may be transferred with one width: first plain bytes, then those that ask for it. */
  ghost predicate IsRun(m: Layout, strict: bool, lo: nat, mid: nat, hi: nat, width: nat)
    requires m.vm.pageSize > 0
  {
    && lo <= mid <= hi
    && Uniform(m, strict, lo, mid, Needs(0))
    && Uniform(m, strict, mid, hi, Needs(width))
    && (width == 0 <==> mid == hi)
  }

  /** What stops a search short of its request at the byte x. */
  ghost predicate StopsAt(m: Layout, strict: bool, x: Word, width: nat, code: IoResult, next: Word)
    requires m.vm.pageSize > 0
  {
    if code.Success? then
      var demand := DemandAt(m, strict, x);
      width != 0 && demand.Needs? && demand.width != width && next == x
    else
      DemandAt(m, strict, x) == Blocked(code) && exists stop: nat :: SkipsTo(m, strict, x, stop) && next == Wrap(stop)
  }

  /** The answer of a search over special regions: `mid` is where the plain bytes end. */
  ghost predicate AllAnswer(m: Layout, address: Word, n: nat, access: nat, answer: RangeAnswer, mid: nat, width: nat)
    requires m.vm.pageSize > 0
  {
    var strict := access == 0;
    && answer.size <= n
    && IsRun(m, strict, address, mid, address + answer.size, width)
    && answer.access == (if strict && width != 0 then width else access)
    && if answer.size == n then answer.code.Success? && answer.next == Wrap(address + n)
       else
         address + answer.size < TWO_64
         && StopsAt(m, strict, address + answer.size, width, answer.code, answer.next)
         && (answer.code.Success? ==> answer.size > 0)
  }

  lemma RunGrows(m: Layout, strict: bool, lo: nat, mid: nat, hi: nat, width: nat, end: nat, access: nat)
    requires m.vm.pageSize > 0 && IsRun(m, strict, lo, mid, hi, width)
    requires hi < end && Uniform(m, strict, hi, end, Needs(access))
    ensures access == width ==> IsRun(m, strict, lo, if width == 0 then end else mid, end, width)
    ensures width == 0 && access != 0 ==> IsRun(m, strict, lo, hi, end, access)
  {
    hide DemandAt;
  }

  /** Finds the part of a request that may be transferred with one access width. */
  method TransferRangeAll(m: Layout, address: Word, size: nat, access: nat)
    returns (answer: RangeAnswer)
    requires ValidLayout(m) && address + size <= TWO_64
    ensures exists mid: nat, width: nat :: AllAnswer(m, address, size, access, answer, mid, width)
  {
    hide Uniform, DemandAt, SkipsTo, Wrap, ValidSpecials;
    var strict := access == 0;
    var kaddr, remaining: nat := address, size;
    var transferSize: nat, transferAccess: nat := 0, 0;
    var code := Success;
    var nextViable: Word := Wrap(address + size);
    ghost var mid: nat := address;
    EmptyRun(m, strict, address);
    while remaining > 0
      invariant code.Success? && nextViable == Wrap(address + size)
      invariant transferSize + remaining == size && kaddr == address + transferSize
      invariant IsRun(m, strict, address, mid, kaddr, transferAccess)
      invariant transferSize == 0 ==> transferAccess == 0
    {
      var thisAccess, thisSize, next;
      code, thisAccess, thisSize, next := Inspect(m, strict, kaddr, remaining);
      if !code.Success? {
        nextViable := next;
        break;
      }
      UniformAt(m, strict, kaddr, thisSize, Needs(thisAccess));
      ghost var width := transferAccess;
      if thisAccess != transferAccess {
        if transferAccess == 0 {
          transferAccess := thisAccess;
        } else {
          nextViable := kaddr;
          break;
        }
      }
      RunGrows(m, strict, address, mid, kaddr, width, kaddr + thisSize, thisAccess);
      mid := if transferAccess == 0 then kaddr + thisSize else if width == 0 then kaddr else mid;
      kaddr := kaddr + thisSize;
      remaining := remaining - thisSize;
      transferSize := transferSize + thisSize;
    }
    var width := if strict && transferAccess != 0 then transferAccess else access;
    answer := RangeAnswer(code, transferSize, width, nextViable);
    assert AllAnswer(m, address, size, access, answer, mid, transferAccess);
  }

  lemma EmptyRun(m: Layout, strict: bool, x: nat)
    requires m.vm.pageSize > 0
    ensures IsRun(m, strict, x, x, x, 0)
  {
  }

  // ---- What an answer means ----

  /**
    An answer, byte by byte. Every byte of the range may be transferred; a failure names what blocks the next byte,
    and a success that falls short has met two widths. A width that the caller chose stays, and by default the width
    returned is the one the bytes ask for.
  */
  lemma AnswerMeans(m: Layout, address: Word, n: nat, access: nat, answer: RangeAnswer, mid: nat, width: nat)
    requires m.vm.pageSize > 0 && AllAnswer(m, address, n, access, answer, mid, width)
    ensures var strict, x := access == 0, address + answer.size;
      && (forall y :: address <= y < x ==> DemandAt(m, strict, y).Needs?)
      && (!answer.code.Success? ==> DemandAt(m, strict, x) == Blocked(answer.code))
      && (answer.code.Success? && answer.size < n ==>
            && answer.next == x && DemandAt(m, strict, x).Needs?
            && exists y :: address <= y < x && DemandAt(m, strict, y).width != 0
                 && DemandAt(m, strict, y).width != DemandAt(m, strict, x).width)
      && (access != 0 ==> answer.access == access)
      && (access == 0 ==>
            forall y :: address <= y < x ==>
              DemandAt(m, strict, y).width == 0 || DemandAt(m, strict, y).width == answer.access)
  {
    hide DemandAt, SkipsTo, Wrap;
    var strict, x := access == 0, address + answer.size;
    if answer.code.Success? && answer.size < n {
      assert DemandAt(m, strict, x - 1) == Needs(width);
    }
  }

  /**
    With the default access width, every byte of the range is on a mapped page, and every special region of
    either kind of memory that the range touches has exactly the access width that is returned.
  */
  lemma EveryRegionTouchedHasTheWidth(m: Layout, address: Word, n: nat, answer: RangeAnswer, mid: nat, width: nat,
                                      x: nat)
    requires ValidLayout(m)
    ensures AllAnswer(m, address, n, 0, answer, mid, width) && address <= x < address + answer.size ==>
      && Mapped(m.vm, x)
      && (forall r <- m.virtual :: r.Contains(x) ==> r.access == answer.access)
      && (forall r <- m.physical :: r.Contains(Physical(m.vm, x)) ==> r.access == answer.access)
  {
    hide Mapped, Physical, AccessAt, ValidSpecials;
    if AllAnswer(m, address, n, 0, answer, mid, width) && address <= x < address + answer.size {
      assert DemandAt(m, true, x) == Needs(if x < mid then 0 else width);
      AccessAtIsTheRegions(m.virtual, x);
      AccessAtIsTheRegions(m.physical, Physical(m.vm, x));
    }
  }

  /** The bytes that may be transferred at all. */
  ghost function AllowedBytes(m: Layout, strict: bool): int -> bool
    requires m.vm.pageSize > 0
  {
    x => x >= 0 && DemandAt(m, strict, x).Needs?
  }

  /** Special regions that are made of whole pages. */
  ghost predicate MadeOfPages(specials: seq<Special>, pageSize: nat)
    requires pageSize > 0
  {
    forall r <- specials :: OnPage(r.start, pageSize) && OnPage(r.end + 1, pageSize)
  }

  lemma SamePageSameRegion(r: Special, x: nat, y: nat, pageSize: nat)
    requires pageSize > 0 && OnPage(r.start, pageSize) && OnPage(r.end + 1, pageSize) && r.start <= r.end
    requires PageStart(x, pageSize) == PageStart(y, pageSize)
    ensures r.Contains(x) <==> r.Contains(y)
  {
    var p := PageStart(x, pageSize);
    PageBounds(x, pageSize);
    PageBounds(y, pageSize);
    if p < r.start { PagesApart(p, r.start, pageSize); }
    if p < r.end + 1 { PagesApart(p, r.end + 1, pageSize); }
  }

  lemma SamePageSameAccess(specials: seq<Special>, x: nat, y: nat, pageSize: nat)
    requires pageSize > 0 && ValidSpecials(specials) && MadeOfPages(specials, pageSize)
    requires PageStart(x, pageSize) == PageStart(y, pageSize)
    ensures AccessAt(specials, x) == AccessAt(specials, y)
  {
    hide AccessAt, PageStart, OnPage;
    AccessAtIsTheRegions(specials, x);
    AccessAtIsTheRegions(specials, y);
    forall r | r in specials
      ensures r.Contains(x) <==> r.Contains(y)
    {
      SamePageSameRegion(r, x, y, pageSize);
    }
  }

  lemma PhysicalPage(vm: Map, x: nat)
    requires vm.pageSize > 0 && Mapped(vm, x)
    ensures PageStart(Physical(vm, x), vm.pageSize) == vm.frame(PageStart(x, vm.pageSize)) * vm.pageSize
  {
    RemainderOfSum(vm.frame(PageStart(x, vm.pageSize)), x % vm.pageSize, vm.pageSize);
  }

  ghost predicate SpecialPages(m: Layout)
    requires m.vm.pageSize > 0
  {
    MadeOfPages(m.virtual, m.vm.pageSize) && MadeOfPages(m.physical, m.vm.pageSize)
  }

  /** When special regions are made of whole pages, so are the differences between what bytes allow. */
  lemma SamePageSameDemand(m: Layout, strict: bool, x: nat, y: nat)
    requires ValidLayout(m) && SpecialPages(m)
    requires PageStart(x, m.vm.pageSize) == PageStart(y, m.vm.pageSize)
    ensures DemandAt(m, strict, x) == DemandAt(m, strict, y)
  {
    hide AccessAt, PageStart, OnPage, ValidSpecials, MadeOfPages, Physical;
    SamePageSameAccess(m.virtual, x, y, m.vm.pageSize);
    if Mapped(m.vm, x) {
      PhysicalPage(m.vm, x);
      PhysicalPage(m.vm, y);
      SamePageSameAccess(m.physical, Physical(m.vm, x), Physical(m.vm, y), m.vm.pageSize);
    }
  }

  /** Skipping from a blocked byte skips only blocked bytes and lands on a page. */
  lemma SkipIsSound(m: Layout, strict: bool, x: Word, stop: nat)
    requires ValidLayout(m) && SpecialPages(m)
    requires DemandAt(m, strict, x).Blocked? && SkipsTo(m, strict, x, stop)
    ensures x < stop <= TWO_64 && OnPage(stop, m.vm.pageSize)
    ensures NoneViable(AllowedBytes(m, strict), x, stop)
  {
    hide AccessAt, PageStart, OnPage, ValidSpecials, Physical, Mapped;
    var pageSize := m.vm.pageSize;
    if strict && AccessAt(m.virtual, x) == Some(0) {
      var r :| r in m.virtual && r.Contains(x) && stop == r.end + 1;
      AccessAtIsTheRegions(m.virtual, x);
      forall y | x <= y < stop
        ensures !AllowedBytes(m, strict)(y)
      {
        AccessAtIsTheRegions(m.virtual, y);
      }
    } else {
      NextPage(x, pageSize);
      forall y | x <= y < stop
        ensures !AllowedBytes(m, strict)(y)
      {
        SamePage(x, y, pageSize);
        SamePageSameDemand(m, strict, x, y);
      }
    }
  }

  lemma SamePage(x: nat, y: nat, pageSize: nat)
    requires pageSize > 0 && x <= y < PageStart(x, pageSize) + pageSize
    ensures PageStart(x, pageSize) == PageStart(y, pageSize)
  {
    PageBounds(x, pageSize);
    PageOf(PageStart(x, pageSize), y, pageSize);
  }

  /**
    With special regions made of whole pages, the range is an exact answer about the bytes that may be transferred
    with the access width asked for: a failure comes at the first byte that may not, and skips none that may.
  */
  lemma PagedAnswerIsExact(m: Layout, address: Word, n: nat, access: nat, answer: RangeAnswer, mid: nat, width: nat)
    requires ValidLayout(m) && SpecialPages(m) && address + n <= TWO_64
    ensures m.vm.pageSize > 0
    ensures AllAnswer(m, address, n, access, answer, mid, width) ==>
      FinderAnswers(AllowedBytes(m, access == 0), m.vm.pageSize, address, n, answer)
  {
    hide DemandAt, SkipsTo, Wrap, ValidLayout, SpecialPages, OnPage;
    LayoutHasPages(m);
    var strict := access == 0;
    var viable := AllowedBytes(m, strict);
    if AllAnswer(m, address, n, access, answer, mid, width) && !answer.code.Success? {
      assert AllViable(viable, address, address + answer.size);
      var x := address + answer.size;
      var stop: nat :| SkipsTo(m, strict, x, stop) && answer.next == Wrap(stop);
      SkipIsSound(m, strict, x, stop);
      WrapsOnlyAtTheTop(stop);
      StopsHere(viable, m.vm.pageSize, address, n, answer, stop);
    }
  }

  lemma LayoutHasPages(m: Layout)
    requires ValidLayout(m)
    ensures m.vm.pageSize > 0
  {
  }

  /** A search that a virtual special region did not stop skips the rest of the page it stopped on. */
  lemma RestOfPageIsSkipped(m: Layout, address: Word, n: nat, access: nat, answer: RangeAnswer, mid: nat, width: nat)
    requires ValidLayout(m) && address + n <= TWO_64
    requires AllAnswer(m, address, n, access, answer, mid, width) && !answer.code.Success?
    ensures var x, strict := address + answer.size, access == 0;
      NextIsSound(AllowedBytes(m, strict), x, answer.next)
      <==> (strict && AccessAt(m.virtual, x) == Some(0))
           || NoneViable(AllowedBytes(m, strict), x, PageStart(x, m.vm.pageSize) + m.vm.pageSize)
  {
    hide AccessAt, PageStart, OnPage, ValidSpecials, Physical, Mapped, Wrap, Uniform;
    var x, strict := address + answer.size, access == 0;
    var stop: nat :| SkipsTo(m, strict, x, stop) && answer.next == Wrap(stop);
    if strict && AccessAt(m.virtual, x) == Some(0) {
      var r :| r in m.virtual && r.Contains(x) && stop == r.end + 1;
      AccessAtIsTheRegions(m.virtual, x);
      forall y | x <= y < stop
        ensures !AllowedBytes(m, strict)(y)
      {
        AccessAtIsTheRegions(m.virtual, y);
      }
    } else {
      NextPage(x, m.vm.pageSize);
    }
    WrapsOnlyAtTheTop(stop);
  }

  /** The physical address behind x must not be touched, or not with the width that the virtual address asks for. */
  ghost predicate IsPhysicallyBlocked(m: Layout, strict: bool, x: nat)
    requires m.vm.pageSize > 0
  {
    var virtual, physical := AccessAt(m.virtual, x), AccessAt(m.physical, Physical(m.vm, x));
    && Mapped(m.vm, x) && !(strict && virtual == Some(0)) && physical.Some?
    && ((strict && physical.value == 0)
        || (virtual.Some? && virtual.value != 0 && virtual.value != physical.value))
  }

  /** No byte that may be transferred follows, on its page, one that is blocked because of its physical address. */
  ghost predicate BlocksRunToPageEnds(m: Layout, strict: bool)
    requires m.vm.pageSize > 0
  {
    forall x: Word, y: Word ::
      x < y && PageStart(x, m.vm.pageSize) == PageStart(y, m.vm.pageSize) && IsPhysicallyBlocked(m, strict, x) ==>
        DemandAt(m, strict, y).Blocked?
  }

  /** With the given access width, `next` never skips a byte that may be transferred. */
  ghost predicate NextIsAlwaysSound(m: Layout, access: nat)
    requires m.vm.pageSize > 0
  {
    forall address: Word, n: nat, answer: RangeAnswer, mid: nat, width: nat ::
      address + n <= TWO_64 && AllAnswer(m, address, n, access, answer, mid, width) && !answer.code.Success? ==>
        NextIsSound(AllowedBytes(m, access == 0), address + answer.size, answer.next)
  }

  /** A byte is blocked because of a virtual special region, because of its physical address, or with its page. */
  lemma BlockedCases(m: Layout, strict: bool, x: nat)
    requires m.vm.pageSize > 0
    ensures DemandAt(m, strict, x).Blocked?
       <==> (strict && AccessAt(m.virtual, x) == Some(0)) || IsPhysicallyBlocked(m, strict, x) || !Mapped(m.vm, x)
    ensures IsPhysicallyBlocked(m, strict, x) ==> DemandAt(m, strict, x) == Blocked(Inaccessible)
  {
    hide AccessAt, Physical, Mapped;
  }

  lemma RestIsBlocked(m: Layout, strict: bool, x: Word)
    requires ValidLayout(m) && BlocksRunToPageEnds(m, strict)
    requires DemandAt(m, strict, x).Blocked? && !(strict && AccessAt(m.virtual, x) == Some(0))
    ensures NoneViable(AllowedBytes(m, strict), x, PageStart(x, m.vm.pageSize) + m.vm.pageSize)
  {
    hide AccessAt, Physical, Mapped, PageStart, DemandAt, ValidSpecials, IsPhysicallyBlocked;
    BlockedCases(m, strict, x);
    NextPage(x, m.vm.pageSize);
    forall y | x <= y < PageStart(x, m.vm.pageSize) + m.vm.pageSize
      ensures !AllowedBytes(m, strict)(y)
    {
      SamePage(x, y, m.vm.pageSize);
      SamePageIsMapped(m.vm, x, y);
      BlockedCases(m, strict, y);
    }
  }

  lemma SamePageIsMapped(vm: Map, x: nat, y: nat)
    requires vm.pageSize > 0 && PageStart(x, vm.pageSize) == PageStart(y, vm.pageSize)
    ensures Mapped(vm, x) <==> Mapped(vm, y)
  {
  }

  /** A request of the byte x alone is answered with the end of its page. */
  lemma SkipsFrom(m: Layout, access: nat, x: Word, y: Word)
    requires ValidLayout(m) && NextIsAlwaysSound(m, access)
    requires x < y && PageStart(x, m.vm.pageSize) == PageStart(y, m.vm.pageSize)
    requires IsPhysicallyBlocked(m, access == 0, x)
    ensures DemandAt(m, access == 0, y).Blocked?
  {
    hide AccessAt, Physical, Mapped, PageStart, DemandAt, ValidSpecials, Wrap;
    var strict := access == 0;
    var stop := PageStart(x, m.vm.pageSize) + m.vm.pageSize;
    var answer := RangeAnswer(Inaccessible, 0, access, Wrap(stop));
    BlockedCases(m, strict, x);
    EmptyRun(m, strict, x);
    assert SkipsTo(m, strict, x, stop);
    assert AllAnswer(m, x, 1, access, answer, x, 0);
    RestOfPageIsSkipped(m, x, 1, access, answer, x, 0);
    PageBounds(y, m.vm.pageSize);
    assert !AllowedBytes(m, strict)(y);
  }

  /**
    For every layout and access width, `next` is always sound exactly if no byte that may be transferred follows, on
    its page, one whose physical address blocks it. Unmapped pages and virtual special regions do no harm.
  */
  lemma NextSoundness(m: Layout, access: nat)
    requires ValidLayout(m)
    ensures m.vm.pageSize > 0
    ensures NextIsAlwaysSound(m, access) <==> BlocksRunToPageEnds(m, access == 0)
  {
    hide AccessAt, Physical, Mapped, PageStart, DemandAt, ValidSpecials, Wrap, IsPhysicallyBlocked, AllowedBytes;
    var strict := access == 0;
    if BlocksRunToPageEnds(m, strict) {
      forall address: Word, n: nat, answer: RangeAnswer, mid: nat, width: nat |
        address + n <= TWO_64 && AllAnswer(m, address, n, access, answer, mid, width) && !answer.code.Success?
        ensures NextIsSound(AllowedBytes(m, strict), address + answer.size, answer.next)
      {
        RestOfPageIsSkipped(m, address, n, access, answer, mid, width);
        var x := address + answer.size;
        if !(strict && AccessAt(m.virtual, x) == Some(0)) { RestIsBlocked(m, strict, x); }
      }
    }
    if NextIsAlwaysSound(m, access) {
      forall x: Word, y: Word |
        x < y && PageStart(x, m.vm.pageSize) == PageStart(y, m.vm.pageSize) && IsPhysicallyBlocked(m, strict, x)
        ensures DemandAt(m, strict, y).Blocked?
      {
        SkipsFrom(m, access, x, y);
      }
    }
  }

  /** Special regions made of whole pages are such a layout. */
  lemma SpecialPagesRunToPageEnds(m: Layout, strict: bool)
    requires ValidLayout(m) && SpecialPages(m)
    ensures m.vm.pageSize > 0 && BlocksRunToPageEnds(m, strict)
  {
    hide AccessAt, Physical, Mapped, PageStart, DemandAt, ValidSpecials, MadeOfPages, IsPhysicallyBlocked;
    forall x: Word, y: Word |
      x < y && PageStart(x, m.vm.pageSize) == PageStart(y, m.vm.pageSize) && IsPhysicallyBlocked(m, strict, x)
      ensures DemandAt(m, strict, y).Blocked?
    {
      BlockedCases(m, strict, x);
      SamePageSameDemand(m, strict, x, y);
    }
  }

  /**
    A region that ends inside a page would make the difference: when the registers in the first 8 bytes of a page
    must not be touched, a search that starts there skips byte 8 of the page, which may be transferred.
  */
  lemma NextCanSkipAllowedBytes(m: Layout, p: Word, n: nat, registers: Special, answer: RangeAnswer, mid: nat,
                                width: nat)
    requires ValidLayout(m) && m.vm.pageSize > 8 && OnPage(p, m.vm.pageSize)
    requires m.vm.frame(p) > 0 && Physical(m.vm, p) == registers.start && p + n <= TWO_64 && n > 8
    requires m.virtual == [] && m.physical == [registers]
    requires registers.access == 0 && registers.end == registers.start + 7
    ensures AllowedBytes(m, true)(p + 8)
    ensures AllAnswer(m, p, n, 0, answer, mid, width) ==>
      answer.size == 0 && answer.code.Inaccessible? && !NextIsSound(AllowedBytes(m, true), p, answer.next)
  {
    hide AccessAt, PageStart, ValidSpecials, Physical, Uniform, SkipsTo, Wrap;
    PageOf(p, p, m.vm.pageSize);
    PageOf(p, p + 8, m.vm.pageSize);
    PhysicalRunsOn(m.vm, p, 8);
    var base: int := registers.start;
    assert !registers.Contains(base + 8);
    AccessAtIsTheRegions(m.physical, base);
    AccessAtIsTheRegions(m.physical, base + 8);
    AccessAtIsTheRegions(m.virtual, p);
    AccessAtIsTheRegions(m.virtual, p + 8);
    assert DemandAt(m, true, p) == Blocked(Inaccessible);
    assert AllowedBytes(m, true)(p + 8);
    if AllAnswer(m, p, n, 0, answer, mid, width) {
      if answer.size > 0 { RunStart(m, p, mid, p + answer.size, width); }
      RestOfPageIsSkipped(m, p, n, 0, answer, mid, width);
    }
  }

  lemma RunStart(m: Layout, lo: nat, mid: nat, hi: nat, width: nat)
    requires m.vm.pageSize > 0 && IsRun(m, true, lo, mid, hi, width) && lo < hi
    ensures DemandAt(m, true, lo).Needs?
  {
    hide DemandAt;
  }
}
