/** The special regions that the program knows for each platform, and how it looks them up. */
module MemoryRegions {
  import opened Common
  import opened Pages
  import opened TaskMemory
  import opened KernelMemory
  import opened TransferAll

  // ---- The tables ----

  const ARM64_PHYSICAL: seq<Special> := [
    Special(0x2_0000_0000, 0x2_ffff_ffff, 0),
    Special(0x7_c000_0000, 0x7_c0ff_ffff, 0)
  ]

  const ARM64_VIRTUAL: seq<Special> := [
    Special(0xffff_fff0_001f_c000, 0xffff_fff0_001f_ffff, 0)
  ]

  const X86_64_PHYSICAL: seq<Special> := [
    Special(0xe00f_8000, 0xe00f_8fff, 4),
    Special(0xfec0_0000, 0xfecf_ffff, 4),
    Special(0xfed1_0000, 0xfed1_7fff, 4),
    Special(0xfed1_8000, 0xfed1_8fff, 4),
    Special(0xfed1_c000, 0xfed1_ffff, 4),
    Special(0xfee0_0000, 0xfeef_ffff, 0),
    Special(0xf_9014_0000, 0xf_9014_7fff, 4)
  ]

  const X86_64_VIRTUAL: seq<Special> := []

  // ---- Looking a region up ----

  /** Looks for the first region that intersects the n bytes from x, in a table that is in order. */
  method RegionFind(specials: seq<Special>, x: Word, n: nat) returns (r: Option<Special>)
    requires ValidSpecials(specials) && 0 < n && x + n <= TWO_64
    ensures r == FindSpecial(specials, x, n)
  {
    hide Wrap;
    var last := Wrap(x + n - 1);
    WrapSmall(x + n - 1);
    assert specials[0..] == specials;
    var i := 0;
    while i < |specials|
      invariant i <= |specials| && FindSpecial(specials[i..], x, n) == FindSpecial(specials, x, n)
    {
      assert specials[i] in specials && specials[i..][0] == specials[i] && specials[i..][1..] == specials[i + 1..];
      if specials[i].start > last {
        return None;
      }
      if specials[i].end >= x {
        return Some(specials[i]);
      }
      i := i + 1;
    }
    return None;
  }

  // ---- What the tables are like ----

  /** A table in order whose regions are made of pages of the given size. */
  ghost predicate IsPagedTable(specials: seq<Special>, pageSize: nat)
    requires pageSize > 0
  {
    ValidSpecials(specials) && MadeOfPages(specials, pageSize)
  }

  /** Every region of the arm64 tables is made of whole pages, of either size that such a kernel may have. */
  lemma Arm64RegionsAreMadeOfPages(pageSize: nat)
    requires pageSize == 0x1000 || pageSize == 0x4000
    ensures IsPageSize(pageSize)
    ensures IsPagedTable(ARM64_VIRTUAL, pageSize) && IsPagedTable(ARM64_PHYSICAL, pageSize)
  {
  }

  lemma X86RegionsAreInOrder()
    ensures ValidSpecials(X86_64_PHYSICAL)
  {
  }

  lemma X86RegionsAreWholePages()
    ensures IsPageSize(0x1000) && MadeOfPages(X86_64_PHYSICAL, 0x1000)
  {
  }

  /** So is every region of the x86_64 tables, where pages have one size. */
  lemma X86RegionsAreMadeOfPages()
    ensures IsPageSize(0x1000) && IsPagedTable(X86_64_VIRTUAL, 0x1000) && IsPagedTable(X86_64_PHYSICAL, 0x1000)
  {
    X86RegionsAreInOrder();
    X86RegionsAreWholePages();
  }

  /** The layouts that the program can meet: any page map, with the tables of its platform. */
  ghost predicate IsPlatform(m: Layout) {
    || ((m.vm.pageSize == 0x1000 || m.vm.pageSize == 0x4000)
        && m.virtual == ARM64_VIRTUAL && m.physical == ARM64_PHYSICAL)
    || (m.vm.pageSize == 0x1000 && m.virtual == X86_64_VIRTUAL && m.physical == X86_64_PHYSICAL)
  }

  lemma PlatformRegionsAreMadeOfPages(m: Layout)
    requires IsPlatform(m)
    ensures ValidLayout(m) && SpecialPages(m)
  {
    hide ValidSpecials, MadeOfPages;
    if m.physical == ARM64_PHYSICAL && m.virtual == ARM64_VIRTUAL {
      Arm64RegionsAreMadeOfPages(m.vm.pageSize);
    } else {
      X86RegionsAreMadeOfPages();
    }
  }

  /** So on both platforms every answer is exact, and `next` never skips a byte that may be transferred. */
  lemma PlatformAnswersAreExact(m: Layout, access: nat)
    requires IsPlatform(m)
    ensures m.vm.pageSize > 0 && NextIsAlwaysSound(m, access)
    ensures forall address: Word, n: nat, answer: RangeAnswer, mid: nat, width: nat ::
      address + n <= TWO_64 && AllAnswer(m, address, n, access, answer, mid, width) ==>
        FinderAnswers(AllowedBytes(m, access == 0), m.vm.pageSize, address, n, answer)
  {
    hide IsPlatform, ValidLayout, SpecialPages, AllAnswer, FinderAnswers, AllowedBytes, NextIsAlwaysSound;
    PlatformRegionsAreMadeOfPages(m);
    LayoutHasPages(m);
    SpecialPagesRunToPageEnds(m, access == 0);
    NextSoundness(m, access);
    forall address: Word, n: nat, answer: RangeAnswer, mid: nat, width: nat |
      address + n <= TWO_64 && AllAnswer(m, address, n, access, answer, mid, width)
      ensures FinderAnswers(AllowedBytes(m, access == 0), m.vm.pageSize, address, n, answer)
    {
      PagedAnswerIsExact(m, address, n, access, answer, mid, width);
    }
  }
}
