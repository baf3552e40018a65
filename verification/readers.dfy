/** The kernel's read functions, put together from their parts, as readers for a search. */
module Readers {
  import opened Common
  import opened TaskMemory
  import opened KernelMemory
  import opened TransferAll
  import opened Find

  /** The read function made of a range finder and a transfer function, for requests up to `end`. */
  ghost function ReaderOf(range: Finder, transfer: Mover, access: nat, end: Word): Reader
    requires Progresses(range, access, end) && MovesPrefix(transfer)
  {
    (address: Word, n: nat) =>
      if address + n <= end then
        var o := Perform(range, transfer, address, n, access);
        Reading(o.size, if o.next.Some? then o.next.value else 0)
      else
        Reading(0, 0)
  }

  /** A read function with an exact range finder is what a search asks for. */
  lemma ReaderReadsViable(viable: int -> bool, pageSize: nat, end: Word, range: Finder, transfer: Mover, access: nat)
    requires pageSize > 0 && MovesPrefix(transfer)
    requires FindsViable(viable, pageSize, end, access, range) && MovesViable(viable, transfer)
    ensures Progresses(range, access, end)
    ensures ReadsViable(viable, pageSize, end, ReaderOf(range, transfer, access, end))
  {
    hide Perform, Progresses, MovesPrefix, FindsViable, MovesViable, ReaderAnswers;
    ExactFinderProgresses(viable, pageSize, end, access, range);
    var reader := ReaderOf(range, transfer, access, end);
    forall address: Word, n: nat | 0 < n && address + n <= end
      ensures ReaderAnswers(viable, pageSize, address, n, reader(address, n).size, reader(address, n).next)
    {
      ExactFinderMakesExactReader(viable, pageSize, end, range, transfer, address, n, access);
    }
  }

  /** The range finder answers as TransferRangeSafe does for reads, with no lookup failing. */
  ghost predicate AnswersSafely(m: Map, fails: Word -> bool, end: Word, range: Finder, access: nat)
    requires m.pageSize > 0
  {
    forall address: Word, n: nat :: address + n <= end ==>
      SafeAnswer(m, false, fails, address, n, range(address, n, access)) && !range(address, n, access).code.Error?
  }

  /** The search for safe ranges is exact up to `end` exactly if that is not inside a topmost page that is safe. */
  lemma SafeFinderIsExact(m: Map, fails: Word -> bool, end: Word, range: Finder, access: nat)
    requires ValidMap(m)
    requires m.pageSize > 0 && AnswersSafely(m, fails, end, range, access)
    ensures m.pageSize <= TWO_64
    ensures FindsViable(SafeBytes(m, false, false), m.pageSize, end, access, range)
       <==> end <= TWO_64 - m.pageSize || !IsSafe(m, false, false, TWO_64 - m.pageSize)
  {
    hide SafeAnswer, FinderAnswers, ValidMap, IsMissed, SafeBytes, IsSafe;
    NoneMissedBelow(m, false, end);
    forall address: Word, n: nat | address + n <= end
      ensures FinderAnswers(SafeBytes(m, false, false), m.pageSize, address, n, range(address, n, access))
         <==> !IsMissed(m, false, address, n)
    {
      SafeAnswerExactness(m, false, fails, address, n, range(address, n, access));
    }
  }

  /**
    Reads of safe memory serve a search for the safe mapped bytes, also up to the default end 2^64 - 1, unless the
    search ends inside a topmost page that is safe.
  */
  lemma SafeReadsServeASearch(m: Map, fails: Word -> bool, end: Word, range: Finder, transfer: Mover, access: nat)
    requires ValidMap(m)
    requires m.pageSize > 0 && AnswersSafely(m, fails, end, range, access)
    requires MovesPrefix(transfer) && MovesViable(SafeBytes(m, false, false), transfer)
    requires end <= TWO_64 - m.pageSize || !IsSafe(m, false, false, TWO_64 - m.pageSize)
    ensures Progresses(range, access, end)
    ensures ReadsViable(SafeBytes(m, false, false), m.pageSize, end, ReaderOf(range, transfer, access, end))
  {
    hide ReadsViable, MovesViable, Progresses, MovesPrefix, AnswersSafely, FindsViable, ReaderOf, ValidMap, IsSafe,
         SafeBytes;
    SafeFinderIsExact(m, fails, end, range, access);
    ReaderReadsViable(SafeBytes(m, false, false), m.pageSize, end, range, transfer, access);
  }

  /**
    Reads that respect special regions serve a search for the bytes they allow, with any access width, when special
    regions are made of whole pages.
  */
  lemma AllReadsServeASearch(m: Layout, end: Word, range: Finder, transfer: Mover, access: nat)
    requires ValidLayout(m) && SpecialPages(m)
    requires MovesPrefix(transfer) && MovesViable(AllowedBytes(m, access == 0), transfer)
    requires forall address: Word, n: nat :: address + n <= end ==>
      exists mid: nat, width: nat :: AllAnswer(m, address, n, access, range(address, n, access), mid, width)
    ensures Progresses(range, access, end)
    ensures ReadsViable(AllowedBytes(m, access == 0), m.vm.pageSize, end, ReaderOf(range, transfer, access, end))
  {
    hide ReadsViable, MovesViable, Progresses, MovesPrefix, AllAnswer, FinderAnswers, ReaderOf, ValidSpecials;
    var viable := AllowedBytes(m, access == 0);
    forall address: Word, n: nat | address + n <= end
      ensures FinderAnswers(viable, m.vm.pageSize, address, n, range(address, n, access))
    {
      var answer := range(address, n, access);
      var mid: nat, width: nat :| AllAnswer(m, address, n, access, answer, mid, width);
      PagedAnswerIsExact(m, address, n, access, answer, mid, width);
    }
    ReaderReadsViable(viable, m.vm.pageSize, end, range, transfer, access);
  }
}
