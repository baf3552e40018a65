/**
  The transfer engine: a driver loop that asks a range finder how much of the rest of the request may be moved
  and hands that much to a transfer function, and the splitter that cuts a transfer into pieces at page boundaries.

  Range finders and transfer functions are function pointers in the source. Here they are functions of their
  inputs, and the contracts in the header become predicates over a notion of which addresses are viable.
*/
module TaskMemory {
  import opened Common

  datatype IoResult = Success | Error | Protection | Unmapped | Inaccessible

  /** What a range finder stores: the bytes that may be moved, the access width to use and where to go on. */
  datatype RangeAnswer = RangeAnswer(code: IoResult, size: nat, access: nat, next: Word)

  /** What a transfer function stores: how many bytes it moved. */
  datatype Moved = Moved(code: IoResult, size: nat)

  /** What a whole transfer stores; `next` is not written when nothing was asked for. */
  datatype Outcome = Outcome(code: IoResult, size: nat, next: Option<Word>)

  type Finder = (Word, nat, nat) -> RangeAnswer

  type Mover = (Word, nat, nat) -> Moved

  // ---- Contracts ----

  ghost predicate AllViable(viable: int -> bool, lo: int, hi: int) {
    forall x :: lo <= x < hi ==> viable(x)
  }

  ghost predicate NoneViable(viable: int -> bool, lo: int, hi: int) {
    forall x :: lo <= x < hi ==> !viable(x)
  }

  /** k is the length of the longest prefix of the n bytes from `address` that is made of viable bytes. */
  ghost predicate IsViablePrefix(viable: int -> bool, address: int, n: int, k: int) {
    && 0 <= k <= n
    && AllViable(viable, address, address + k)
    && (k < n ==> !viable(address + k))
  }

  /** No viable byte lies between `from` and `next`, where `next` 0 stands for the end of the address space. */
  ghost predicate NextIsSound(viable: int -> bool, from: int, next: Word) {
    if next == 0 then NoneViable(viable, from, TWO_64)
    else from <= next && NoneViable(viable, from, next)
  }

  /** Where a failed request goes on: past the byte that failed it, at a page boundary, skipping nothing. */
  ghost predicate Resumes(viable: int -> bool, from: int, next: Word, pageSize: nat)
    requires pageSize > 0
  {
    && NextIsSound(viable, from, next)
    && (next == 0 || (from < next && next % pageSize == 0))
  }

  /** The contract of a range finder that is exact about `viable`. */
  ghost predicate FinderAnswers(viable: int -> bool, pageSize: nat, address: int, n: nat, answer: RangeAnswer)
    requires pageSize > 0
  {
    && answer.size <= n
    && (if answer.code.Success? then
          && (n > 0 ==> answer.size > 0)
          && AllViable(viable, address, address + answer.size)
          && (answer.size == n ==> answer.next == Wrap(address + n))
        else
          && answer.size < n
          && IsViablePrefix(viable, address, n, answer.size)
          && Resumes(viable, address + answer.size, answer.next, pageSize))
  }

  /** The contract of a read: it moves the longest viable prefix, and `next` tells where to go on. */
  ghost predicate ReaderAnswers(viable: int -> bool, pageSize: nat, address: int, n: nat, moved: nat, next: Word)
    requires pageSize > 0
  {
    && IsViablePrefix(viable, address, n, moved)
    && (if moved == n then next == Wrap(address + n) else Resumes(viable, address + moved, next, pageSize))
  }

  /**
    What the driver relies on, for the requests it makes on the way to `end`: a finder never grants more than was
    asked, and a success grants something.
  */
  ghost predicate Progresses(range: Finder, access: nat, end: nat) {
    forall address: Word, n: nat :: n > 0 && address + n <= end ==>
      range(address, n, access).size <= n
      && (range(address, n, access).code.Success? ==> range(address, n, access).size > 0)
  }

  /** What the driver relies on: a transfer moves a prefix of its request, and all of it when it succeeds. */
  ghost predicate MovesPrefix(transfer: Mover) {
    forall address, n: nat, access: nat ::
      transfer(address, n, access).size <= n
      && (transfer(address, n, access).code.Success? ==> transfer(address, n, access).size == n)
  }

  // ---- The driver, as a function of the range finder and the transfer function ----

  /** The outcome of moving `left` bytes at `address`. */
  ghost function Perform(range: Finder, transfer: Mover, address: Word, left: nat, access: nat): (o: Outcome)
    requires Progresses(range, access, address + left) && MovesPrefix(transfer)
    ensures o.size <= left
    ensures o.code.Success? ==> o.size == left
    ensures left > 0 ==> o.next.Some?
    decreases left
  {
    if left == 0 then Outcome(Success, 0, None)
    else
      var answer := range(address, left, access);
      if !answer.code.Success? && answer.size == 0 then Outcome(answer.code, 0, Some(answer.next))
      else
        var moved := transfer(address, answer.size, answer.access);
        if !moved.code.Success? then Outcome(moved.code, moved.size, Some(answer.next))
        else if !answer.code.Success? || answer.size == left then Outcome(answer.code, answer.size, Some(answer.next))
        else
          var rest := Perform(range, transfer, Wrap(address + answer.size), left - answer.size, access);
          Outcome(rest.code, answer.size + rest.size, rest.next)
  }

  /** A partial failure of the range finder still moves exactly what it granted, and its code is what is returned. */
  lemma PartialRangeIsMoved(range: Finder, transfer: Mover, address: Word, n: nat, access: nat)
    requires Progresses(range, access, address + n) && MovesPrefix(transfer) && n > 0
    ensures var answer := range(address, n, access);
      !answer.code.Success? && (answer.size > 0 ==> transfer(address, answer.size, answer.access).code.Success?) ==>
        Perform(range, transfer, address, n, access) == Outcome(answer.code, answer.size, Some(answer.next))
  {
    var answer := range(address, n, access);
    assert answer.size > 0 && transfer(address, answer.size, answer.access).code.Success? ==>
      transfer(address, answer.size, answer.access).size == answer.size;
  }

  /** When the transfer of what was granted fails, its code and the bytes it moved are what is returned. */
  lemma FailedTransferIsReported(range: Finder, transfer: Mover, address: Word, n: nat, access: nat)
    requires Progresses(range, access, address + n) && MovesPrefix(transfer) && n > 0
    ensures var answer := range(address, n, access);
      var moved := transfer(address, answer.size, answer.access);
      answer.size > 0 && !moved.code.Success? ==>
        Perform(range, transfer, address, n, access) == Outcome(moved.code, moved.size, Some(answer.next))
  {
  }

  /** A range finder that only grants viable bytes. */
  ghost predicate GrantsOnly(viable: int -> bool, range: Finder) {
    forall address: Word, n: nat, access: nat :: 0 < n && address + n <= TWO_64 ==>
      AllViable(viable, address, address + range(address, n, access).size)
  }

  /** Whatever the transfer function does, only bytes that the range finder granted are moved. */
  lemma {:induction false} OnlyGrantedBytesMove(
      viable: int -> bool, range: Finder, transfer: Mover, address: Word, n: nat, access: nat)
    requires Progresses(range, access, address + n) && MovesPrefix(transfer)
    requires GrantsOnly(viable, range)
    requires address + n <= TWO_64
    ensures AllViable(viable, address, address + Perform(range, transfer, address, n, access).size)
    decreases n
  {
    hide Perform, Progresses, MovesPrefix, GrantsOnly, AllViable, Wrap;
    NothingIsViable(viable, address);
    if n > 0 {
      GrantIsFirst(viable, range, transfer, address, n, access);
      var answer := range(address, n, access);
      if answer.code.Success? && answer.size < n {
        WrapSmall(address + answer.size);
        var rest := Perform(range, transfer, address + answer.size, n - answer.size, access);
        OnlyGrantedBytesMove(viable, range, transfer, address + answer.size, n - answer.size, access);
        ViableBehind(viable, address, answer.size, rest.size);
      }
    } else {
      NothingToMove(range, transfer, address, access);
    }
  }

  lemma NothingIsViable(viable: int -> bool, address: int)
    ensures AllViable(viable, address, address)
  {
  }

  lemma NothingToMove(range: Finder, transfer: Mover, address: Word, access: nat)
    requires Progresses(range, access, address) && MovesPrefix(transfer)
    ensures Perform(range, transfer, address, 0, access).size == 0
  {
  }

  lemma ViableBehind(viable: int -> bool, address: int, k: nat, n: nat)
    requires AllViable(viable, address, address + k)
    ensures AllViable(viable, address + k, address + k + n) ==> AllViable(viable, address, address + (k + n))
  {
  }

  /** What the first round moves is granted, and what the others move starts where it ends. */
  lemma GrantIsFirst(viable: int -> bool, range: Finder, transfer: Mover, address: Word, n: nat, access: nat)
    requires Progresses(range, access, address + n) && MovesPrefix(transfer) && GrantsOnly(viable, range)
    requires 0 < n && address + n <= TWO_64
    ensures var answer, all := range(address, n, access), Perform(range, transfer, address, n, access);
      && AllViable(viable, address, address + answer.size)
      && answer.size <= n && (answer.code.Success? ==> answer.size > 0)
      && (AllViable(viable, address, address + all.size)
          || (answer.code.Success? && answer.size < n
              && Progresses(range, access, Wrap(address + answer.size) + (n - answer.size))
              && all.size == answer.size
                 + Perform(range, transfer, Wrap(address + answer.size), n - answer.size, access).size))
  {
    hide Wrap;
    var answer := range(address, n, access);
    assert AllViable(viable, address, address + answer.size);
    WrapShrinks(address + answer.size);
  }

  /** A range finder that meets its contract on every request ending at or below `top` with the given access width. */
  ghost predicate FindsViable(viable: int -> bool, pageSize: nat, top: Word, access: nat, range: Finder)
    requires pageSize > 0
  {
    forall address: Word, n: nat :: address + n <= top ==>
      FinderAnswers(viable, pageSize, address, n, range(address, n, access))
  }

  /** A stretch of addresses, its end not included. */
  datatype Range = Range(start: nat, end: nat)

  /** The ranges found by asking for all that is left before `end`, and going on at `next` after a failure. */
  ghost function Ranges(viable: int -> bool, pageSize: nat, range: Finder, access: nat, address: Word, end: Word)
    : (ranges: seq<Range>)
    requires pageSize > 0 && FindsViable(viable, pageSize, end, access, range)
    decreases end - address
  {
    if address >= end then []
    else
      var answer := range(address, end - address, access);
      assert FinderAnswers(viable, pageSize, address, end - address, answer);
      var found := Range(address, address + answer.size);
      if answer.code.Success? then
        [found] + Ranges(viable, pageSize, range, access, address + answer.size, end)
      else if answer.next == 0 then [found]
      else [found] + Ranges(viable, pageSize, range, access, answer.next, end)
  }

  ghost predicate IsVisited(ranges: seq<Range>, x: int) {
    exists r <- ranges :: r.start <= x < r.end
  }

  /** The ranges hold every viable byte from lo up to hi, and no other, in ascending order. */
  ghost predicate Visits(viable: int -> bool, ranges: seq<Range>, lo: nat, hi: nat) {
    && (forall x :: lo <= x < hi ==> (viable(x) <==> IsVisited(ranges, x)))
    && (forall r <- ranges :: lo <= r.start <= r.end <= Max(lo, hi))
    && (forall i, j :: 0 <= i < j < |ranges| ==> ranges[i].end <= ranges[j].start)
  }

  /** Iterating by means of `next` visits every viable byte before the end, and no other, in ascending ranges. */
  lemma {:induction false} IterationVisitsEveryViableByte(
      viable: int -> bool, pageSize: nat, range: Finder, access: nat, address: Word, end: Word)
    requires pageSize > 0 && FindsViable(viable, pageSize, end, access, range)
    ensures Visits(viable, Ranges(viable, pageSize, range, access, address, end), address, end)
    decreases end - address
  {
    hide FindsViable, FinderAnswers, Visits, Ranges;
    if address < end {
      RangeFound(viable, pageSize, range, access, address, end);
      RangesFrom(viable, pageSize, range, access, address, end);
      var answer := range(address, end - address, access);
      var next := if answer.code.Success? then address + answer.size else answer.next;
      if answer.code.Success? || answer.next != 0 {
        IterationVisitsEveryViableByte(viable, pageSize, range, access, next, end);
        RangesFrom(viable, pageSize, range, access, next, end);
        VisitsBehind(viable, address, address + answer.size, next, end,
                     Ranges(viable, pageSize, range, access, next, end));
      } else {
        VisitsNone(viable, end, end);
        VisitsBehind(viable, address, address + answer.size, end, end, []);
        assert [Range(address, address + answer.size)] + [] == [Range(address, address + answer.size)];
      }
    } else {
      RangesFrom(viable, pageSize, range, access, address, end);
      VisitsNone(viable, address, end);
    }
  }

  lemma VisitsNone(viable: int -> bool, lo: nat, hi: nat)
    requires hi <= lo
    ensures Visits(viable, [], lo, hi)
  {
  }

  lemma RangesFrom(viable: int -> bool, pageSize: nat, range: Finder, access: nat, address: Word, end: Word)
    requires pageSize > 0 && FindsViable(viable, pageSize, end, access, range)
    ensures address >= end ==> Ranges(viable, pageSize, range, access, address, end) == []
    ensures address < end ==>
      var answer := range(address, end - address, access);
      var found := Range(address, address + answer.size);
      var ranges := Ranges(viable, pageSize, range, access, address, end);
      answer.size <= end - address
      && if answer.code.Success? then
           ranges == [found] + Ranges(viable, pageSize, range, access, address + answer.size, end)
         else if answer.next == 0 then ranges == [found]
         else ranges == [found] + Ranges(viable, pageSize, range, access, answer.next, end)
  {
    hide FindsViable, FinderAnswers;
    if address < end { RangeFound(viable, pageSize, range, access, address, end); }
  }

  /** One more range in front: nothing is viable between its end and where the others start. */
  lemma VisitsBehind(viable: int -> bool, lo: nat, mid: nat, next: nat, hi: nat, ranges: seq<Range>)
    requires lo <= mid <= hi && mid <= next && Visits(viable, ranges, next, hi)
    requires forall x :: lo <= x < mid ==> viable(x)
    requires forall x :: mid <= x < next ==> !viable(x)
    requires next > hi ==> ranges == []
    ensures Visits(viable, [Range(lo, mid)] + ranges, lo, hi)
  {
    var all := [Range(lo, mid)] + ranges;
    assert all[0] == Range(lo, mid) && all[1..] == ranges;
    forall x | lo <= x < hi
      ensures viable(x) <==> IsVisited(all, x)
    {
      if x < mid {
        assert all[0] in all;
      } else if IsVisited(ranges, x) {
        var r :| r in ranges && r.start <= x < r.end;
        assert r in all;
      }
    }
  }

  /** One range of the iteration: its bytes are viable, and those up to where the iteration goes on are not. */
  lemma RangeFound(viable: int -> bool, pageSize: nat, range: Finder, access: nat, address: Word, end: Word)
    requires pageSize > 0 && FindsViable(viable, pageSize, end, access, range) && address < end
    ensures var answer := range(address, end - address, access);
      && answer.size <= end - address
      && (forall x :: address <= x < address + answer.size ==> viable(x))
      && (answer.code.Success? ==> answer.size > 0)
      && (!answer.code.Success? && answer.next != 0 ==> address + answer.size < answer.next)
      && (!answer.code.Success? ==>
            forall x :: address + answer.size <= x < (if answer.next == 0 then end else answer.next) ==> !viable(x))
  {
    FinderAt(viable, pageSize, end, access, range, address, end - address);
  }

  function Max(a: int, b: int): int {
    if a < b then b else a
  }

  lemma FinderAt(viable: int -> bool, pageSize: nat, top: Word, access: nat, range: Finder, address: Word, n: nat)
    requires pageSize > 0 && FindsViable(viable, pageSize, top, access, range) && address + n <= top
    ensures FinderAnswers(viable, pageSize, address, n, range(address, n, access))
  {
  }

  /** A transfer function that succeeds on viable bytes. */
  ghost predicate MovesViable(viable: int -> bool, transfer: Mover) {
    forall address: Word, n: nat, access: nat :: AllViable(viable, address, address + n) ==>
      transfer(address, n, access).code.Success?
  }

  lemma PrefixBehind(viable: int -> bool, address: int, n: int, done: nat, k: nat)
    requires AllViable(viable, address, address + done)
    ensures IsViablePrefix(viable, address + done, n - done, k) ==> IsViablePrefix(viable, address, n, done + k)
  {
  }

  /** An exact range finder makes progress on every request that its contract covers. */
  lemma ExactFinderProgresses(viable: int -> bool, pageSize: nat, top: Word, access: nat, range: Finder)
    requires pageSize > 0 && FindsViable(viable, pageSize, top, access, range)
    ensures Progresses(range, access, top)
  {
    hide AllViable, Resumes;
    forall address: Word, n: nat | n > 0 && address + n <= top
      ensures range(address, n, access).size <= n
      ensures range(address, n, access).code.Success? ==> range(address, n, access).size > 0
    {
      assert FinderAnswers(viable, pageSize, address, n, range(address, n, access));
    }
  }

  lemma WrapShrinks(x: nat)
    ensures Wrap(x) <= x
  {
  }

  /** One round of a read with an exact range finder and a transfer that succeeds on viable bytes. */
  lemma GrantIsMoved(viable: int -> bool, pageSize: nat, top: Word, range: Finder, transfer: Mover, address: Word,
                     n: nat, access: nat)
    requires pageSize > 0 && MovesPrefix(transfer)
    requires FindsViable(viable, pageSize, top, access, range) && MovesViable(viable, transfer)
    requires 0 < n && address + n <= top
    ensures Progresses(range, access, address + n)
    ensures var answer := range(address, n, access);
      && FinderAnswers(viable, pageSize, address, n, answer)
      && AllViable(viable, address, address + answer.size)
      && (answer.code.Success? && answer.size < n ==>
            Progresses(range, access, Wrap(address + answer.size) + (n - answer.size)))
      && Perform(range, transfer, address, n, access) ==
         (if !answer.code.Success? || answer.size == n then Outcome(answer.code, answer.size, Some(answer.next))
          else
            var rest := Perform(range, transfer, Wrap(address + answer.size), n - answer.size, access);
            Outcome(rest.code, answer.size + rest.size, rest.next))
  {
    hide AllViable, Resumes, Wrap;
    ExactFinderProgresses(viable, pageSize, top, access, range);
    var answer := range(address, n, access);
    assert FinderAnswers(viable, pageSize, address, n, answer);
    WrapShrinks(address + answer.size);
    assert transfer(address, answer.size, answer.access).code.Success?;
  }

  /**
    An exact range finder with a transfer that succeeds on viable bytes makes a read that moves exactly the
    longest viable prefix and whose `next` skips no viable byte.
  */
  lemma {:induction false} ExactFinderMakesExactReader(
      viable: int -> bool, pageSize: nat, top: Word, range: Finder, transfer: Mover, address: Word, n: nat, access: nat)
    requires pageSize > 0 && MovesPrefix(transfer)
    requires FindsViable(viable, pageSize, top, access, range) && MovesViable(viable, transfer)
    requires 0 < n && address + n <= top
    ensures Progresses(range, access, address + n)
    ensures var o := Perform(range, transfer, address, n, access);
      && ReaderAnswers(viable, pageSize, address, n, o.size, o.next.value)
      && (o.code.Success? <==> o.size == n)
    decreases n
  {
    hide AllViable, Resumes, Perform, Progresses, MovesPrefix, FindsViable, MovesViable, Wrap;
    GrantIsMoved(viable, pageSize, top, range, transfer, address, n, access);
    var answer := range(address, n, access);
    if answer.code.Success? && answer.size < n {
      assert Wrap(address + answer.size) == address + answer.size by { WrapSmall(address + answer.size); }
      var rest := Perform(range, transfer, address + answer.size, n - answer.size, access);
      ExactFinderMakesExactReader(
        viable, pageSize, top, range, transfer, address + answer.size, n - answer.size, access);
      PrefixBehind(viable, address, n, answer.size, rest.size);
    }
  }

  // ---- The driver, moving bytes ----

  /** The bytes of a task's memory. */
  class Memory {
    var bytes: Word -> Byte

    constructor (contents: Word -> Byte)
      ensures bytes == contents
    {
      bytes := contents;
    }
  }

  /** The byte at x once `data` has been stored from `start` on, wrapping at the top of the address space. */
  function StoredAt(bytes: Word -> Byte, start: Word, data: seq<Byte>, x: Word): Byte {
    var d := Wrap(x - start);
    if d < |data| then data[d] else bytes(x)
  }

  /** `now` is `before` with `data` stored from `start` on. */
  ghost predicate IsStored(before: Word -> Byte, now: Word -> Byte, start: Word, data: seq<Byte>) {
    forall x: Word :: now(x) == StoredAt(before, start, data, x)
  }

  /** The first n bytes of `now` were loaded from `start` on, and the others are as in `before`. */
  ghost predicate IsLoaded(before: seq<Byte>, now: seq<Byte>, bytes: Word -> Byte, start: Word, n: nat) {
    && |now| == |before|
    && forall j :: 0 <= j < |now| ==> now[j] == if j < n then bytes(Wrap(start + j)) else before[j]
  }

  /** What a write has stored, a read of the same range brings back. */
  lemma StoredIsLoaded(before: Word -> Byte, now: Word -> Byte, start: Word, data: seq<Byte>, buffer: seq<Byte>,
                       loaded: seq<Byte>)
    requires IsStored(before, now, start, data) && IsLoaded(buffer, loaded, now, start, |data|)
    requires |data| <= |buffer| && |data| <= TWO_64
    ensures loaded[..|data|] == data
  {
    forall j | 0 <= j < |data|
      ensures loaded[j] == data[j]
    {
      WrapDistance(start, j);
    }
  }

  lemma WrapShift(x: Word, start: Word, n: nat)
    requires n <= TWO_64
    ensures Wrap(x - Wrap(start + n)) ==
      var d := Wrap(x - start); if d >= n then d - n else d - n + TWO_64
  {
  }

  lemma WrapAdvance(start: Word, n: int, j: int)
    ensures Wrap(Wrap(start + n) + j) == Wrap(start + n + j)
  {
    WrapLinear(start + n, 1, j);
  }

  /** Storing a second run of bytes right behind a first one stores both. */
  lemma StoredBehind(before: Word -> Byte, between: Word -> Byte, now: Word -> Byte, start: Word, data: seq<Byte>,
                     done: nat, n: nat)
    requires done + n <= |data| && done + n <= TWO_64
    requires IsStored(before, between, start, data[..done])
    requires IsStored(between, now, Wrap(start + done), data[done..done + n])
    ensures IsStored(before, now, start, data[..done + n])
  {
    forall x: Word
      ensures now(x) == StoredAt(before, start, data[..done + n], x)
    {
      WrapShift(x, start, done);
    }
  }

  /** Loading a second run of bytes right behind a first one loads both. */
  lemma LoadedBehind(before: seq<Byte>, between: seq<Byte>, now: seq<Byte>, bytes: Word -> Byte, start: Word,
                     done: nat, n: nat)
    requires done + n <= |before|
    requires IsLoaded(before, between, bytes, start, done)
    requires |now| == |between|
    requires forall j :: 0 <= j < |now| ==>
      now[j] == if done <= j < done + n then bytes(Wrap(Wrap(start + done) + (j - done))) else between[j]
    ensures IsLoaded(before, now, bytes, start, done + n)
  {
    hide Wrap;
    forall j | 0 <= j < |now|
      ensures now[j] == if j < done + n then bytes(Wrap(start + j)) else before[j]
    {
      WrapAdvance(start, done, j - done);
    }
  }

  /** The effect of a transfer that reports n bytes on the buffer from index `done` and on memory. */
  method MoveBytes(memory: Memory, address: Word, data: array<Byte>, done: nat, n: nat, isWrite: bool)
    requires done + n <= data.Length
    modifies if isWrite then {memory} else {}
    modifies if isWrite then {} else {data}
    ensures isWrite ==> IsStored(old(memory.bytes), memory.bytes, address, data[done..done + n])
    ensures !isWrite ==> forall j :: 0 <= j < data.Length ==>
      data[j] == if done <= j < done + n then memory.bytes(Wrap(address + (j - done))) else old(data[j])
  {
    if isWrite {
      var bytes, moved := memory.bytes, data[done..done + n];
      memory.bytes := (x: Word) => StoredAt(bytes, address, moved, x);
    } else {
      forall j | done <= j < done + n {
        data[j] := memory.bytes(Wrap(address + (j - done)));
      }
    }
  }

  lemma WrapDistance(start: Word, n: nat)
    requires n < TWO_64
    ensures Wrap(Wrap(start + n) - start) == n
  {
  }

  lemma NothingMoved(bytes: Word -> Byte, data: seq<Byte>, start: Word)
    ensures IsStored(bytes, bytes, start, data[..0]) && IsLoaded(data, data, bytes, start, 0)
    ensures Wrap(start + 0) == start
  {
  }

  /** What the loop keeps: what was stored so far followed by the rest of the transfer is the whole transfer. */
  ghost predicate StillToDo(range: Finder, transfer: Mover, start: Word, size: nat, access: nat, sofar: Outcome,
                            address: Word, left: nat)
    requires Progresses(range, access, start + size) && MovesPrefix(transfer)
    requires left > 0 ==> address + left <= start + size
  {
    var all := Perform(range, transfer, start, size, access);
    if left == 0 then sofar == all
    else
      var rest := Perform(range, transfer, address, left, access);
      sofar.size + left == size && all == Outcome(rest.code, sofar.size + rest.size, rest.next)
  }

  lemma StartAndEnd(range: Finder, transfer: Mover, start: Word, size: nat, access: nat)
    requires Progresses(range, access, start + size) && MovesPrefix(transfer)
    ensures StillToDo(range, transfer, start, size, access, Outcome(Success, 0, None), start, size)
    ensures forall sofar, address :: StillToDo(range, transfer, start, size, access, sofar, address, 0) ==>
      sofar == Perform(range, transfer, start, size, access)
  {
    hide Wrap;
  }

  /** One round of the loop: what the range finder and the transfer answer decides how the whole transfer goes on. */
  lemma Round(range: Finder, transfer: Mover, start: Word, size: nat, access: nat, sofar: Outcome, address: Word,
              left: nat)
    requires Progresses(range, access, start + size) && MovesPrefix(transfer)
    requires 0 < left && address + left <= start + size
    requires StillToDo(range, transfer, start, size, access, sofar, address, left)
    ensures sofar.size + left == size
    ensures var all := Perform(range, transfer, start, size, access);
      var answer := range(address, left, access);
      answer.size <= left
      && if !answer.code.Success? && answer.size == 0 then all == Outcome(answer.code, sofar.size, Some(answer.next))
         else
           var result := transfer(address, answer.size, answer.access);
           0 < answer.size && result.size <= answer.size
           && if !result.code.Success? then
                all == Outcome(result.code, sofar.size + result.size, Some(answer.next))
              else
                result.size == answer.size
                && Wrap(address + result.size) + (left - result.size) <= start + size
                && StillToDo(range, transfer, start, size, access,
                             Outcome(answer.code, sofar.size + result.size, Some(answer.next)),
                             Wrap(address + result.size),
                             if answer.code.Success? then left - result.size else 0)
  {
    hide Wrap;
    var answer := range(address, left, access);
    WrapShrinks(address + answer.size);
  }

  /**
    Runs the transfer. A read fills exactly the prefix of the buffer that was moved and leaves memory alone; a
    write stores exactly that prefix into memory and leaves the buffer alone.
  */
  method PerformTransfer(range: Finder, transfer: Mover, memory: Memory, start: Word, size: Word, data: array<Byte>,
                         access: nat, isWrite: bool)
    returns (code: IoResult, moved: nat, next: Option<Word>)
    requires Progresses(range, access, start + size) && MovesPrefix(transfer)
    requires size <= data.Length
    modifies if isWrite then {memory} else {}
    modifies if isWrite then {} else {data}
    ensures Outcome(code, moved, next) == Perform(range, transfer, start, size, access)
    ensures moved <= size && (code.Success? ==> moved == size)
    // A partial failure of the range finder still moves exactly what it granted, and keeps its code.
    ensures size > 0 ==>
      var answer := range(start, size, access);
      !answer.code.Success? && (answer.size > 0 ==> transfer(start, answer.size, answer.access).code.Success?) ==>
        code == answer.code && moved == answer.size && next == Some(answer.next)
    ensures isWrite ==> IsStored(old(memory.bytes), memory.bytes, start, data[..moved])
    ensures !isWrite ==> IsLoaded(old(data[..]), data[..], memory.bytes, start, moved)
  {
    hide Wrap, IsStored, IsLoaded, Progresses, MovesPrefix, Perform, StillToDo;
    code, next := Success, None;
    var left: nat := size;
    var address := start;
    var p: nat := 0;
    ghost var before, contents := memory.bytes, data[..];
    NothingMoved(memory.bytes, data[..], start);
    StartAndEnd(range, transfer, start, size, access);
    while left > 0
      decreases left
      modifies if isWrite then {memory} else {}
      modifies if isWrite then {} else {data}
      invariant p + left <= size
      invariant address == Wrap(start + p)
      invariant left > 0 ==> address + left <= start + size
      invariant StillToDo(range, transfer, start, size, access, Outcome(code, p, next), address, left)
      invariant isWrite ==> IsStored(before, memory.bytes, start, data[..p])
      invariant !isWrite ==> IsLoaded(contents, data[..], memory.bytes, start, p)
    {
      Round(range, transfer, start, size, access, Outcome(code, p, next), address, left);
      var answer := range(address, left, access);
      code, next := answer.code, Some(answer.next);
      if !code.Success? {
        if answer.size == 0 { break; }
        left := answer.size;
      }
      var result := transfer(address, answer.size, answer.access);
      ghost var bytes, buffer := memory.bytes, data[..];
      MoveBytes(memory, address, data, p, result.size, isWrite);
      if isWrite {
        assert data[..][p..p + result.size] == data[p..p + result.size];
        assert data[..][..p] == data[..p];
        assert data[..][..p + result.size] == data[..p + result.size];
        StoredBehind(before, bytes, memory.bytes, start, data[..], p, result.size);
      } else {
        LoadedBehind(contents, buffer, data[..], memory.bytes, start, p, result.size);
      }
      WrapAdvance(start, p, result.size);
      address := Wrap(address + result.size);
      left := left - result.size;
      p := p + result.size;
      if !result.code.Success? {
        code := result.code;
        break;
      }
    }
    moved := Wrap(address - start);
    if size > 0 { PartialRangeIsMoved(range, transfer, start, size, access); }
    WrapDistance(start, p);
  }

  // ---- Splitting a transfer into pieces ----

  /** One Mach or kernel call's worth of a transfer. */
  datatype Piece = Piece(address: Word, size: nat)

  function Total(pieces: seq<Piece>): nat {
    if |pieces| == 0 then 0 else Total(pieces[..|pieces| - 1]) + pieces[|pieces| - 1].size
  }

  /** Each piece is nonempty and starts where the previous one ends, the first at `start`. */
  ghost predicate Tiles(pieces: seq<Piece>, start: Word) {
    |pieces| > 0 ==>
      var before, last := pieces[..|pieces| - 1], pieces[|pieces| - 1];
      Tiles(before, start) && last.size > 0 && last.address == Wrap(start + Total(before))
  }

  lemma OneMorePiece(pieces: seq<Piece>, start: Word, piece: Piece)
    requires Tiles(pieces, start)
    requires piece.size > 0 && piece.address == Wrap(start + Total(pieces))
    ensures Tiles(pieces + [piece], start) && Total(pieces + [piece]) == Total(pieces) + piece.size
  {
    hide Wrap;
    assert (pieces + [piece])[..|pieces|] == pieces;
  }

  /** A tiling leaves no gap: the byte at offset k of the transfer is in one of its pieces, at the right place. */
  lemma {:induction false} TilingCovers(pieces: seq<Piece>, start: Word, k: nat) returns (i: nat)
    requires Tiles(pieces, start) && k < Total(pieces)
    ensures i < |pieces| && Total(pieces[..i]) <= k < Total(pieces[..i]) + pieces[i].size
    ensures pieces[i].address == Wrap(start + Total(pieces[..i]))
  {
    hide Wrap;
    var before := pieces[..|pieces| - 1];
    if k < Total(before) {
      i := TilingCovers(before, start, k);
      assert before[..i] == pieces[..i];
    } else {
      i := |pieces| - 1;
    }
  }

  /**
    Transfers memory a piece at a time; `kernel` says how each Mach call comes out. A piece lies within one page and
    is no wider than a nonzero access width. All pieces but the last reach the end of their page, or are as wide as
    the access width allows.
  */
  method TaskTransfer(kernel: Piece -> IoResult, start: Word, size: Word, access: nat, pageSize: nat)
    returns (code: IoResult, pieces: seq<Piece>, ghost rejected: Piece)
    requires pageSize > 0
    ensures Tiles(pieces, start)
    ensures forall i :: 0 <= i < |pieces| ==>
      && pieces[i].address % pageSize + pieces[i].size <= pageSize && (access != 0 ==> pieces[i].size <= access)
      && kernel(pieces[i]).Success?
    ensures forall i :: 0 <= i < |pieces| - 1 ==>
      pieces[i].address % pageSize + pieces[i].size == pageSize || pieces[i].size == access
    ensures code.Success? ==> Total(pieces) == size
    ensures !code.Success? ==>
      Total(pieces) < size && code == kernel(rejected) && rejected.address == Wrap(start + Total(pieces))
  {
    hide Wrap, Total, Tiles;
    var address, left: nat := start, size;
    pieces, rejected := [], Piece(start, 0);
    NoPieces(start);
    while left > 0
      invariant Total(pieces) + left == size
      invariant address == Wrap(start + Total(pieces))
      invariant Tiles(pieces, start)
      invariant forall i :: 0 <= i < |pieces| ==>
        && pieces[i].address % pageSize + pieces[i].size <= pageSize && (access != 0 ==> pieces[i].size <= access)
        && kernel(pieces[i]).Success?
      invariant forall i :: 0 <= i < |pieces| && (left > 0 || i < |pieces| - 1) ==>
        pieces[i].address % pageSize + pieces[i].size == pageSize || pieces[i].size == access
    {
      var transferSize := pageSize - address % pageSize;
      if left < transferSize { transferSize := left; }
      if access != 0 && access < transferSize { transferSize := access; }
      var piece := Piece(address, transferSize);
      code := kernel(piece);
      if !code.Success? {
        rejected := piece;
        return;
      }
      OneMorePiece(pieces, start, piece);
      WrapAdvance(start, Total(pieces), transferSize);
      pieces := pieces + [piece];
      address := Wrap(address + transferSize);
      left := left - transferSize;
    }
    code := Success;
  }

  lemma NoPieces(start: Word)
    ensures Tiles([], start) && Total([]) == 0 && Wrap(start + 0) == start
  {
  }
}
