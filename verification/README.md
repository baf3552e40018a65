# memctl in Dafny

memctl inspects and changes the memory of a running kernel. This project models the parts of it that
compute: how compressed kernelcaches are unpacked, how symbols are looked up, how kernel extensions
are cached, how memory is transferred and searched, and how names and numbers are read. It proves
what each part is for, over all inputs and all runs.

| file | models |
|---|---|
| `common.dfy`, `pages.dfy` | 64-bit words that wrap around, and addresses rounded to pages |
| `lzss.dfy` | the LZSS decoder with its 4096-byte ring buffer |
| `algorithm.dfy` | binary search, sorting permutations, insertion into and removal from arrays |
| `macho.dfy` | the symbol list of a Mach-O image and the linear searches over it |
| `symbol_table.dfy` | the symbol table: parallel arrays with two sorted indexes, updated in place |
| `linear_lookup.dfy` | the index against the linear search |
| `kext_protocol.dfy` | the life of kernel extension objects as a state machine |
| `kernel.dfy` | the kernel extension cache: a sorted array of reference-counted objects, refining the state machine |
| `mangle.dfy`, `mangle_buffers.dfy` | the grammar of vtable symbols (section 5.1 of the Itanium C++ ABI), and printing and parsing in buffers |
| `strparse.dfy`, `strtodata.dfy` | integers and byte strings in several bases |
| `task_memory.dfy` | the transfer driver, the contracts of range finders and transfer functions, and the page splitter |
| `physical_words.dfy` | the splitter of physical transfers into aligned words |
| `kernel_memory.dfy`, `transfer_all.dfy` | the range finders over the region map, the page map and the special regions |
| `memory_regions.dfy` | the tables of special regions of the two platforms, and their lookup |
| `find.dfy` | the chunked search with its carry-over buffer |
| `readers.dfy` | the kernel's read functions put together, as readers for the search |

## How the model reads the source

- Code that works on memory is written as methods on arrays and objects and proved against functions
  and predicates that know nothing of the representation. Function pointers are functions passed as
  parameters, with the contracts of the headers as preconditions.
- Unsigned 64-bit arithmetic is written on integers with an explicit `Wrap` wherever it can wrap.
  Masks, shifts and bits or-ed together are the divisions, remainders and sums they stand for;
  `PhysicalWords.LobitIsAlignment` is stated on bit vectors.
- Pointers into a buffer are indices, and a C string is the sequence of its characters without the
  terminator.
- What the operating system answers is a parameter: the load information of an extension, the outcome
  of a Mach or kernel call, the region map, the page map, and how many allocations still succeed. The
  range finder is proved for any tables of special regions, and then for those of the two platforms.
- The page size is any divisor of 2^64; the search needs it to be a multiple of 8. The values of the
  Mach constants for share modes and tags come from the system's headers, the tags as repeated in
  external/mach/vm_statistics.h.

## Where the code does less than it seems to

- The overflow tests of `strtoint` look at the wrapped value of one more digit, so both of them miss numerals
  that wrap to an unsuspicious value (`StrParse.SignedOverflowIsMissed`,
  `StrParse.DecimalOverflowIsMissed`, `StrParse.UnsignedOverflowIsMissed`). `StrParse.OverflowOrExact` says
  exactly which numerals are answered rightly; those in range are, and those just out of range are
  reported (`StrParse.NearOverflowIsReported`).
- `read_length` notices a wrapped length only when it got smaller (`Mangle.WrappedLengthIsAccepted`).
  An accepted symbol is a mangling exactly if its lengths are below 2^32 (`Mangle.PrintUndoesParseExactly`).
- `strtodata` takes the first byte 0x0b of a hexadecimal string for the prefix of base 2
  (`StrToData.BareHexBytesAreRead`).
- `transfer_range_safe` does not check the pages of a part of a region that ends at 2^64, and its page
  counter wraps around when a request ends inside the topmost page (`KernelMemory.CheckPages`).
  `KernelMemory.SafeAnswerExactness` gives exactly the requests that are answered wrongly, and
  `KernelMemory.UncheckedPageIsMissed` and `KernelMemory.StartingOverIsMissed` are two of them. A search up to
  a given end meets none of them exactly if the end is not inside the topmost page or that page is not safe
  (`KernelMemory.NoneMissedBelow`, `Readers.SafeFinderIsExact`).
- `transfer_range_all` goes on at the next page after a byte whose physical address may not be touched.
  `TransferAll.NextSoundness` gives exactly the layouts on which that skips no byte that may be transferred.
  A layout on which it does skip one needs a region that ends inside a page (`TransferAll.NextCanSkipAllowedBytes`),
  which none of the program's tables has, so the program as it stands never does (`MemoryRegions.PlatformAnswersAreExact`);
  it is a limit of the lookup in include/memctl/memory_region.h.
- A search whose start lies in the last alignment of the address space starts over at address 0, because
  rounding the start up wraps around (`Find.RoundUpIsExact`, `Find.Find`). The check before its loop lets a
  start through that is not below the end when the bytes of a value there wrap around (`Find.CheckIsExact`).
- The output of the decoder depends on uninitialised ring cells when a match starts in them
  (`Lzss.OutputIndependentOfJunk`, `Lzss.JunkIsReached`).

## Model

| member | source | states |
|---|---|---|
| `Lzss.Decompress` | external/lzss.c:54-95 | the decoder, with ring buffer and shift register: its output is exactly the sliding-window expansion of the token list the input stands for; nothing beyond it is written, nothing beyond the input is read, and it ends |
| `Lzss.ReadToken` | external/lzss.c:70-84 | one round of reading: the shifted marker bit announces the next flag byte, flags are taken least significant first, and a token cut short ends the stream |
| `Lzss.CopyMatch` | external/lzss.c:85-90 | a match copied out of the ring byte by byte is the copy from a constant distance behind, also when it overlaps its own output |
| `Lzss.Put` | external/lzss.c:76-79 | writing one byte keeps in every ring cell the last byte of the history that belongs there |
| `Lzss.RepeatIsPeriodic` | external/lzss.c:85-90 | every byte a match appends equals the one a constant distance before it |
| `Lzss.MatchCopiesFromItsCell` | external/lzss.c:85-90 | a match at the ring cell that byte i of the history was written to copies the history from byte i on |
| `Lzss.FreshWindowIsSpaces` | external/lzss.c:64-66 | matches in the initialised part of the window give spaces |
| `Lzss.MatchFields` | external/lzss.c:83-84 | on bit vectors: the masks and shifts that take a match apart are the sums, quotients and remainders of the model |
| `Lzss.RingIndexFormula` | external/lzss.c:66-69 | the write index after any history is its length plus N - F, modulo N |
| `Lzss.DistanceFormula` | external/lzss.c:86 | the distance of a match at position i is ((r - i - 1) mod 4096) + 1 |
| `Lzss.RegisterMarker` | external/lzss.c:71-75 | bit 8 of the register is clear exactly when the flags of the current byte are used up, and bit 0 is the next flag |
| `Lzss.RegisterLoad` | external/lzss.c:73 | or-ing 0xFF00 to a flag byte loads its eight flags |
| `Lzss.ParseUndoesPack` | external/lzss.c:70-91 | packing any list of tokens (a flag byte for every eight) and parsing it gives the list back |
| `Lzss.DecodeUndoesPack` | external/lzss.c:54-95 | decoding a packed token list yields exactly its expansion |
| `Lzss.DecodePrefix` | external/lzss.c:70-91 | a truncated stream decodes to a prefix of the full output |
| `Lzss.SizeBound` | external/lzss.c:64-94 | 17 times the output length is at most 144 times the input length, for every input |
| `Lzss.OutputIndependentOfJunk` | external/lzss.c:58-68 | the output does not depend on the ring cells that are never initialised exactly if no match starts in them |
| `Lzss.JunkIsReached` | external/lzss.c:66-86 | such a match can occur: the stream 00 EE F0 starts with one |
| `Algorithm.BinarySearch` | src/libmemctl/algorithm.c:5-33 | finds an element that compares equal, or else the one index where the key belongs |
| `Algorithm.SortedIsSearchable` | src/libmemctl/algorithm.c:5-33 | a list of keys sorted by any three-way comparison can be searched for any key |
| `Algorithm.SortingPermutation` | src/libmemctl/algorithm.c:63-72 | the result is a permutation of the indices through which the keys are sorted |
| `Algorithm.InsertKeepsPermutation` | src/libmemctl/symbol_table.c:376-385 | inserting the next index anywhere keeps an index list a permutation |
| `Algorithm.InsertKeepsSorted` | src/libmemctl/symbol_table.c:376-385 | inserting at a place where the new key fits keeps the keys sorted |
| `Algorithm.ArrayInsert` | src/libmemctl/kernel.c:45-59 | the array with one element inserted at an index, and all others in order |
| `Algorithm.MoveDown` | src/libmemctl/kernel.c:68-76 | taking an element out of the array moves the later ones down in order |
| `MachO.Collected` | src/libmemctl/macho.c:288-307 | the visited symbols are the named section symbols that are not debugging entries, each as it stands in the list |
| `MachO.VisitedKinds` | src/libmemctl/macho.c:295-299 | a symbol is visited exactly if it has a name and its type byte is 0x0e, 0x0f, 0x1e or 0x1f |
| `MachO.SegmentContains` | src/libmemctl/macho.c:473-487 | a segment contains the addresses it extends over, and none if it extends past the address space |
| `MachO.SectionContains` | src/libmemctl/macho.c:489-505 | so does a section |
| `MachO.NextSymbol` | src/libmemctl/macho.c:315-326 | the least symbol value above an address, or all ones when there is none |
| `MachO.GuessSymbolSize` | src/libmemctl/macho.c:37-66 | the least of the distances to the next symbol, the end of the section and the end of the segment, or 0 |
| `MachO.GuessIsLeast` | src/libmemctl/macho.c:37-66 | a guess in closed form: the minimum of what is left before the next symbol, of the first segment and of its first section, with all ones for what is missing and as 0 |
| `MachO.SegmentContainingAddress` | src/libmemctl/macho.c:473-487 | the first segment that contains the address |
| `MachO.SectionContainingAddress` | src/libmemctl/macho.c:489-505 | the first section of a segment that contains the address |
| `MachO.ResolveAddress` | src/libmemctl/macho.c:379-418 | the linear search: the first of the section symbols with the greatest value at or below the address, with its guessed size |
| `MachO.BestIsFirst` | src/libmemctl/macho.c:379-418 | the symbol found is a section symbol, greater than every section symbol before it at or below the address and no smaller than those after it |
| `SymbolTables.SymbolTable.InitWithMacho` | src/libmemctl/symbol_table.c:161-208 | the new table has the collected symbols and the segments of the image, and both indexes are sorted permutations |
| `SymbolTables.TableBindsSectionSymbols` | src/libmemctl/symbol_table.c:161-208 | the table of an image binds a name to an address exactly if a symbol list entry of type 0x0e, 0x0f, 0x1e or 0x1f has that name and value |
| `SymbolTables.TableSegmentsAreTheImages` | src/libmemctl/symbol_table.c:126-159 | the segments of the table contain the addresses that those of the image extend over, and end there |
| `SymbolTables.SymbolTable.CollectSymbol` | src/libmemctl/symbol_table.c:71-87 | appends one symbol and stops once the arrays are full |
| `SymbolTables.SymbolTable.CollectSymbols` | src/libmemctl/symbol_table.c:188-194 | the arrays are filled with the collected symbols in order, stopping once they are full |
| `SymbolTables.SymbolTable.CollectSegments` | src/libmemctl/symbol_table.c:126-159 | the start and the end of every segment, in order |
| `SymbolTables.SymbolTable.FindIndexOfSymbol` | src/libmemctl/symbol_table.c:274-281 | finds a name exactly if it is there, and otherwise the place that keeps the name index sorted |
| `SymbolTables.SymbolTable.FindIndexOfAddress` | src/libmemctl/symbol_table.c:315-321 | finds an address exactly if it is there, and a place that splits the addresses, also with duplicates |
| `SymbolTables.SymbolTable.GrowArrays` | src/libmemctl/symbol_table.c:329-352 | when memory runs out after any of the four reallocations, the table is as before |
| `SymbolTables.SymbolTable.AddSymbol` | src/libmemctl/symbol_table.c:354-392 | adds the binding exactly if the name is new and memory suffices; both indexes stay sorted permutations; a refused add changes nothing |
| `SymbolTables.SymbolTable.FindSegmentContainingAddress` | src/libmemctl/symbol_table.c:400-409 | the end of the first segment that contains the address |
| `SymbolTables.SymbolTable.FindSymbolEndAddress` | src/libmemctl/symbol_table.c:418-435 | the next larger symbol address, skipping equal ones, but not past the segment |
| `SymbolTables.SymbolTable.ResolveSymbol` | src/libmemctl/symbol_table.c:437-456 | succeeds exactly if the name was collected or added, with an address bound to it and the extent from there |
| `SymbolTables.SymbolTable.ResolveAddress` | src/libmemctl/symbol_table.c:458-495 | succeeds exactly if a segment contains the address and a symbol is at or below it, with the greatest such symbol and its extent |
| `SymbolTables.ExtentUnique` | src/libmemctl/symbol_table.c:458-495 | an address lies in at most one extent |
| `SymbolTables.ExtentExists` | src/libmemctl/symbol_table.c:458-495 | it lies in one exactly if a segment contains it and a symbol is at or below it |
| `SymbolTables.ExtentCoversItself` | src/libmemctl/symbol_table.c:437-495 | with disjoint segments, every address of a symbol's extent has that extent |
| `SymbolTables.ComparisonsAreOrders` | src/libmemctl/symbol_table.c:95-118 | the two comparison functions are orders |
| `LinearLookup.LinearAgreesWithIndex` | src/libmemctl/macho.c:379-418 | when the index resolves an address, the linear search gives the same offset, a size that is no larger, and a name bound to the same symbol address |
| `LinearLookup.LinearSucceedsWithIndex` | src/libmemctl/macho.c:379-418 | inside the segments, the linear search succeeds exactly if the index does |
| `LinearLookup.GuessIsBounded` | src/libmemctl/macho.c:37-66 | a guessed size reaches neither past the next symbol nor past the segment |
| `KextProtocol.StepKeepsInv` | src/libmemctl/kernel.c:619-693 | every call of kernel_kext or kext_release keeps the invariant: reference counts count the handles, outdated objects are held and out of the cache, all others are in it |
| `KextProtocol.RunKeepsInv` | src/libmemctl/kernel.c:619-693 | so does every run of calls, whatever the load information does |
| `KextProtocol.ReturnedMatches` | src/libmemctl/kernel.c:441-446 | a returned object exists, is in the cache under its identifier, and matches the load information of the call |
| `KextProtocol.CurrentObjectIsShared` | src/libmemctl/kernel.c:645-657 | an extension that is as it was when its object was made is given that object, held or not, with one more reference; nothing else changes |
| `KextProtocol.OtherObjectIsReplaced` | src/libmemctl/kernel.c:645-679 | any other extension is given a new object, held once, if one could be made; the old one leaves the cache |
| `KextProtocol.OtherObjectsFate` | src/libmemctl/kernel.c:645-652 | the old object is marked as outdated while somebody holds it and destroyed otherwise, and no other object changes |
| `KextProtocol.ReleasedObjectHasOneLess` | src/libmemctl/kernel.c:682-693 | a released object has one reference less, and nothing else changes unless it is destroyed |
| `KextProtocol.CountsAreCalls` | src/libmemctl/kernel.c:619-693 | over any run, a reference count goes up once for every call that returned the object and down once for every release of it |
| `KextProtocol.DestroyedExactly` | src/libmemctl/kernel.c:449-462 | an object is destroyed exactly when it is outdated, or becomes so, and nobody holds it |
| `KextProtocol.HeldObjectSurvives` | src/libmemctl/kernel.c:619-693 | over any run, an object with an unreleased handle is not destroyed and keeps its identity |
| `KextProtocol.NothingLeaks` | src/libmemctl/kernel.c:449-462 | once all handles are released, nothing exists that is not in the cache |
| `KextProtocol.ObjectsAreConserved` | src/libmemctl/kernel.c:619-693 | every object ever made exists or has been destroyed, never both and never twice |
| `Kernel.Kexts.KernelKext` | src/libmemctl/kernel.c:619-680 | the call on the sorted array of heap objects is one step of the protocol, and returns what the protocol returns; the object has a valid symbol table, and a new one has the slide and symbols of what was loaded |
| `Kernel.Kexts.KextRelease` | src/libmemctl/kernel.c:682-693 | the call is one release step; the kernel itself is not counted |
| `Kernel.Kexts.ArrayRemove` | src/libmemctl/kernel.c:68-76 | the array without the element, and the others in order |
| `Kernel.Kexts.FindCurrent` | src/libmemctl/kernel.c:636-658 | the cached object is handed out exactly if it matches the load information; an outdated one is evicted, and its slot is the place for a new one |
| `Kernel.Kexts.RemoveOutdated` | src/libmemctl/kernel.c:645-652 | evicting removes the object from the array, keeps the rest sorted and destroys it only if it is not held |
| `Kernel.Kexts.CreateAndInsert` | src/libmemctl/kernel.c:659-679 | a new object starts with one reference and with the slide and symbols of what was loaded, and the array stays strictly sorted |
| `Kernel.Kexts.FindSlot` | src/libmemctl/kernel.c:638-641 | binary search by identifier finds exactly the cached object, or the place for it |
| `Kernel.Kexts.HandleKextRelease` | src/libmemctl/kernel.c:455-462 | destroys the object exactly if it has no references and is outdated |
| `Kernel.InsertRepresents` | src/libmemctl/kernel.c:669-677 | inserting at the place found represents the map with the new entry |
| `Kernel.RemoveRepresents` | src/libmemctl/kernel.c:649-651 | removing a slot represents the map without it, and the slot is the place for its identifier |
| `Kernel.KextInfo.constructor` | src/libmemctl/kernel.c:347-419 | a new object has one reference, is not outdated, and has the slide and the symbols of its image |
| `Kernel.BaseIsSlid` | src/libmemctl/kernel.c:347-419 | the slide takes the base the image was linked for to the one it is loaded at |
| `Kernel.KextInfo.FindSymbol` | src/libmemctl/kernel.c:716-725 | the slid address of a symbol of that name, with its size |
| `Kernel.KextInfo.ResolveAddress` | src/libmemctl/kernel.c:727-746 | the symbol that extends over the unslid address; without one, the offset from the base |
| `Kernel.FoundSymbolResolves` | src/libmemctl/kernel.c:716-746 | with disjoint segments, every address within a found symbol is covered, for every slide modulo 2^64 |
| `Kernel.FoundSymbolResolvesUniquely` | src/libmemctl/kernel.c:716-746 | and it resolves back to the symbol's start, with the right offset and the same size |
| `MangleBuffers.Writer.Write` | src/libmemctl/mangle.c:29-39 | formatted output into a buffer of any size: all of it is counted, and the buffer holds as much as fits, with a terminator |
| `MangleBuffers.Writer.WriteNestedName` | src/libmemctl/mangle.c:58-69 | writes exactly the nested name |
| `MangleBuffers.MangleClassVtable` | src/libmemctl/mangle.c:80-88 | returns the length of the whole symbol, and the buffer holds it, cut off before the terminator if it is too long |
| `MangleBuffers.ReadLiteral` | src/libmemctl/mangle.c:96-104 | moves past a literal exactly if the buffer goes on with it |
| `MangleBuffers.ReadLengthAt` | src/libmemctl/mangle.c:111-136 | reads a length exactly as the grammar does, in 32 bits |
| `MangleBuffers.ReadNameAt` | src/libmemctl/mangle.c:144-158 | reads a name exactly if the string is long enough |
| `MangleBuffers.ReadNestedNameAt` | src/libmemctl/mangle.c:189-211 | reads the names the grammar gives, and records as many positions as there is room for |
| `MangleBuffers.DemangleClassVtable` | src/libmemctl/mangle.c:213-234 | counts the names of the symbol, and leaves each recorded position a terminated string that is that name |
| `MangleBuffers.Terminate` | src/libmemctl/mangle.c:230-232 | no terminator is written over a name |
| `Mangle.ParseUndoesPrint` | src/libmemctl/mangle.c:80-88 | demangling a mangled list of names gives the list back, for every list a class can have |
| `Mangle.PlainSymbol` | src/libmemctl/mangle.c:58-88 | the symbol of a class outside all others, spelled out: decimal length, most significant digit first, then the name |
| `Mangle.NestedSymbol` | src/libmemctl/mangle.c:58-88 | the symbol of a class inside another one, spelled out: both names between N and E |
| `Mangle.PrintUndoesParseExactly` | src/libmemctl/mangle.c:111-234 | an accepted symbol is the mangling of the names returned exactly if its length numerals are below 2^32 |
| `Mangle.OnlyFittingSymbolsArePrinted` | src/libmemctl/mangle.c:80-88 | a symbol with another numeral is the mangling of no list of names that a class can have |
| `Mangle.PrintUndoesParse` | src/libmemctl/mangle.c:213-234 | so every accepted symbol shorter than 2^32 / 10 bytes is exactly the mangling of the names returned |
| `Mangle.LengthExactness` | src/libmemctl/mangle.c:112-136 | a length is read as the number written exactly when that is below 2^32 |
| `Mangle.WrappedLengthIsAccepted` | src/libmemctl/mangle.c:123-127 | beyond that a symbol can be accepted that mangles nothing: the length 5000000000 is read as 705032704 |
| `StrParse.HexDigit` | src/memctl/strparse.c:22-33 | a digit value below 16, or -1 |
| `StrParse.DigitsHaveTheirPlaces` | src/memctl/strparse.c:22-33 | a character has the value d exactly if it is at place d of 0123456789abcdef or of 0123456789ABCDEF |
| `StrParse.HandleBasePrefix` | src/memctl/strparse.c:41-60 | recognises 0x, 0o and 0b within the string |
| `StrParse.ParseInt` | src/memctl/strparse.c:62-134 | the value stored is the signed value of the digits consumed, modulo 2^64; they stop at the end, at a bad digit, or where the overflow test fires |
| `StrParse.InRangeNumeralIsRead` | src/memctl/strparse.c:91-133 | a numeral in range is read to its end with its value, in every base from 2 to 16; without digits, and only then, none are reported |
| `StrParse.SignedNumeralIsRead` | src/memctl/strparse.c:62-134 | a numeral in range is read whole with its sign, in base 16 behind 0x, 8 behind 0o, 2 behind 0b and otherwise the base asked for: a minus negates, a plus does not |
| `StrParse.SignIsRefused` | src/memctl/strparse.c:74-77 | where no sign is allowed, a string with one has no digits |
| `StrParse.OverflowIsReal` | src/memctl/strparse.c:102-121 | an overflow is reported only for a numeral that is out of range |
| `StrParse.OverflowReportedExactly` | src/memctl/strparse.c:101-121 | an overflow is reported exactly when the test fires on some digit of the numeral, signed or unsigned |
| `StrParse.NearOverflowIsReported` | src/memctl/strparse.c:101-121 | a signed numeral out of range that fits a word is always reported, and so is an unsigned one that exceeds a word by less than a sixteenth |
| `StrParse.OverflowOrExact` | src/memctl/strparse.c:91-133 | for every numeral the answer is an overflow or the number written, exactly when the number is in range or the test fires on one of its digits |
| `StrParse.UnsignedOverflowIsMissed` | src/memctl/strparse.c:118-121 | the test for unsigned numbers misses 0x1ffffffffffffffff, which is read as 2^64 - 1 |
| `StrParse.SignedOverflowIsMissed` | src/memctl/strparse.c:103-117 | the test for signed numbers misses 0x10000000000000000, which is read as 0 |
| `StrParse.DecimalOverflowIsMissed` | src/memctl/command.c:418-435 | as the arguments of commands are read, the signed decimal 20000000000000000000 becomes 1553255926290448384 |
| `StrParse.PrintedWordIsRead` | src/memctl/format.h:10-14 | every word printed as 0x and 16 digits is read back |
| `StrParse.ValueOfDigits` | src/memctl/format.h:10-14 | printing a number and evaluating its digits gives the number |
| `StrToData.ReadByte` | src/memctl/strparse.c:156-177 | the digits of one byte, most significant first, are packed into their value |
| `StrToData.ParseData` | src/memctl/strparse.c:136-192 | the result, the size and the characters consumed depend only on the string, not on the buffer, which gets as many bytes as it has room for |
| `StrToData.PrefixedBytesAreRead` | src/memctl/strparse.c:136-192 | behind 0x or 0b, in whatever base, a printed byte string is read back up to the first character that is no digit: the end or a bad digit is reported with all bytes, a byte cut short is an error, and no digits at all are too |
| `StrToData.OctalIsRefused` | src/memctl/strparse.c:141-147 | the prefix of base 8 is refused |
| `StrToData.BareBytesAreRead` | src/memctl/strparse.c:136-192 | without a prefix a nonempty byte string is read back in base 2 and in base 4 |
| `StrToData.BareHexBytesAreRead` | src/memctl/strparse.c:142-147 | in base 16 it is read back exactly if its first byte is not 0x0b |
| `TaskMemory.PerformTransfer` | src/libmemctl/task_memory.c:79-110 | a read fills exactly the prefix of the buffer that was moved, a write stores exactly that prefix, nothing else changes, and the result is that of the transfer as a function; a partial failure of the range finder still moves exactly what it granted, and keeps its code |
| `TaskMemory.MoveBytes` | include/memctl/task_memory.h:117-141 | the effect of a transfer function on the buffer and on memory |
| `TaskMemory.StoredIsLoaded` | include/memctl/task_memory.h:117-141 | what a write has stored, a read of the same range brings back |
| `TaskMemory.Perform` | src/libmemctl/task_memory.c:83-109 | the transfer moves no more than was asked, and all of it when it succeeds |
| `TaskMemory.FailedTransferIsReported` | src/libmemctl/task_memory.c:93-104 | when the transfer of what was granted fails, its code and the bytes it moved are returned |
| `TaskMemory.OnlyGrantedBytesMove` | src/libmemctl/task_memory.c:79-110 | whatever the transfer function does, only bytes the range finder granted are moved |
| `TaskMemory.ExactFinderMakesExactReader` | src/libmemctl/task_memory.c:79-110 | with an exact range finder and a transfer that succeeds on viable bytes, the transfer moves exactly the longest viable prefix, skips no viable byte with `next`, and succeeds exactly if it moved everything |
| `TaskMemory.IterationVisitsEveryViableByte` | include/memctl/task_memory.h:89-107 | going on at `next` after each answer of an exact range finder visits every viable byte before the end, and no other, in ascending ranges |
| `TaskMemory.TaskTransfer` | src/libmemctl/task_memory.c:35-77 | the pieces tile the transfer in order, none crosses a page or exceeds the access width, and all but the last are as large as that allows |
| `TaskMemory.TilingCovers` | src/libmemctl/task_memory.c:42-75 | every byte of a tiled transfer lies in the piece that has its address |
| `PhysicalWords.HibitPos` | include/memctl/utility.h:155-163 | the position of the most significant 1 bit, or -1 for 0 |
| `PhysicalWords.LobitIsAlignment` | include/memctl/utility.h:194-197 | on 64-bit vectors: lobit(x | 8) is 8, 4, 2 or 1, the largest of them that divides x |
| `PhysicalWords.ChooseWord` | src/libmemctl/kernel_memory.c:163-172 | the next word is the widest naturally aligned power of two within the rest of the request and the access width |
| `PhysicalWords.WidestMeans` | src/libmemctl/kernel_memory.c:163-172 | a word is the widest exactly if it has 1, 2, 4 or 8 bytes, is aligned and within the rest, the access width and the 32 bits of narrow results, and twice its size is not |
| `PhysicalWords.EveryWordIsWidest` | src/libmemctl/kernel_memory.c:162-187 | each word of a transfer is the widest for the bytes left when it is issued |
| `PhysicalWords.TransferPhysicalWords` | src/libmemctl/kernel_memory.c:153-190 | the words tile the request in order, each the widest aligned one within the rest, the access width and, where 64-bit results are missing, 32 bits; a failed call ends it; with the default width there are at most size / 8 + 5 |
| `PhysicalWords.WordCountBound` | src/libmemctl/kernel_memory.c:162-187 | the widest aligned words from any address number at most size / 8 + 5 |
| `KernelMemory.TransferRangeHeap` | src/libmemctl/kernel_memory.c:213-266 | exactly the longest prefix of heap bytes, with the reason why the next byte is not one, and `next` skips no heap byte; an unexpected Mach error gives up at the byte it was met |
| `KernelMemory.HeapBytesAre` | src/libmemctl/kernel_memory.c:195-205 | heap bytes are those in a readable and writable region that is not empty and is tagged 12 or 13; a byte in any other region is reported as protected, and one in none as unmapped |
| `KernelMemory.PageAfterIsNext` | src/libmemctl/kernel_memory.c:236-238 | after an unexpected error the search goes on at the next page boundary, or ends behind the topmost page |
| `KernelMemory.RegionFound` | src/libmemctl/kernel_memory.c:226-254 | what the first region that ends above an address says about the bytes up to its end |
| `KernelMemory.CheckPages` | src/libmemctl/kernel_memory.c:335-349 | the first unmapped page truncates the part of a region; nothing is checked for a part that ends at 2^64, and past the topmost page the counter starts over |
| `KernelMemory.TransferRangeSafe` | src/libmemctl/kernel_memory.c:288-361 | the longest prefix of bytes that look safe and are mapped, with the reason why the next byte is not one, but for requests that reach the topmost page |
| `KernelMemory.SafeBytesAre` | src/libmemctl/kernel_memory.c:273-278 | safe bytes are those in a region that is not empty and grants writing for a write, reading for a read, on a mapped page; the failure codes say which is missing |
| `KernelMemory.GrantedBytesMayBeTransferred` | src/libmemctl/kernel_memory.c:288-361 | however a search ended, every byte it grants for a write may be written and for a read may be read, and is mapped but for the unchecked top region |
| `KernelMemory.SafeAnswerExactness` | src/libmemctl/kernel_memory.c:288-361 | for every request: the answer is the longest safe prefix with a sound `next` exactly if the request is not one of those that reach the topmost page in the two ways described |
| `KernelMemory.UncheckedPageIsMissed` | src/libmemctl/kernel_memory.c:335-338 | such a request: a readable region that reaches 2^64 is granted although its page is not mapped |
| `KernelMemory.StartingOverIsMissed` | src/libmemctl/kernel_memory.c:335-348 | and another: 16 mapped readable bytes at the start of the topmost page are not found |
| `TransferAll.FindSpecialFacts` | include/memctl/memory_region.h:24-54 | the first special region that intersects a range decides the access width of every byte up to its end |
| `TransferAll.AccessAtIsTheRegions` | include/memctl/memory_region.h:10-22 | the access width at an address is that of the special region that contains it |
| `TransferAll.DemandMeans` | src/libmemctl/kernel_memory.c:382-425 | what a byte allows, in terms of the regions that contain it: exactly when it is inaccessible, exactly when it is reported as unmapped, and else the width |
| `TransferAll.PhysicalRunsOn` | src/libmemctl/kernel_memory.c:606-621 | within a page physical addresses run on, and the page is mapped as a whole |
| `TransferAll.Inspect` | src/libmemctl/kernel_memory.c:382-425 | all bytes of a step ask for the same access width; or the first one is blocked, with the reason, and where to go on |
| `TransferAll.TransferRangeAll` | src/libmemctl/kernel_memory.c:370-449 | the longest run of bytes that one access width serves, plain bytes first, up to a byte that is blocked or asks for another width; a success makes progress |
| `TransferAll.AnswerMeans` | src/libmemctl/kernel_memory.c:370-449 | every byte granted may be transferred, a failure names what blocks the next byte, a success that falls short has met two widths, and a width chosen by the caller stays |
| `TransferAll.EveryRegionTouchedHasTheWidth` | src/libmemctl/kernel_memory.c:370-449 | every byte of the range is on a mapped page, and every special region touched has exactly the access width returned |
| `TransferAll.PagedAnswerIsExact` | src/libmemctl/kernel_memory.c:381-449 | with special regions made of whole pages and any access width asked for, a failure comes at the first byte that may not be transferred with it, and `next` skips none that may |
| `TransferAll.NextSoundness` | src/libmemctl/kernel_memory.c:400-421 | for every layout and access width: `next` is sound for all requests exactly if no byte that may be transferred follows, on its page, one that is blocked by its physical address; unmapped pages and virtual special regions do no harm |
| `TransferAll.SpecialPagesRunToPageEnds` | src/libmemctl/kernel_memory.c:406-421 | special regions made of whole pages are such a layout, for any access width |
| `TransferAll.NextCanSkipAllowedBytes` | src/libmemctl/kernel_memory.c:412-415 | a region that ends inside a page, which no table of the program has, makes the other case: registers in the first 8 bytes of a page make the search skip byte 8 |
| `MemoryRegions.RegionFind` | src/libmemctl/arm64/memory_region.c:25-55 | the loop over a table finds the first special region that intersects the range, as the range finder assumes |
| `MemoryRegions.Arm64RegionsAreMadeOfPages` | src/libmemctl/arm64/memory_region.c:3-20 | the two arm64 tables are in order, and all their regions are made of whole pages, of 4096 or 16384 bytes |
| `MemoryRegions.X86RegionsAreMadeOfPages` | src/libmemctl/x86_64/memory_region.c:3-15 | the two x86_64 tables are in order, and all their regions are made of whole pages of 4096 bytes |
| `MemoryRegions.PlatformAnswersAreExact` | src/libmemctl/kernel_memory.c:370-449 | on both platforms, for every page map, request and access width, the answer is exact and `next` skips no byte that may be transferred |
| `Find.Find` | src/memctl/find.c:33-74 | reports exactly the aligned addresses from the rounded start whose bytes below the end are all readable and hold the value, in ascending order and once each; from the start itself unless rounding it wraps around |
| `Find.HitsAreAscending` | src/memctl/find.c:53-59 | the list of hits contains exactly the hits of the range, in ascending order |
| `Find.ScanChunk` | src/memctl/find.c:55-59 | a scan of the buffer reports all values that end within the chunk, including those that start in the bytes carried over |
| `Find.CarryOver` | src/memctl/find.c:60-62 | after a full chunk the buffer holds the bytes of every value that may straddle its end |
| `Find.AfterRead` | src/memctl/find.c:44-72 | between one chunk and the next no value is lost and none is seen twice |
| `Find.AfterGap` | src/memctl/find.c:63-72 | a value that runs into an unreadable byte is not reported, and `next` passes over no hit |
| `Find.UnpackIsValue` | include/memctl/utility.h:312-323 | unpacking buffer bytes gives the little-endian value of the memory they were read from |
| `Find.ValueIsLittleEndian` | include/memctl/utility.h:312-323 | a number is stored at an address exactly if byte j from there on is the quotient by 2 to the 8j modulo 256 |
| `Find.HitsAreLittleEndian` | src/memctl/find.c:53-59 | a hit, byte by byte: aligned, below the end, readable, and holding the value with the least significant byte first |
| `Find.RoundUpIsExact` | include/memctl/utility.h:56-59 | rounding up in 64 bits gives the least multiple not below exactly outside the last alignment of the address space |
| `Find.StartIsRounded` | src/memctl/find.c:34-36 | rounding the start up gives an aligned address, and passes no hit unless it wraps around |
| `Readers.ReaderReadsViable` | src/libmemctl/kernel_memory.c:496-509 | a read function with an exact range finder is what a search asks for |
| `KernelMemory.NoneMissedBelow` | src/libmemctl/kernel_memory.c:288-361 | for every map: no request that ends at or below a given end is one of those exactly if that end is not inside the topmost page, or that page is not safe |
| `Readers.SafeFinderIsExact` | src/libmemctl/kernel_memory.c:288-361 | so the search for safe ranges is exact up to an end exactly under that condition |
| `Readers.SafeReadsServeASearch` | src/libmemctl/kernel_memory.c:550-554 | reads of safe memory serve a search for the safe mapped bytes, also up to the default end 2^64 - 1, unless it ends inside a topmost page that is safe |
| `Readers.AllReadsServeASearch` | src/libmemctl/kernel_memory.c:563-567 | reads that respect special regions made of whole pages serve a search for the bytes they allow, with any access width |

## Left out

- KernelMemory.TransferRangeSafe: a request that ends inside a topmost page that is safe requires some page not to be mapped, because otherwise the page counter does not stop; requests that wrap around the address space are left out.
- KernelMemory.CheckPages: a part that ends inside the topmost page requires some page not to be mapped, for the same reason.
- KernelMemory.TransferRangeHeap: requires that the request does not wrap around the address space, as do the other range finders; after an unexpected Mach error nothing is said about `next` but that it is the next page.
- TransferAll.TransferRangeAll: with an access width chosen by the caller only the run of widths is described, not what the caller makes of it; a special region that is the whole address space is left out.
- TaskMemory.TaskTransfer: does not model the count reported after a failed Mach call, which for writes is not known.
- TaskMemory.PerformTransfer: what a failed transfer may have done to bytes beyond the count it reports is not modelled.
- PhysicalWords.TransferPhysicalWords: models which words are moved, not the values they carry.
- Find.Find: the choice of the read function, errors of initialisation and interrupts are not modelled; a rounded start that the check lets through although it is not below the end (Find.CheckIsExact says when) is left out, because the source then reads with an empty or wrapped size.
- Kernel.Kexts.KernelKext: allocations succeed, and no object has so many handles that its 32-bit reference count would wrap; the analyzers and symbol finders that run on a new extension are not part of this model.
- Kernel.KextInfo.FindSymbol: asking for a size requires the symbol to lie in a segment, which the source asserts; so does SymbolTables.SymbolTable.ResolveSymbol.
- MangleBuffers.DemangleClassVtable: requires no more room for names than the symbol has names, because as many terminators are written as there is room.
- MangleBuffers.Terminate: the same.
- MangleBuffers.MangleClassVtable: a single name is not longer than an int can tell, as vsnprintf demands.
- Algorithm.SortingPermutation: an insertion sort stands for qsort_r, of which only sortedness is used.
- SymbolTables.SymbolTable.InitWithMacho: allocations succeed here; running out of memory is modelled for added symbols only.
- SymbolTables.SymbolTable.CollectSymbol: copying a name succeeds.
- SymbolTables.SymbolTable.CollectSymbols: copying a name succeeds.
- SymbolTables.SymbolTable.CollectSegments: the allocation succeeds.
- Kernel.Kexts.CreateAndInsert: allocations succeed.
- MachO.ResolveAddress: a symbol list entry is what the accessors read; 32-bit images, malformed images and the name search of macho_resolve_symbol are left out.
- The region lookup of Mach is a first-match in a list of regions, without submaps; the share mode and protection are those it reports.
- `task_transfer_range_all`, `physical_transfer_range_cache_safe`, the word-sized reads and writes and `mangle_class_name`: simpler relatives of what is modelled.
- Calling kernel functions, slide detection, credentials, vtables, memory mapping, LZFSE and property lists: their meaning lies outside the program.
- Command line, printing of sizes, help and the disassembler: interface, or finite tables.
