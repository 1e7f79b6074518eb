# Run-time support of a RISC-V core, verified

A Dafny model of the software that supports a small RISC-V core: its page tables, memory allocators, sorting
benchmarks, AES, printf engine, software arithmetic and program loader, and of the key-configurable adder of its
ALU. Code that works in place on arrays and words is modelled in place (arrays, classes with fields, loops);
every such method is proved against a specification function, and what the code promises is proved about that
function. `dafny verify dfyconfig.toml` checks everything.

## What is modelled

`Basics` and `Arithmetic` hold what the other modules share.

**Page tables** (`PageModel`, `TableModel`, `TableTree`, `Translation`, `Pages`; gcc/page.c). `Pages.PageHeap`
holds the page descriptors as an array of flag bytes and the pages as an array of 64-bit words. Ghost fields say
which runs are live and which pages are tables. The main result is that `Map` refines a finite map: the table
tree of a root stands for a map from virtual page numbers to physical addresses (`Translation.PageMap`, by
walking every page number), and `Map` adds exactly the stretch of 1, 512 or 262144 pages around the virtual
address, while the maps of all other roots stay as they are and the tables stay a forest of distinct pages; it
takes exactly as many free pages as tables are missing on its way. `VirtToPhys` looks up that map. Of a physical
address only the low 39 bits reach the tables (`TableModel.LeafTarget`). PAGE_SIZE is 4096, the page of Sv39;
gcc/page.h does not define it.

The allocator searches `i < num_pages - pages`, so the last page of the heap is never handed out; the model
keeps this, and `PageModel.FoundIff` states exactly when `alloc` succeeds.

**Quicksort** (`Rearrangement`, `Quicksort`; gcc/qsort_test.c). Pointers are positions counted from 1, as the
code's `l` and `ir` are. The unguarded scans are proved to stop at the sentinels that the median of three
leaves. The explicit stack has 50 slots; `Sort` returns whether it was large enough. It is for
every n < 12·2^24 - 1, and from that n on a strictly ascending input overflows it, so the bound is exact.

**Radix sort** (`RadixSort`; gcc/rsort.c). Each pass is proved equal to concatenating the 256 buckets in order;
four such passes sort. The unrolled loops are kept. The last position of the unrolled counting loop is `n - 3`
on a signed index. After four passes the result is back in the input array, so the final `memcpy` never happens.

**malloc** (`HeapModel`, `Malloc`; gcc/malloc.c). `Malloc.Allocator` holds memory as a map of words; the free
list is the chain of `size` and `next` words in it. `HeapModel` is the state machine on blocks that it refines.
Sizes are 32-bit: rounding up wraps for requests above 0xfffffff0. For the eight sizes 0xfffffff1 to 0xfffffff8
the block has size 0 and the tiling is lost; `MallocTiles` says that these are the only ones, for all inputs,
and `Allocator.Malloc` says which words are written in that case.

**AES** (`GaloisField`, `Sboxes`, `RoundConstants`, `Aes`, `AesCipher`, `AesLaws`, `KeySchedule`, `AesExample`;
gcc/aes.c, FIPS 197).
Field multiplication is proved to be multiplication of polynomials over GF(2) reduced by 0x11b, and a
commutative ring; the S-box is the affine map of the field inverse; from the ring laws `invMixColumns` undoes
`mixColumns`, and decryption undoes encryption under every schedule and every round count from 1 to 255. (From
64 rounds on the code's `unsigned char` index into the schedule wraps around, in both directions alike.)
`AesLaws` and `KeySchedule` say what encryption and key expansion compute byte by byte, and `AesExample` works out
the encryption of the code's `main` and the key expansion of appendix A.1.

**printf** (`PrintfModel`, `PrintfDigits`, `PrintfFormat`, `PrintfDirectives`, `Printf`; os/src/printf.c). The engine is
proved to write a prefix of what a functional reading of the format prints, and to return the length of all of it. That
reading is tied to what was written: a directive made of flags, width, precision and length modifier reads back
as just that (`PrintfDirectives`), a printed integer is laid out as its flags ask, and it reads back as its value
exactly if no digit is lost. The prefix of `#` can lose some (`PrefixLosesDigits`). The target has 32-bit `int`,
`long`, `size_t` and pointers, 64-bit `long long` and `intmax_t`, and unsigned `char`. Arguments are a sequence.

**Software arithmetic** (`SoftArithmetic`, `Decimal`; gcc/utils.c, gcc/uart.c). `divide` takes the sign of the
quotient from a product that wraps at 32 bits. `DivisionIdentity` says exactly when x == divide(x, y)·y +
modulo(x, y): if the wrapped product has the right sign or |x| < |y|. `SettlesIff` says exactly when the
doubling loops end without overflow. Digit counting does not depend on the sign, so `count_digits` is right far
beyond the range where `divide` is. `itoa` is modelled for every word, with signed overflow wrapping and
division by 0 as on RISC-V; `ItoaRight` says that it is right exactly between -10^9 and 10^9.

**Load path** (`HexFile`, `Loader`; gcc/pycompile.py, gcc/reprogram.py, gcc/kernel.c). The serial line is a
sequence of bytes; a kernel that waits for a byte that never comes yields no answer. `LoadsWhole` says exactly
which images arrive: those made of at most 16383 words, none of them 0xdeadbeef.

**Key-configurable adder** (`ChaosAdder`; chaos/add_sub_chaos.sv and below). Proved for every width from 2 on,
for addition and subtraction each: right on all inputs if and only if both halves of the key make the gate an
exclusive or, which six of 64 keys do.

## Model

| member | source | states |
|---|---|---|
| PageModel.FoundIff | gcc/page.c:25-48 | `alloc` finds a run if and only if there is one starting below num_pages - pages, and finds the first |
| PageModel.AllocRepresents | gcc/page.c:38-45 | marking a free run keeps every live run in place, disjoint from the new one, and every other cell empty |
| PageModel.DeallocRepresents | gcc/page.c:62-73 | clearing a live run removes that run and no other |
| PageModel.AllocThenDealloc | gcc/page.c:38-73 | `dealloc` after `alloc` restores every flag and the set of live runs |
| PageModel.RepresentsParses | gcc/page.c:40-44 | the descriptors are free cells and runs Taken ... Taken, Taken+Last, one after the other |
| PageModel.RunBytes | gcc/page.c:38-44 | a descriptor byte is 1 within a run and 3 at its end |
| PageModel.FreeByte | gcc/page.c:62-73 | and 0 everywhere else |
| PageModel.RunConsistent | gcc/page.c:10-73 | over every run of `alloc` and `dealloc` the descriptors stay such a sequence, live runs disjoint, the last page free |
| PageModel.StartConsistent | gcc/page.c:10-17 | so they are after `page_init` |
| PageModel.SinglePage | gcc/page.c:21-48 | while a page other than the last is free, `alloc(1)` succeeds and takes one free page |
| PageModel.PagesWithinHeap | gcc/page.c:10-19 | for every heap start and size, when all pages that can be handed out lie within the heap |
| Pages.PageHeap.constructor | gcc/page.c:10-19 | `page_init`: the pages start at the first multiple of 4096 behind the descriptors; all flags empty, nothing live, no tables |
| Pages.PageHeap.IsFreeRun | gcc/page.c:26-36 | the inner search answers whether the run is free |
| Pages.PageHeap.MarkRun | gcc/page.c:38-44 | the marking loop sets Taken on the run, Last on its end, and nothing else |
| Pages.PageHeap.Alloc | gcc/page.c:21-50 | the first free run is marked and its address, 4096 bytes a page from the start of the pages, returned; null and no change if there is none |
| Pages.PageHeap.ZeroWords | gcc/page.c:54-58 | exactly the words of the run become zero |
| Pages.PageHeap.Zalloc | gcc/page.c:52-60 | the first free run is taken and cleared; every other word, and with it every table, stays |
| Pages.PageHeap.ZallocPage | gcc/page.c:148-148 | for one page: a fresh page, all zero, one free page less |
| Pages.PageHeap.Dealloc | gcc/page.c:62-73 | the loop clears exactly the run that starts at the page; the tables stay valid unless it is one of them |
| Pages.PageHeap.NewRoot | gcc/page.c:52-60 | a zeroed page is a root with the empty map, and no translation changes |
| Pages.PageHeap.Descend | gcc/page.c:143-157 | one level down, through a new empty table if need be: no translation changes, the forest stays |
| Translation.MissingAtMost | gcc/page.c:143-153 | at most 2 - level tables are missing on the way to a level |
| Pages.PageHeap.Map | gcc/page.c:132-163 | the entry is written where the walk arrives: of its ten low bits exactly those of `bits` and bits 0, 6 and 7 are set, above them is bits 12 to 38 of paddr; if it is a leaf, the map of the root becomes the old map overridden by the mapped stretch and the other roots' maps stay; all live runs stay, and exactly the missing tables are taken from the free pages |
| Pages.PageHeap.VirtToPhys | gcc/page.c:187-212 | the walk is a lookup in the map of the root, plus the page offset; 0 if absent |
| TableModel.LeafTarget | gcc/page.c:159-160 | a leaf is valid, and gives paddr (modulo 2^39, rounded down to the leaf's size) plus the low bits of the virtual address |
| TableModel.LeafFields | gcc/page.c:159-160 | bit k of a leaf, for k < 10, is set if and only if it is set in `bits` or is Valid, Access or Dirty; the rest is the page number |
| TableModel.LeafPermissions | gcc/page.c:159-160 | Read, Write, Execute, User and Global come through one by one |
| TableModel.IndicesCompose | gcc/page.c:137-138 | the three indices of an address make up its bits 12 to 38 |
| TableTree.TableFromUnique | gcc/page.c:140-157 | a table of a forest is reached from one root only, and only by addresses that agree on the indices above it |
| TableTree.SetLeaf | gcc/page.c:159-160 | writing a leaf changes the walk of exactly the addresses of its region under its root |
| TableTree.LeafKeepsForest | gcc/page.c:159-160 | writing a leaf keeps the tables a forest |
| TableTree.InstallKeepsForest | gcc/page.c:146-152 | hanging a new zeroed table into an entry keeps the tables a forest of distinct pages |
| TableTree.InstallKeepsWalk | gcc/page.c:146-152 | and changes no walk, if the entry was invalid |
| Translation.WalkOfPage | gcc/page.c:199-204 | the translation of an address is that of its page plus its offset |
| Translation.RegionIsStretch | gcc/page.c:137-145 | the addresses below an entry are an aligned stretch of 2^(12+9·level) bytes |
| Translation.RegionTranslates | gcc/page.c:199-204 | in the mapped stretch an address goes to paddr with its low bits replaced by the offset |
| Translation.MappedAddress | gcc/page.c:132-212 | in bytes, for every address: one in the stretch of 4096, 2^21 or 2^30 bytes goes to paddr rounded down to that size plus its offset, any other where it went before |
| Translation.LeafOverrides | gcc/page.c:159-160 | as finite maps, writing the leaf overrides the root's map by the stretch and leaves the others |
| Quicksort.InsertionSort | gcc/qsort_test.c:23-39 | the segment is ascending and a permutation of itself; nothing outside changes |
| Quicksort.Insert | gcc/qsort_test.c:29-37 | the value moves left past exactly the larger elements, which move up one place |
| Quicksort.MedianOrders | gcc/qsort_test.c:73-76 | after the median-of-three swaps a[l-1] <= a[l] <= a[ir-1] |
| Quicksort.ScanUp | gcc/qsort_test.c:87-88 | the unguarded scan stops at the first element not below the pivot, at the sentinel at the latest |
| Quicksort.ScanDown | gcc/qsort_test.c:89-90 | likewise downwards |
| Quicksort.Round | gcc/qsort_test.c:85-98 | a round of scans either exchanges two elements and keeps the partition invariant, or places the pivot |
| Quicksort.Partition | gcc/qsort_test.c:71-98 | a permutation of the segment, nothing above the pivot before it, nothing below the pivot behind it; a strictly ascending segment is split in the middle |
| Quicksort.Push | gcc/qsort_test.c:99-115 | two stack slots hold the new segment, the others are kept |
| Quicksort.Pop | gcc/qsort_test.c:66-67 | the segment pushed last comes back |
| Quicksort.SplitSegment | gcc/qsort_test.c:93-115 | partitioning a segment keeps all pairs ordered except those within one pending segment |
| Quicksort.FinishSegment | gcc/qsort_test.c:58-68 | sorting a segment lets it leave the pending ones |
| Quicksort.HalvingKeepsShallow | gcc/qsort_test.c:104-115 | as the smaller part goes on, a segment at depth d has at most about n/2^d elements |
| Quicksort.RoomToPush | gcc/qsort_test.c:2-2 | below 12·2^24 - 1 elements, at most 24 segments are stacked when one more is pushed |
| Quicksort.HalvingStep | gcc/qsort_test.c:71-115 | a large strictly ascending input is halved 24 times without finishing a segment |
| Quicksort.Sort | gcc/qsort_test.c:48-118 | terminates; sorted and a permutation, the rest of the array unchanged; the stack suffices for every n < 12·2^24 - 1 and overflows on strictly ascending input from there on |
| RadixSort.CountDigits | gcc/rsort.c:63-78 | the counting loops, unrolled and tail, count every digit of the n elements |
| RadixSort.PrefixSums | gcc/rsort.c:80-86 | the unrolled sums are the cumulative counts |
| RadixSort.Claim | gcc/rsort.c:99-109 | the slot taken for an element is its place in its bucket, and free |
| RadixSort.Scatter | gcc/rsort.c:89-109 | the backward scatter, unrolled and tail, fills the scratch array with the stable distribution, in the slots listed |
| RadixSort.SlotsWrittenOnce | gcc/rsort.c:89-109 | the slots listed are distinct and are all n slots |
| RadixSort.SlotOfDistinct | gcc/rsort.c:99-106 | no two elements share a slot |
| RadixSort.CountingPass | gcc/rsort.c:63-109 | one pass makes the stable distribution by its digit |
| RadixSort.PassPermutes | gcc/rsort.c:63-109 | a pass is a permutation |
| RadixSort.PassIsStable | gcc/rsort.c:63-109 | elements of equal digit keep their order |
| RadixSort.PassOrders | gcc/rsort.c:61-116 | data ordered on the low k bytes is ordered on k + 1 after pass k |
| RadixSort.PassesSort | gcc/rsort.c:61-116 | four passes sort 32-bit numbers |
| RadixSort.Sort | gcc/rsort.c:49-118 | the first n words of the input array end up ascending and a permutation of what they were; nothing behind them changes |
| HeapModel.DesiredSizeSuffices | gcc/malloc.c:16-40 | the block has room for request and header if and only if the request is at most 0xfffffff0; which sizes wrap to 0 or 8 |
| HeapModel.MallocTiles | gcc/malloc.c:29-109 | `malloc` keeps free and live blocks tiling the memory from `sbrk` (disjoint, multiples of 8, at least 8, byte counts adding up) if and only if the size does not wrap to 0 |
| HeapModel.FreeTiles | gcc/malloc.c:112-122 | `free` keeps the tiling |
| HeapModel.BreakMovesOnlyIfNothingFits | gcc/malloc.c:43-104 | the heap grows if and only if every free node is smaller than the request |
| HeapModel.ServedByFirstFit | gcc/malloc.c:43-75 | the first node that fits serves the request, whole or from its end, and the nodes before it stay |
| HeapModel.ServedByGrowing | gcc/malloc.c:81-108 | if none fits, the block is the end of 8192 new bytes, the rest of which becomes the first node, or all of the new bytes where more are needed |
| HeapModel.FreeThenMalloc | gcc/malloc.c:43-122 | after `free` a request of the same size gets that block back, with the heap as before |
| HeapModel.RunTiles | gcc/malloc.c:29-136 | the tiling holds over every run of calls on live pointers |
| HeapModel.RunKeeps | gcc/malloc.c:29-136 | a block that is not freed stays live over every run |
| HeapModel.StartTiles | gcc/malloc.c:124-130 | it holds before the first call |
| Malloc.Allocator.constructor | gcc/malloc.c:12-13 | the empty free list, before the first `sbrk` |
| Malloc.Allocator.Sbrk | gcc/malloc.c:124-136 | the previous end is returned and the end moves by the increment |
| Malloc.Allocator.Search | gcc/malloc.c:43-79 | following the links finds the first node that fits, and the node before it |
| Malloc.Allocator.Unlink | gcc/malloc.c:46-61 | a node that fits exactly leaves the chain |
| Malloc.Allocator.Carve | gcc/malloc.c:63-75 | a larger node gives up its end |
| Malloc.Allocator.GrowByChunk | gcc/malloc.c:82-101 | 8192 new bytes become a node in front of the list and a live block at their end |
| Malloc.Allocator.GrowExactly | gcc/malloc.c:103-108 | a large block is all of what is asked for |
| Malloc.Allocator.Malloc | gcc/malloc.c:29-109 | the words of memory represent the next state of the block model; the pointer is 8 behind the new header; live headers are unchanged; if the size wraps to 0, exactly which words change |
| Malloc.HeaderLost | gcc/malloc.c:66-71 | in that case a live block behind the first node loses its header |
| Malloc.Allocator.Free | gcc/malloc.c:112-122 | likewise for `free` |
| Malloc.Allocator.ClientWrite | gcc/malloc.c:59-60 | a write into a live block's payload touches no header and no link |
| GaloisField.FfMultiply | gcc/aes.c:127-140 | the shift-and-add loop computes the field product |
| GaloisField.MulIsPolynomialProduct | gcc/aes.c:119-140 | the product is the polynomial product over GF(2) reduced by 0x11b |
| GaloisField.MulCommutes | gcc/aes.c:127-140 | it is commutative |
| GaloisField.MulAssociates | gcc/aes.c:127-140 | it is associative |
| GaloisField.MulDistributesLeft | gcc/aes.c:116-140 | it distributes over addition from the left |
| GaloisField.MulDistributesRight | gcc/aes.c:116-140 | and from the right |
| Sboxes.InvSboxUndoesSbox | gcc/aes.c:17-54 | the inverse table undoes the substitution of every byte |
| Sboxes.SboxUndoesInvSbox | gcc/aes.c:17-54 | and the substitution undoes the inverse table |
| Sboxes.SboxIsAffineInverse | gcc/aes.c:17-34 | the entry of a byte is the affine map of FIPS 197 section 5.1.1 of x if and only if x is the inverse of the byte in the field (0 for 0) |
| RoundConstants.RconIsPower | gcc/aes.c:57-70 | entry i of the round constants is x^(i-1) in the field |
| RoundConstants.RconDoubles | gcc/aes.c:57-70 | they start at 1 and double in the field |
| Aes.WordOfBytes | gcc/aes.c:194-204 | the four bytes that a word adds to a column make up the word, the first one on top |
| Aes.ShiftRowsAt | gcc/aes.c:154-176 | row r, column c comes from column (c + r) mod 4 |
| Aes.MixColumnAt | gcc/aes.c:179-191 | byte r of a mixed column is 2·b[r] + 3·b[r+1] + b[r+2] + b[r+3] in the field |
| Aes.ShiftUndone | gcc/aes.c:154-295 | the inverse row shift undoes the row shift |
| Aes.MixUndone | gcc/aes.c:179-321 | the inverse column mix undoes the column mix |
| Aes.MixRedone | gcc/aes.c:179-321 | and the other way round |
| Aes.AddRoundKeyUndone | gcc/aes.c:194-204 | adding a round key twice changes nothing |
| AesCipher.SubBytesInPlace | gcc/aes.c:143-151 | the loops substitute every byte of the State |
| AesCipher.InvSubBytesInPlace | gcc/aes.c:298-306 | likewise, inverse |
| AesCipher.ShiftRowsInPlace | gcc/aes.c:154-176 | the exchanges rotate row r by r to the left |
| AesCipher.InvShiftRowsInPlace | gcc/aes.c:273-295 | and to the right |
| AesCipher.MixColumnsInPlace | gcc/aes.c:179-191 | every column is mixed |
| AesCipher.InvMixColumnsInPlace | gcc/aes.c:309-321 | likewise, inverse |
| AesCipher.AddRoundKeyInPlace | gcc/aes.c:194-204 | word c of the round key is added to column c |
| AesCipher.RoundsUndone | gcc/aes.c:252-353 | the inverse rounds peel off the rounds from the last one down |
| AesCipher.DecryptEncrypt | gcc/aes.c:235-361 | decryption undoes encryption, for every block, schedule and round count |
| AesLaws.EncryptDecrypt | gcc/aes.c:235-361 | and encryption undoes decryption |
| AesLaws.FirstBytes | gcc/aes.c:248-248 | the State starts as the block plus byte r of word c in row r, column c |
| AesLaws.RoundBytes | gcc/aes.c:252-257 | round i substitutes, shifts and mixes, and adds byte r of word 4i + c (the index modulo 256), for every round, row and column |
| AesLaws.LastBytes | gcc/aes.c:260-262 | the last step substitutes, shifts and adds byte r of word 4·Nr + c (the index modulo 256) |
| AesLaws.LoadedAt | gcc/aes.c:242-246 | byte r + 4c of the buffer is in row r, column c |
| AesLaws.EveryWordMatters | gcc/aes.c:235-270 | below 64 rounds, schedules that differ in exactly one of the 4·(Nr + 1) words encrypt every block differently |
| AesCipher.Cipher | gcc/aes.c:235-270 | `Cipher` writes the 16 bytes of that encryption and nothing else |
| AesCipher.InvCipher | gcc/aes.c:324-361 | `invCipher` writes the 16 bytes of the decryption that is its inverse both ways |
| AesCipher.RoundTrip | gcc/aes.c:235-361 | `invCipher` after `Cipher` gives back the 16 bytes |
| KeySchedule.SubByte | gcc/aes.c:73-83 | `subWord` substitutes each byte of a word |
| KeySchedule.RotByte | gcc/aes.c:86-86 | `rotWord` moves each byte one place up |
| KeySchedule.FeedbackWord | gcc/aes.c:104-109 | byte by byte, what is fed back is the rotated and substituted word plus x^(i/Nk - 1) at multiples of Nk, the substituted word four words after them if Nk > 6, else the word itself |
| KeySchedule.KeyExpansion | gcc/aes.c:89-113 | every word that the loops leave is the one that `KeyBytes` and `ScheduleBytes` ask for |
| KeySchedule.KeyBytes | gcc/aes.c:96-99 | byte r of word i < Nk is byte 4i + r of the key |
| KeySchedule.ScheduleBytes | gcc/aes.c:103-112 | byte by byte, every later word is the one Nk words before plus what is fed back from the word before (FIPS 197 section 5.2), for every key length |
| AesExample.StandardSchedule | gcc/aes.c:89-113 | the 44 words of FIPS 197 appendix A.1 |
| AesExample.ExampleSchedule | gcc/aes.c:376-395 | the 44 words of the key that the program expands |
| AesExample.ExampleCipher | gcc/aes.c:363-398 | the program encrypts 00112233...ff under 000102...0f to 69c4e0d86a7b0430d8cdb78070b4c55a |
| Printf.OutBuffer | os/src/printf.c:128-134 | a character goes to its place, or nowhere beyond maxlen |
| Printf.OutRev | os/src/printf.c:209-238 | the buffer comes out reversed and padded, at consecutive places |
| Printf.NtoaFormat | os/src/printf.c:241-306 | zeros, prefix and sign are added in place to what `IntegerLayout` is about, under every combination of flags |
| Printf.WriteDigits | os/src/printf.c:323-328 | the digits are those of the value, the lowest first, at most 32 |
| Printf.NtoaLong | os/src/printf.c:309-359 | the printed integer is the specified one, at consecutive places |
| PrintfDigits.NumDigitsIs | os/src/printf.c:323-328 | a number has at most n digits if and only if it is below base^n |
| PrintfDigits.StoredReads | os/src/printf.c:320-329 | digits stored lowest first and reversed read back as the value modulo base^(their number) |
| PrintfDigits.ReadsBackIff | os/src/printf.c:320-329 | the digits that the loop writes read back as the value itself if and only if it is below base^32 |
| PrintfDigits.DigitAt | os/src/printf.c:323-328 | place k from the right shows value / base^k mod base, in 0-9A-F or 0-9a-f |
| PrintfFormat.IntegerLayout | os/src/printf.c:793-881 | every integer conversion, for all arguments, flags, widths and precisions, is blanks, sign, prefix, digits, blanks: which sign (- for negative values, else + or blank as asked, for d and i only), which prefix, which letter case, how many digits and zeros, and how many blanks on which side |
| PrintfFormat.IntegerReadsBack | os/src/printf.c:793-881 | sign and digits read back as the value, in base 10, 16, 8 or 2, if and only if no digit and no minus sign was left out; without `#` that is all but binary long longs from 2^32 on |
| PrintfFormat.PrefixLosesDigits | os/src/printf.c:260-287 | `%#4x` prints 0x1234 as 0x34 |
| PrintfFormat.IntegerRange | os/src/printf.c:838-878 | the value agrees with the argument on the bits of the length modifier, and lies in the signed or unsigned range of that width |
| PrintfDirectives.AtoiReads | os/src/printf.c:198-206 | the number loop takes all digits there are and yields the number they spell, modulo 2^32 |
| PrintfDirectives.FlagsRead | os/src/printf.c:675-710 | the flag loop stops at the first character that is no flag, and a flag is set exactly if its character occurs before that |
| PrintfDirectives.DirectiveReadsBack | os/src/printf.c:675-788 | a directive written with any flags, width, precision, length modifier and conversion reads back as just those, stars taking their values from the arguments; it fails exactly if such an argument is missing |
| PrintfDirectives.PlainCopied | os/src/printf.c:659-667 | what is no percent sign is printed as it is |
| PrintfDirectives.DirectivePrints | os/src/printf.c:790-990 | a directive prints what d, i, u, x, X, o, b, c, s or p makes of the next argument, at most precision characters of a string; any other character prints itself and takes none |
| PrintfFormat.FieldAt | os/src/printf.c:904-960 | a character or string stands at the left end of its field under -, at the right end otherwise, among blanks |
| PrintfFormat.PointerReadsBack | os/src/printf.c:962-982 | a pointer is printed as its eight upper-case hexadecimal digits |
| Printf.OutField | os/src/printf.c:904-960 | a character or string in its field, clipped to the precision |
| Printf.OutInteger | os/src/printf.c:793-881 | base, flags and value of each integer conversion |
| Printf.Vsnprintf | os/src/printf.c:648-1000 | returns the length of the whole text; the buffer holds its first min(count - 1, n) characters and a NUL, and is unchanged behind |
| SoftArithmetic.Multiply | gcc/utils.c:8-20 | shift and add yields the product modulo 2^32, as a signed number |
| SoftArithmetic.SignedProduct | gcc/utils.c:32-61 | signed arguments passed as unsigned do not change it |
| SoftArithmetic.SettlesIff | gcc/utils.c:44-48 | the doubling loop ends without overflow if and only if some multiple of the divisor by a power of two lies above the dividend and below 2^31 |
| SoftArithmetic.OtherwiseOverflows | gcc/utils.c:44-48 | otherwise it goes on from a multiple whose double is no signed word |
| SoftArithmetic.SmallSettles | gcc/utils.c:44-48 | below 2^30 it always ends without overflow |
| SoftArithmetic.OneNeverSettles | gcc/utils.c:44-48 | from 2^30 on, doubling 1 never passes the dividend: the bound is sharp |
| SoftArithmetic.Divide | gcc/utils.c:22-62 | the quotient of the magnitudes, negative exactly if the low 32 bits of x·y have the top bit set; 0 for divisor 0 |
| SoftArithmetic.Modulo | gcc/utils.c:64-102 | the rest of the magnitudes under the sign of the dividend; 0 for divisor 0 |
| SoftArithmetic.DivisionIdentity | gcc/utils.c:22-102 | quotient and rest make up the dividend if and only if the wrapped product has the right sign or abs(x) < abs(y); the rest is smaller than the divisor and has the dividend's sign |
| SoftArithmetic.DivisionWorks | gcc/utils.c:22-102 | so they do for abs(x) < 2^30 and abs(x·y) < 2^31 |
| SoftArithmetic.WrappedProductFails | gcc/utils.c:31-35 | 50000 / 50000 is -1 |
| Decimal.CountDigits | gcc/utils.c:104-115 | the number of decimal digits of abs(n), for abs(n) < 10·2^27, 0 for 0 |
| Decimal.TenSettles | gcc/utils.c:44-48 | the doubling of 10 stays within 31 bits if and only if abs(n) < 10·2^27 |
| Decimal.TextReads | gcc/uart.c:145-184 | the text decodes to the number, without leading zero, in as many characters as `count_digits` says, plus the sign |
| Decimal.Itoa | gcc/uart.c:145-184 | for every word the loops write the text that `ItoaRight` is about, and nothing behind it |
| Decimal.ItoaRight | gcc/uart.c:145-184 | what `itoa` writes, overflow wrapping, is the decimal text if and only if abs(a) < 10^9, for every word |
| HexFile.PrepHex | gcc/pycompile.py:11-30 | a .coe file is its two header lines, the lines and a semicolon, a .hex file just the lines: one for every four bytes, the last byte first, in two lower-case digits each; sending the lines gives the image back, for every image |
| HexFile.LinesMakeUp | gcc/reprogram.py:26-26 | the lines read make up the text |
| HexFile.LineShape | gcc/reprogram.py:26-26 | and a newline ends each, but perhaps the last |
| HexFile.SendLine | gcc/reprogram.py:36-42 | the pairs of a line are sent from its end, up to the first that is not hex |
| HexFile.Send | gcc/reprogram.py:31-47 | magic word, lines, magic word |
| HexFile.FileSentBack | gcc/reprogram.py:31-47 | what is sent of such lines is ef be ad de, the image itself, and ef be ad de |
| HexFile.CoeFileRefused | gcc/pycompile.py:18-19 | of a .coe file nothing but the first magic word is sent |
| Loader.Kernel.ReadWord | gcc/kernel.c:10-17 | four bytes make a word, the lowest first |
| Loader.Kernel.LoadProgram | gcc/kernel.c:19-49 | answer and memory are those of the protocol on the words received; memory outside the program is unchanged; if the first four bytes are not ef be ad de, the answer is 0 and memory is unchanged |
| Loader.LoadsWhole | gcc/kernel.c:32-46 | a sent image is loaded whole if and only if it is made of words, none of them the magic word, at most 16383 |
| Loader.StopsAtMagic | gcc/kernel.c:32-43 | the first magic word behind a program ends it, the answer is 0x10000, and what comes after is not looked at |
| Loader.TooLargeImage | gcc/kernel.c:30-48 | with 16384 words or more, exactly 16384 are stored and the image is refused |
| Loader.RaggedImage | gcc/pycompile.py:20-27 | with a last line of less than four bytes the kernel misses the final magic word and goes on waiting |
| Loader.LoadImage | gcc/kernel.c:19-49 | writing, sending and loading leave the image, and nothing else new, from 0x10000 on and return that; of too large an image 65536 bytes, and return 0 |
| ChaosAdder.XorKeys | chaos/chao_2x1.sv:40-59 | the gate is an exclusive or under exactly the keys 12, 14, 25, 30, 44 and 57 |
| ChaosAdder.FullAdderAdds | chaos/adder_chaos.sv:32-40 | then the cell is a full adder |
| ChaosAdder.RippleAdds | chaos/add_sub_chaos.sv:43-82 | then the chain adds modulo the power of two, from every bit on |
| ChaosAdder.WrongAt | chaos/add_sub_chaos.sv:43-82 | the first gate that is no exclusive or shows in the sum of some inputs |
| ChaosAdder.RightUnderXorKeys | chaos/add_sub_chaos.sv:43-82 | at every width from 2 on, adding (and subtracting) is right on all inputs if and only if both key halves are such keys |

## Left out

- Pages.PageHeap.Map: needs enough free pages for the missing tables and no leaf above the level, neither of which the code checks; bits from 0x400 on, which would reach into the address, are excluded.
- Pages.PageHeap.Zalloc: where `alloc` finds no run the code writes through a null pointer; this is excluded.
- Malloc.Allocator.Malloc: needs the heap to end below the end of the address space; `sbrk` has no limit.
- AesCipher.Cipher: Nb is 4, the only block size of the standard.
- KeySchedule.KeyExpansion: Nk and Nr are unbounded numbers, and the table of 52 round constants must suffice.
- Decimal.CountDigits: `long` has 32 bits, and `TenSettles` gives the numbers for which the division does not overflow.
- SoftArithmetic.Divide: excludes dividends for which the doubling loop overflows, exactly as `SettlesIff` says.
- Printf.Vsnprintf: `size_t` index and the `int` result do not wrap; a format that ends within a directive or does not suit its arguments is excluded; the output functions other than the buffer are not modelled.
- PrintfFormat.PointerReadsBack: excludes `-`, `#`, a sign and a precision above 8, which `%p` passes on.
- AesLaws.EveryWordMatters: from 64 rounds on a word is added in more than one round, and the lemma says nothing.
- The `print` loop at the end of the radix sort, the UART messages of the kernel, and everything else that only drives a device.
- `unmap` and `page_clear_flag` in gcc/page.c: their tests and masks do not do what their names say.
- gcc/kmem.c mixes bytes and 8-byte units; gcc/stdlib.c and os/src/page.c are weaker copies of the page allocator; `atoi` in gcc/uart.c never initialises its index.
- gcc/qsort.c, which holds the same algorithm and does not compile; selection sort, bubble sort, sieve, median, Fibonacci and the modular exponentiation, which would only add easy members.
- Floating-point `printf`, which is compiled out.
- The logic, shift and multiplexer gates beside the adder in chaos/.
