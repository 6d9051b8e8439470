# Verified model of the racccoon C library and Go runtime overlay

This project models the hand-written parts of racccoon's C library
(`lib/racccoon-libc/src`), the Go runtime overlay that speaks the same wire formats
(`go/goos`) and the WebAssembly fixture encoder (`test/mkwasm.py`), and proves what they
promise. Code that changes things step by step is modelled by methods over arrays and
classes with the source's own state, each proved against a specification function, and the
promises are proved of those functions.

`dafny verify dfyconfig.toml` checks everything.

## What is modelled

**Decimal to binary (`floatscan.c`).** `BigDecimal`, `DecimalText`, `DecfloatIntake`,
`DecfloatAlign`, `DecfloatRing`, `DecfloatBounds`, `DecfloatPlaces`, `DecfloatScale`,
`DecfloatRoom`, `Decfloat`, `DecfloatLiterals`, with `Bits`. The words of the ring denote
`Num * 10^(rp - 9 * words) * 2^e2`, a real number, for the 113-bit format (KMAX 2048). The
result for every literal and exponent is `Decfloat.Decfloat`: every way out before
floating-point assembly says something true of the written number, and the scaled way out has
`rp` 36, four leading words in [2^112, 2^113) and words that carry the number (`Carries`).
A literal is 2^twos * 5^fives * rest / 10^places, with rest divisible by neither two nor five;
of one with more digits than the ring keeps, room is asked of the odd number that is left:

- With room (`HasRoom`: below 2^(18498 + twos - places), and places - fives at most 18369) the
  words denote the written number exactly when no nonzero digit was cut. Whatever was cut, they
  denote it only if it is below 2^(18501 + twos - places) and places - fives is at most 18387
  (`MayHold`). So room decides, but for three bits and, below 10^35, eighteen places. Both can be
  counted on the digits (`RoomByDigits`, `NoRoomByDigits`): every integer of up to 5549 digits has
  room, none with an odd last digit and 5573 digits is denoted.
- Every multiple of half the last bit, normal or denormal, is less than, equal to or greater than
  the words just as it is of the written number, which is all that rounding looks at: for all
  literals of at most 18398 digits, all with 36 digits left of the point and all with at most
  18370 decimal places (`Comparable`).
- For every literal they agree with the written number to 18397 digits.

Findings: a word may be exactly 10^9, because the carry test is `>`; a full ring merges or
marks its last word, and a pass keeps the number if and only if nothing nonzero was lost that
way; `FailingLiteral` is a literal that is never denoted.

**Streams down to the file server.** `Fsd` is the server as its clients see it: 32-bit
lengths and offsets, bounded replies, no holes, writes at 0xFFFFFFFF appending
(`user/user.c3:1915-1930`). Requests may fail and replies may be short; both are counted, so
that contracts hold for every behaviour and say more when none happened. Above it stand
`RcFs`, `RcPosix`, `Stdio` and, for whole runs of calls, `StreamRuns`; `GoFs` is the second
client. `Bytes` has the two operations everything refines: a slice cut at the end of the
file and a splice. Because the wire carries 32-bit numbers, reads deliver the slice at the
offset modulo 2^32, and writes are stated for contents up to 0xFFFFFFFF bytes. Findings: a
memory stream made unbuffered sends its bytes to descriptor -1 and fails (`Writable`); after
the flush of a full buffer fails in `fputc` the buffer stays full and the next `fputc` has
no room for its byte: `Writer` holds afterwards if and only if the call did not fail or the
buffer was more than one byte short of full (`FullAfterFault` is a run with one fault); a
flush that fails midway keeps all its bytes pending, so that the next one sends again what had
already reached the file, and the contents come out right if and only if nothing had (`Retry`,
`DuplicatingRun`); the Go client takes a short reply for the end of the file and does not look
at the count a write reply reports: a write of one chunk that is cut short counts as done whole
(`GoFs.WriteAt`), and its other contracts need replies without shortfall.

**Sorting and searching (`stdlib.c`).** `Stdlib`, over elements and any total preorder.

**Formatting, parsing, scanning (`printf.c`, `stdlib.c`, `scanf.c`).** `Numerals`, `Strto`,
`Format`, `Printf`, `Pieces`, `PrintParse`, `Scanf`. `Format.Rendered` is the output a format and
its arguments denote; `Printf` emits it into either sink; `Pieces` says what it is for a format
made of pieces, each field by its own bytes and the arguments it takes (`FormatPrints`). The
flags + and space put a sign before the unsigned conversions too. Reading %d back in base 0 fails when
zeros were filled in; `SignedBaseZero` and `UnsignedBaseZero` say exactly when it works. The
scanner cuts numerals after 511 bytes (`ScanTooLong`).

**The exec blob.** `ExecBlob` has the two forms and both parsers as functions, `Exec` the
packers and parsers of `rc_proc.c`, `libc_start.c`, `racccoon_exec.go` and
`racccoon_user.go`. SYS_EXEC delivers the blob unchanged with zeros after it.

**In-place byte work.** `RcPath` (paths), `CString` (memmove on one memory, strtok_r), `Dns`
and `Quad` (names, replies, dotted quads), `RcEnv` (the environment as a map), `Ticks` (tick
arithmetic: the Go runtime's clock runs backwards at every rate above 9.2 GHz), `MkWasm` (LEB128,
sections, modules). The name builder lets through labels of up to 273 bytes in all, more
than the 255 octets of section 2.3.4 of RFC 1035.

Where the code and its comments differ the model follows the code: the comment at
`rc_posix.c:191` speaks of about 1 KiB a request, the code of 8188 bytes.

## Model

| member | source | states |
|---|---|---|
| BigDecimal.HornerAppend | lib/racccoon-libc/src/floatscan.c:118-119 | One more word multiplies the big integer the words denote by 10^9 and adds the word, whatever came before |
| BigDecimal.ValueDropTrailingZeros | lib/racccoon-libc/src/floatscan.c:192-193 | Trailing zero words can go without changing the number denoted |
| BigDecimal.ValueScale | lib/racccoon-libc/src/floatscan.c:216-219 | Words whose integer is 2^m times as large denote the same number at e2 - m |
| BigDecimal.ValueInjective | lib/racccoon-libc/src/floatscan.c:229-237 | With the point in the same place, two lists of words denote the same number if and only if their integers are equal |
| Decfloat.SkipZeros | lib/racccoon-libc/src/floatscan.c:102-107 | Leading zeros before and just after the point take no ring slot; lrp counts those after it |
| DecfloatIntake.PushKept | lib/racccoon-libc/src/floatscan.c:116-123 | Taking one digit multiplies the packed integer by ten and adds the digit, also where a word of nine digits is completed |
| DecfloatIntake.DroppedStep | lib/racccoon-libc/src/floatscan.c:125-131 | A digit beyond the room is remembered as lost exactly when it is not zero |
| DecfloatIntake.MarkKept | lib/racccoon-libc/src/floatscan.c:127-130 | The first nonzero digit that does not fit: the words without it are too small by less than one unit of their last digit, and marked they are odd, differ from the number too and are less than a unit away |
| DecfloatIntake.DropKept | lib/racccoon-libc/src/floatscan.c:124-131 | Further digits that do not fit change nothing of what the mark says |
| DecfloatIntake.ReadDigits | lib/racccoon-libc/src/floatscan.c:109-133 | The digit loop: words, digit count, last nonzero digit and radix point all describe the digits consumed so far, for every literal |
| Decfloat.Intake | lib/racccoon-libc/src/floatscan.c:99-133 | After intake the ring holds the literal's significant digits, nine to a word, and the sticky mark is set iff a nonzero digit did not fit |
| Decfloat.PaddedValue | lib/racccoon-libc/src/floatscan.c:171-181 | Padding the last word with zeros to nine digits leaves the number denoted unchanged |
| Decfloat.LiteralIsPadded | lib/racccoon-libc/src/floatscan.c:171-181 | The padded words with rp denote the written number if and only if no nonzero digit was dropped; otherwise they miss it by less than one unit of the last digit kept |
| Decfloat.ShortSays | lib/racccoon-libc/src/floatscan.c:158-160 | The exit for integers of fewer than ten digits returns the written number |
| Decfloat.ShortWay | lib/racccoon-libc/src/floatscan.c:183-190 | The exits for one-word numbers return that word, a quotient or a product, equal to the written number |
| Decfloat.OutOfRange | lib/racccoon-libc/src/floatscan.c:162-169 | The early range exits fire only for numbers beyond the largest or below the smallest magnitude of the format |
| Decfloat.Overflows | lib/racccoon-libc/src/floatscan.c:162-165 | With more than -emin/2 digits left of the point the number is at least 2^emax, too big for the format |
| Decfloat.Underflows | lib/racccoon-libc/src/floatscan.c:166-169 | Below that exponent the number is not zero and less than 2^(emin-226) |
| Decfloat.DropZeros | lib/racccoon-libc/src/floatscan.c:192-193 | The loop over trailing zeros stops inside the words and drops exactly the zero ones |
| DecfloatAlign.AlignExact | lib/racccoon-libc/src/floatscan.c:200-203 | The alignment pass is an exact long division: p times (quotient words and last carry) is the original integer, carried prefix by prefix |
| DecfloatAlign.AlignValue | lib/racccoon-libc/src/floatscan.c:195-211 | Aligning the radix point to a word boundary, with or without a vanishing leading word, does not change the number |
| DecfloatAlign.AlignShape | lib/racccoon-libc/src/floatscan.c:200-209 | Aligned words stay below 10^9, at most one word is added and the leading one is not zero |
| DecfloatAlign.AlignOne | lib/racccoon-libc/src/floatscan.c:200-203 | One word of the pass in place: product and quotient fit 32 bits |
| DecfloatAlign.AlignRadix | lib/racccoon-libc/src/floatscan.c:195-211 | After it rp is a multiple of nine, the ring denotes the same number and has at most eight more decimal places |
| DecfloatRing.UpExact | lib/racccoon-libc/src/floatscan.c:217-225 | A multiplication pass is exact at every word: words plus carry denote 2^29 times the words passed |
| DecfloatRing.UpValue | lib/racccoon-libc/src/floatscan.c:215-237 | A whole trip, dropped zero words and new leading word included, keeps the number |
| DecfloatRing.UpBounds | lib/racccoon-libc/src/floatscan.c:218-225 | Each word stays at most 10^9 (exactly 10^9 is possible, the test being >), the carry below 2^30 and at most 10^9, and without a carry the leading word grows |
| DecfloatRing.DownExact | lib/racccoon-libc/src/floatscan.c:256-259 | A division pass is exact: what a word sheds moves down as a multiple of 10^9 >> sh, so halving by 2 or 2^9 loses nothing |
| DecfloatRing.DownValue | lib/racccoon-libc/src/floatscan.c:255-271 | A whole downscaling trip keeps the number |
| DecfloatRing.MergeTailValue | lib/racccoon-libc/src/floatscan.c:232-235 | When a full ring merges its last word into its neighbour the number is kept if and only if the merged word is zero |
| DecfloatRing.MarkTailValue | lib/racccoon-libc/src/floatscan.c:266-271 | When a full ring can only mark its last word for a shed carry, the number always changes |
| DecfloatRing.Ring.MultiplyWord | lib/racccoon-libc/src/floatscan.c:218-225 | One word in 64-bit arithmetic: no product overflows and carry and word are exact |
| DecfloatRing.Ring.MultiplyWords | lib/racccoon-libc/src/floatscan.c:217-228 | The loop down the ring with wrapping indices yields the multiplied words, all trailing zero words dropped but the first |
| DecfloatRing.Ring.PushFront | lib/racccoon-libc/src/floatscan.c:229-237 | A new leading word; a full ring merges its last two words, which keeps the number iff the one merged was zero |
| DecfloatRing.Ring.UpscalePass | lib/racccoon-libc/src/floatscan.c:214-238 | One upscaling trip: words of the same number, which a full ring holds with the last two merged; the number is kept iff nothing nonzero was, and the leading word grows or rp moves by nine; a last word of exactly 10^9 has a multiple of 512 before it |
| DecfloatRing.Ring.DivideWords | lib/racccoon-libc/src/floatscan.c:256-265 | The loop up the ring yields the divided words; a vanishing leading word moves a and rp |
| DecfloatRing.Ring.PushBack | lib/racccoon-libc/src/floatscan.c:266-271 | The last carry gets a slot, or with a full ring a mark |
| DecfloatRing.Ring.DownscalePass | lib/racccoon-libc/src/floatscan.c:241-272 | One downscaling trip: the divided words denote the same number, and a full ring holds a mark for the last one; the number is kept iff there was none to mark for |
| DecfloatScale.TopFits | lib/racccoon-libc/src/floatscan.c:244-251 | The comparison loop with the table: true iff the leading four words denote less than 2^113, absent words counting as zero |
| DecfloatScale.Upscale | lib/racccoon-libc/src/floatscan.c:213-238 | The loop ends with enough integer digits, and at once if there are 36; it is exact whenever the words have fewer than 18387 decimal places or the number has at most 18369 not owed to fives, and otherwise changes it by less than one part in 10^18398 |
| DecfloatScale.DownTrip | lib/racccoon-libc/src/floatscan.c:242-272 | A downscaling trip keeps enough bits: the leading words never drop below 2^112 once rp is 36 |
| DecfloatScale.Downscale | lib/racccoon-libc/src/floatscan.c:240-272 | The loop ends with rp 36 and the four leading words denoting an integer in [2^112, 2^113); it is exact for every number below 2^(18498 + twos - places) whose places beyond its fives leave the ring a slot, never moves the number across a multiple of half its last bit, and stays close to it |
| DecfloatBounds.IntegerPart | lib/racccoon-libc/src/floatscan.c:240-277 | The scaled value is at least the integer of the four leading words and exceeds it by hardly more than one, so those are its significant bits |
| DecfloatBounds.TopBounds | lib/racccoon-libc/src/floatscan.c:240-277 | With any words below 2^30 the number lies between the integer of the four leading words and 1.08 above it, times 2^e2 |
| DecfloatPlaces.PlacesNeeded | lib/racccoon-libc/src/floatscan.c:253-271 | Words that do not end in zero have at most eight places after the point more than the number needs for the twos it lacks, e2 counted in, or for the fives |
| DecfloatPlaces.PlacesNeededFull | lib/racccoon-libc/src/floatscan.c:218-237 | Words that end in a full 10^9 behind a multiple of 512 have at most seventeen more |
| DecfloatPlaces.TwosNeeded | lib/racccoon-libc/src/floatscan.c:240-272 | Conversely words can denote a number only with as many places as twos it lacks: places + e2 - twos |
| DecfloatPlaces.FivesNeeded | lib/racccoon-libc/src/floatscan.c:240-272 | and as many as fives it lacks: places - fives |
| DecfloatPlaces.FullNeeds | lib/racccoon-libc/src/floatscan.c:253-271 | If words fill all 2048 slots with the point scaled down, the number had at least 2^(18498 + twos - places), or too few fives for its places |
| DecfloatPlaces.MergeNeeds | lib/racccoon-libc/src/floatscan.c:229-237 | If a full ring has to merge two nonzero words while upscaling, the number had more than 18369 places not owed to fives, or more than the aligned words have room for |
| DecfloatBounds.MergeClose | lib/racccoon-libc/src/floatscan.c:232-235 | Merging two words of a full ring changes the number by at most one part in 10^18404 |
| DecfloatBounds.MarkClose | lib/racccoon-libc/src/floatscan.c:266-271 | So does marking for a shed carry |
| DecfloatBounds.MarkAlike | lib/racccoon-libc/src/floatscan.c:266-271 | No multiple of half the last of the 113 bits lies between the number and the marked words, nor on one of them only: rounding cannot tell them apart |
| DecfloatBounds.MarkRestores | lib/racccoon-libc/src/floatscan.c:266-271 | Marked words denote an odd number m of units exactly when the number was less than one unit from m |
| DecfloatBounds.MergeStays | lib/racccoon-libc/src/floatscan.c:232-235 | A merge stays below the next higher word exactly when the two words or-ed are less than 10^9 |
| DecfloatBounds.MergeMoves | lib/racccoon-libc/src/floatscan.c:232-235 | Words for which it does not |
| DecfloatRoom.LiteralPlaces | lib/racccoon-libc/src/floatscan.c:99-133 | A literal of which no digit was cut is its digits, zeros at the end left off, over 10 to the places counted for it |
| DecfloatRoom.CutFacts | lib/racccoon-libc/src/floatscan.c:124-131 | A literal with digits cut never equals what is left of it, but is within one part in 10^18404 and on the same side of every multiple of two units of the last digit kept |
| DecfloatRoom.NoScaling | lib/racccoon-libc/src/floatscan.c:213-214 | A number of 36 integer digits or more is never upscaled |
| DecfloatRoom.RescaledIs | lib/racccoon-libc/src/floatscan.c:195-272 | The loops together: exact with room, indistinguishable to rounding if no words were merged, close always |
| DecfloatRoom.FewDigitsAlike | lib/racccoon-libc/src/floatscan.c:213-272 | A number of fewer than 10^18398 units of its last place that is no multiple of a power of two cannot be moved across one, or onto one, by any number of merges |
| DecfloatRoom.OnlyWithRoom | lib/racccoon-libc/src/floatscan.c:240-272 | Words that denote a literal of any digits need it to be below 2^(18501 + twos - places), with at most 18387 places not owed to fives |
| DecfloatRoom.CarriesCut | lib/racccoon-libc/src/floatscan.c:99-272 | The same of a literal with digits cut, at the precision of normal and of denormal results |
| Decfloat.Rescale | lib/racccoon-libc/src/floatscan.c:195-272 | Align, upscale and downscale together, for any number that does not end in a zero: same number if there is room for its bits and places, twos and fives taken off; the comparison with every multiple of half the last bit unchanged if nothing was merged; agreement to 18397 digits and the four-word form always |
| Decfloat.Settle | lib/racccoon-libc/src/floatscan.c:156-272 | Every way out after the digits says something true of the written number; a product returned at once has no more significant bits than the target format |
| Decfloat.Decfloat | lib/racccoon-libc/src/floatscan.c:80-272 | For every literal and exponent: each early exit is exact or rightly out of range; the scaled exit has rp 36 and 113 significant bits; its words denote the written number, if the literal has room, exactly when no nonzero digit was cut, and never if it is past `MayHold`; they agree with it to 18397 digits in any case, and compare with every multiple of half the last bit as it does if it has at most 18398 digits or no words were merged |
| DecfloatLiterals.RoomByDigits | lib/racccoon-libc/src/floatscan.c:80-272 | Room by counting: n digits left of the point and (10n + 2)/3 + places - twos at most 18498; or, if n is below 36, places - fives at most 18369 and places - twos at most 18381 |
| DecfloatLiterals.IntegersHaveRoom | lib/racccoon-libc/src/floatscan.c:80-272 | Every integer of up to 5549 digits, written out or with an exponent, has room and is denoted exactly; the largest of the format has 4933 |
| DecfloatLiterals.NoRoomByDigits | lib/racccoon-libc/src/floatscan.c:240-272 | No room by counting: n digits left of the point, 93 bits for each 28 after the first, and that plus places - twos at least 18501; or places - fives above 18387 |
| DecfloatLiterals.LongOddInteger | lib/racccoon-libc/src/floatscan.c:240-272 | No integer with an odd last digit and 5573 digits or more is denoted |
| DecfloatLiterals.CutHasRoom | lib/racccoon-libc/src/floatscan.c:124-272 | Every literal with digits cut and 36 to 39 digits left of the point has room, so that its number is always missed |
| DecfloatLiterals.CutMissed | lib/racccoon-libc/src/floatscan.c:124-272 | So is every literal with digits cut that ends in an odd digit and has 43 digits or more left of the point, or ends in neither 0 nor 5 and has 18 or fewer |
| DecfloatLiterals.FailingLiteral | lib/racccoon-libc/src/floatscan.c:80-272 | One such literal: 18406 ones with the point after the 36th, scaled to another number |
| Stdlib.Swap | lib/racccoon-libc/src/stdlib.c:82-85 | Exchanges two elements and rearranges nothing else |
| Stdlib.SiftDown | lib/racccoon-libc/src/stdlib.c:94-95 | The inner loop of the insertion sort puts one element in its place |
| Stdlib.InsertionSort | lib/racccoon-libc/src/stdlib.c:92-97 | Runs of up to 12 elements: sorted, the same elements |
| Stdlib.SortThree | lib/racccoon-libc/src/stdlib.c:99-101 | Median of three: first, middle and last element in order |
| Stdlib.Scan | lib/racccoon-libc/src/stdlib.c:108-109 | Both unguarded inner loops end inside the array: the first at the old j or the parked pivot, the second at the old i |
| Stdlib.Exchange | lib/racccoon-libc/src/stdlib.c:107-113 | One trip of the partition loop keeps the split or brings the pivot home |
| Stdlib.Partition | lib/racccoon-libc/src/stdlib.c:99-113 | The pivot ends at i, nothing above it before and nothing below it after, the same elements |
| Stdlib.SidesSorted | lib/racccoon-libc/src/stdlib.c:115-117 | Two sides sorted around a pivot make a sorted whole and a permutation of what was there |
| Stdlib.Qsort | lib/racccoon-libc/src/stdlib.c:87-118 | For every total preorder: terminates, sorted, a permutation, nothing outside the range touched (ISO C17 section 7.22.5.2) |
| Stdlib.SortedPartitioned | lib/racccoon-libc/src/stdlib.c:120-132 | A sorted array is partitioned for every key |
| Stdlib.Bsearch | lib/racccoon-libc/src/stdlib.c:120-132 | A match is returned exactly when one exists (ISO C17 section 7.22.5.1) |
| Stdlib.SortThenSearch | lib/racccoon-libc/src/stdlib.c:87-132 | Sorting and then searching finds a match exactly when the unsorted array held one |
| RcFs.ReadAt | lib/racccoon-libc/src/rc_fs.c:118-137 | One request: the bytes the server sent, at most a chunk, copied; the rest of the buffer untouched |
| RcFs.WriteAt | lib/racccoon-libc/src/rc_fs.c:139-156 | One request: a splice of at most a chunk at the 32-bit offset, or at the end for 0xFFFFFFFF, or nothing on failure, which is when the place is past the end or the request failed; no other file changes |
| RcFs.List | lib/racccoon-libc/src/rc_fs.c:220-255 | The paging loop returns the whole listing once, in order, or its first max_entries, and ends also when the count is a multiple of the page; -1 if and only if nothing was listed and the directory is missing or a request failed |
| RcPosix.ReadAdvance | lib/racccoon-libc/src/rc_posix.c:194-203 | What is still to deliver after some bytes is the rest of what was, also across the 32-bit wrap of the offset |
| RcPosix.Posix.ReadFile | lib/racccoon-libc/src/rc_posix.c:194-203 | The chunk loop delivers a prefix of the requested slice, all of it without failures |
| RcPosix.Posix.Read | lib/racccoon-libc/src/rc_posix.c:184-204 | read(): exactly the file's slice at the descriptor's offset cut at end of file, offset advanced by it, rest of the buffer untouched; from the console the next bytes, up to the end of a line or the count |
| RcPosix.Posix.WriteFile | lib/racccoon-libc/src/rc_posix.c:213-224 | The chunk loop equals one splice of what was taken; only the descriptor's offset changes |
| RcPosix.Posix.Write | lib/racccoon-libc/src/rc_posix.c:206-225 | write(): one splice at the descriptor's offset, advanced by as much as was taken; no other descriptor and no other file changes, and from past the end of the file it fails and changes nothing; the console gets all the bytes |
| RcPosix.Posix.Lseek | lib/racccoon-libc/src/rc_posix.c:227-245 | The offset is the requested one or unchanged with an error |
| RcPosix.Posix.Pread | lib/racccoon-libc/src/rc_posix.c:575-585 | The slice at the given offset; the whole descriptor table unchanged |
| RcPosix.Posix.Pwrite | lib/racccoon-libc/src/rc_posix.c:587-597 | The splice at the given offset; past the end of the file it fails and writes nothing; the whole descriptor table unchanged by every call |
| RcPosix.Posix.FdAlloc | lib/racccoon-libc/src/rc_posix.c:100-107 | The lowest free descriptor from 3 on, or none iff all are taken |
| RcPosix.Posix.Open | lib/racccoon-libc/src/rc_posix.c:111-147 | O_CREAT with O_EXCL refuses a file that is there and a missing one is refused without O_CREAT, each with its errno and nothing changed; otherwise the file is created, emptied or left as the flags say, no other file touched, and the lowest free descriptor from 3 on stands at 0, or at the size for append, or there is none |
| RcPosix.Posix.Mkstemp | lib/racccoon-libc/src/rc_posix.c:668-677 | Names that are taken are passed over; the file opened is a new, empty one, and every file that was there stays as it was |
| RcPosix.Posix.Close | lib/racccoon-libc/src/rc_posix.c:155-162 | A descriptor from 3 on is free afterwards, 0 to 2 stay open, others unchanged |
| RcPosix.Posix.ConsoleRead | lib/racccoon-libc/src/rc_posix.c:171-182 | Console bytes up to and including a line end, or as many as asked for |
| Stdio.Stream.MsAppend | lib/racccoon-libc/src/stdio.c:50-65 | The growing memory buffer holds what it held plus the new bytes, NUL-terminated, size kept, through any number of doublings |
| Stdio.Stream.WriteAll | lib/racccoon-libc/src/stdio.c:76-81 | The write loop appends all the bytes, or reports a failure and has appended the first so many of them, none if one request would do and no reply was short |
| Stdio.Stream.FlushWrite | lib/racccoon-libc/src/stdio.c:67-85 | All pending bytes reach the file or memory buffer and no other descriptor, file or console changes; a failed write leaves the same bytes pending though a first part of them is in the file, none of it when there were at most 8084 and no reply was short, and a fault in one request is always reported |
| Stdio.Stream.Fputc | lib/racccoon-libc/src/stdio.c:273-287 | One more byte of contents, whatever the buffering mode: a full buffer is written, and a line-buffered one at a newline, so that the whole line is in the file; a memory stream made unbuffered always fails; after EOF in a buffered mode the byte is still pending, a first part of what is pending may be in the file, and there is room for another call if and only if the buffer was more than one byte short of full |
| Stdio.Stream.Fputs | lib/racccoon-libc/src/stdio.c:291-294 | The string appended to the contents; a line-buffered stream holds back no complete line |
| Stdio.Stream.Fwrite | lib/racccoon-libc/src/stdio.c:302-314 | size*nmemb bytes appended; the item count is exact |
| Stdio.Stream.Fflush | lib/racccoon-libc/src/stdio.c:94-103 | Contents and file agree afterwards; when it fails the bytes stay pending, whatever part of them was sent; one that meets no fault writes all of them behind what the file has, sent before or not |
| Stdio.Stream.Setvbuf | lib/racccoon-libc/src/stdio.c:342-352 | Changing the buffer or mode loses no byte |
| Stdio.Stream.Fclose | lib/racccoon-libc/src/stdio.c:203-211 | After closing a written stream the file holds exactly the contents, the descriptor is free, and no other descriptor or file has changed |
| Stdio.Stream.Ftell | lib/racccoon-libc/src/stdio.c:328-334 | For a written stream the number of bytes written, for a read one the logical position |
| Stdio.Stream.Refill | lib/racccoon-libc/src/stdio.c:215-225 | The window moves to the next buffer-full of the file; end of file is reported only at the end |
| Stdio.Stream.Fgetc | lib/racccoon-libc/src/stdio.c:227-234 | The next byte of what is left, a pushed-back one first |
| Stdio.Stream.Ungetc | lib/racccoon-libc/src/stdio.c:236-242 | One byte of pushback is delivered first and ends end-of-file; a second one, or EOF, is refused and changes nothing |
| Stdio.Stream.Fread | lib/racccoon-libc/src/stdio.c:258-269 | The next size*nmemb bytes or all that are left, and the number of whole items |
| Stdio.Stream.Fgets | lib/racccoon-libc/src/stdio.c:244-256 | A line, or what fits of it, NUL-terminated inside n bytes; null exactly at the end |
| Stdio.Stream.Getdelim | lib/racccoon-libc/src/stdio.c:392-411 | A line of any length with its delimiter, NUL-terminated in a buffer that grows; -1 exactly at the end |
| Stdio.Stream.SeekTo | lib/racccoon-libc/src/stdio.c:316-326 | Absolute seeks: what is left is the file from there |
| Stdio.Fopen | lib/racccoon-libc/src/stdio.c:163-183 | "r", "w" and "a" streams start at the right contents and position, line-buffered on a terminal, one descriptor taken; no stream is opened only for a missing file to be read or a full table |
| StreamRuns.RunWrites | lib/racccoon-libc/src/stdio.c:50-352 | Any sequence of fputc, fputs, fwrite, fflush and setvbuf calls, with buffers of the caller's or none, and a final flush leaves exactly the bytes of all calls in order, in the file or in the NUL-terminated memory buffer with its size, and the position counts them |
| StreamRuns.RunEach | lib/racccoon-libc/src/stdio.c:273-352 | Without the flush: the contents are those bytes, and of a line-buffered stream every line end is in the file |
| StreamRuns.FullAfterFault | lib/racccoon-libc/src/stdio.c:67-287 | A run with one fault: fputc fails and leaves its buffer full, with no room for the next byte; a later fflush that succeeds makes room, and if it met no fault the file holds the byte |
| StreamRuns.Retry | lib/racccoon-libc/src/stdio.c:67-103 | fflush and, when it fails, fflush again: once the second succeeds without a fault the file has the first k pending bytes twice, so that the contents are right if and only if k is 0, which holds for up to 8084 pending bytes without short replies and fails when the first flush met a second fault; without any fault the first succeeds and the contents are right |
| StreamRuns.SentTwice | lib/racccoon-libc/src/stdio.c:67-85 | Bytes of which a first part is sent again are the same contents if and only if that part is empty |
| StreamRuns.DuplicatingRun | lib/racccoon-libc/src/stdio.c:67-294 | A run in which the contents come out wrong: 16383 bytes through a buffer of the caller's, a flush that fails after its first request, and a flush that succeeds; without faults they come out right |
| StreamRuns.RunReads | lib/racccoon-libc/src/stdio.c:215-332 | Any interleaving of fgetc, fgets, fread, getdelim and absolute fseek delivers what the same calls on the plain byte sequence deliver |
| StreamRuns.ReadLines | lib/racccoon-libc/src/stdio.c:392-411 | All getdelim results put together are the file, each with its delimiter but perhaps the last |
| StreamRuns.LineIs | lib/racccoon-libc/src/stdio.c:392-411 | A line as the length function measures it ends at its first delimiter |
| StreamRuns.WriteThenRead | lib/racccoon-libc/src/stdio.c:163-411 | What any run of writes put in a "w" stream, an "r" stream on the same path delivers |
| GoFs.ReadAt | go/goos/racccoon_fs.go:171-206 | The requested slice cut at end of file, when no reply fails or is short; a short reply ends it, and EIO is returned if and only if nothing was read of a missing file or through a failed request |
| GoFs.WriteAt | go/goos/racccoon_fs.go:208-237 | One splice of the whole data, when no reply fails or is short; of a write of one chunk exactly what the reply counts is written, all of it if and only if the reply was not short, and all of it is reported; EIO only if nothing was written, always so past the end of the file |
| GoFs.ListDir | go/goos/racccoon_fs.go:263-296 | The whole listing once, in order; ends also when the count is a multiple of the page; EIO if and only if nothing was listed and the directory is missing or a request failed |
| GoFs.Truncate | go/goos/racccoon_fs.go:446-482 | The prefix of the file, or the file extended with zero bytes, every other file unchanged |
| Numerals.Utoa | lib/racccoon-libc/src/printf.c:51-59 | The backwards loop writes the shortest numeral and its NUL inside the 32-byte buffer, for every 64-bit value in bases 8, 10 and 16 |
| Numerals.DigitsDenote | lib/racccoon-libc/src/printf.c:51-59 | That numeral denotes the value and starts with no zero unless it is one |
| Numerals.NumeralFits | lib/racccoon-libc/src/printf.c:189 | No 64-bit numeral in bases 8 to 16 is longer than the formatter's digit buffer holds |
| Printf.Out.EmitStr | lib/racccoon-libc/src/printf.c:34-40 | Bytes that fit below the limit are stored, all are counted, nothing else in the array changes |
| Printf.Out.EmitFile | lib/racccoon-libc/src/printf.c:29-33 | All bytes are handed to the stream and counted |
| Printf.Out.Pad | lib/racccoon-libc/src/printf.c:42-47 | n copies in chunks of 16, none for a negative n |
| Printf.Out.PutNumber | lib/racccoon-libc/src/printf.c:61-84 | Sign, prefix, zeros, digits and blanks in the order the flags ask for |
| Printf.Out.PutStr | lib/racccoon-libc/src/printf.c:86-95 | A string cut at the precision in its field |
| Printf.ScanSpec | lib/racccoon-libc/src/printf.c:154-188 | Flags, width, precision and length read as the format says, `*` taking arguments and a negative width meaning left |
| Printf.Convert | lib/racccoon-libc/src/printf.c:191-255 | Each conversion emits its text, for whichever sink |
| Printf.Vformat | lib/racccoon-libc/src/printf.c:148-258 | For every format and arguments the bytes emitted are one function of these, not of the sink |
| Printf.Vsnprintf | lib/racccoon-libc/src/printf.c:265-271 | Stores the first n-1 bytes of the full output and a NUL, touches nothing past them, returns the full length whatever n is (ISO C17 section 7.21.6.5) |
| Printf.Vfprintf | lib/racccoon-libc/src/printf.c:260-264 | The stream receives exactly that same output and the same number is returned |
| Printf.Vasprintf | lib/racccoon-libc/src/printf.c:311-323 | Measure, allocate, write gives the whole output, exactly when its length is an int |
| Pieces.FormatPrints | lib/racccoon-libc/src/printf.c:148-258 | A format made of literal bytes and conversions of every kind, with flags, width, precision, * and length: the output is their fields one after another, each made from the next arguments not yet used, as its numeral in 0-9a-f or 0-9A-F, sign, prefix and zeros, its character, its string cut at the precision or (null), with blanks on the side the flags ask for |
| Pieces.OneField | lib/racccoon-libc/src/printf.c:61-95 | That description leaves one text for each field |
| Pieces.DigitsSpelled | lib/racccoon-libc/src/printf.c:51-59 | The digits written are the shortest numeral of the value in the digits of the conversion |
| PrintParse.FieldLength | lib/racccoon-libc/src/printf.c:61-84 | The printed length is the larger of the width and sign + prefix + max(digits, precision), for every combination of flags |
| Strto.Strtoull | lib/racccoon-libc/src/stdlib.c:16-45 | The wrapped accumulator gives the value of the digit run modulo 2^64, negated in two's complement after a minus; the end pointer is past the run, or at the start if there is none |
| Strto.Strtoll | lib/racccoon-libc/src/stdlib.c:47-50 | The same 64 bits as a signed number |
| Strto.Wraps | lib/racccoon-libc/src/stdlib.c:35-40 | Reducing at each digit equals reducing once |
| Strto.BlanksSkipped | lib/racccoon-libc/src/stdlib.c:19 | White space in front, blanks, tabs and line ends alike, changes nothing but where the numeral ends |
| Strto.WholeRun | lib/racccoon-libc/src/stdlib.c:16-45 | A digit in front is read, and digits of the base, 0 to 9 and letters of either case, are read up to the first character that is none |
| PrintParse.NumberRoundTrip | lib/racccoon-libc/src/printf.c:61-84 | A numeral in any field is read back to the same value, and parsing stops where its digits end |
| PrintParse.SignedRoundTrip | lib/racccoon-libc/src/printf.c:192-201 | %d under any flags, width and precision comes back through strtoll in base 10, LLONG_MIN included, whatever but a digit follows |
| PrintParse.UnsignedRoundTrip | lib/racccoon-libc/src/printf.c:202-216 | %u, %o, %x, %X come back through strtoull in their base, and with # also in base 0 |
| PrintParse.SignedBaseZero | lib/racccoon-libc/src/stdlib.c:24-32 | %d read in base 0 gives the value back if and only if no zeros were filled in or the value has one octal digit |
| PrintParse.UnsignedBaseZero | lib/racccoon-libc/src/stdlib.c:24-32 | %u, or %o, %x, %X without #, read in base 0 gives the value back if and only if that reads it in its own base or it is a single digit of both; an octal numeral of more than 57 bits is read as its decimal value modulo 2^64 |
| PrintParse.OtherPart | lib/racccoon-libc/src/stdlib.c:24-32 | The digits base 0 takes of a numeral in another base denote less, or for octal read as decimal more, unless the numeral is a single digit of both |
| Scanf.ScanInteger | lib/racccoon-libc/src/scanf.c:57-149 | Integer conversions skip white space, copy at most 511 bytes and parse them |
| Scanf.ScanWidth | lib/racccoon-libc/src/scanf.c:115-149 | White space of any kind and then as many digits as the width says: these digits are the value, whatever follows |
| Scanf.ScanBounded | lib/racccoon-libc/src/scanf.c:115-149 | Behind the white space never more bytes are taken than the width, nor than 511 |
| Scanf.ScanRoundTrip | lib/racccoon-libc/src/scanf.c:115-149 | A printed numeral that fits the scanner's buffer, and the width of the conversion if it has one, is scanned back, in its base or by %i from its prefix |
| Scanf.ScanTooLong | lib/racccoon-libc/src/scanf.c:115-149 | A longer numeral is cut after 511 bytes or after the width: the scan stops inside it and the value is the same if and only if it is zero |
| Scanf.ScanSignedRoundTrip | lib/racccoon-libc/src/scanf.c:14-26 | %d scanned by %d is stored unchanged through a pointer of any length that can hold it |
| Scanf.StoredLowBits | lib/racccoon-libc/src/scanf.c:14-26 | What is stored through a pointer is the number in the range of its type that agrees with the value modulo that range |
| Exec.BlobPut | lib/racccoon-libc/src/rc_proc.c:100-111 | A string and its NUL appended, refused exactly when they do not fit, nothing written past the cap |
| Exec.PackExec | lib/racccoon-libc/src/rc_proc.c:119-140 | E2BIG exactly when the encoded length exceeds 16384; otherwise the bytes behind the image are the encoding, marked by a 1 and the environment by a 2; image and bytes past the cap untouched |
| Exec.FillArgv | lib/racccoon-libc/src/libc_start.c:78-82 | Pointers to n consecutive strings, none null |
| Exec.FillEnvp | lib/racccoon-libc/src/libc_start.c:85-93 | Pointers to the strings up to an empty one, at most 62, none null |
| Exec.LibcStart | lib/racccoon-libc/src/libc_start.c:67-119 | The two tables point at the argument and environment strings of either form of blob, argv[0] at the fixed name when there is none, and a null pointer follows the strings in each |
| ExecBlob.MarkedRead | lib/racccoon-libc/src/libc_start.c:76-98 | The marked form read back: the arguments, and the environment up to its first empty string or its 62nd |
| ExecBlob.ExecRoundTrip | lib/racccoon-libc/src/libc_start.c:67-119 | execve then __libc_start gives back argv and envp if and only if there are 1 to 64 arguments and at most 62 environment strings, none empty |
| ExecBlob.PlainRead | lib/racccoon-libc/src/libc_start.c:76-118 | A plain blob is mistaken for the marked form if and only if its first string begins with byte 0x01; otherwise its first 64 strings come back |
| Exec.PackSpawn | go/goos/racccoon_exec.go:156-176 | The blob is the strings with their NULs and fills the buffer exactly; the path stands in for an empty argv |
| Exec.GoArgs | go/goos/racccoon_user.go:147-162 | The Go parser returns argc consecutive strings, or "go" |
| ExecBlob.GoRoundTrip | go/goos/racccoon_user.go:147-162 | Packing then parsing in Go gives the strings back if and only if none contains a NUL |
| RcPath.SplitJoined | lib/racccoon-libc/src/rc_fs.c:46-49 | Splitting at slashes distributes over joining with one |
| RcPath.Pop | lib/racccoon-libc/src/rc_fs.c:53-59 | ".." drops the last name in both shapes of the text, with and without a trailing slash, and stays at the root |
| RcPath.Push | lib/racccoon-libc/src/rc_fs.c:60-61 | A name is appended behind one slash; for paths of at most 127 bytes the bound of the copy never cuts it |
| RcPath.Normalize | lib/racccoon-libc/src/rc_fs.c:40-66 | For every absolute path of at most 127 bytes the result is the stack evaluation of its names, in place, never longer, inside both buffers |
| RcPath.NormalIdempotent | lib/racccoon-libc/src/rc_fs.c:37-39 | Normalizing twice is normalizing once |
| RcPath.NormalLaws | lib/racccoon-libc/src/rc_fs.c:40-66 | A name goes behind the path before it; ".." takes it away again and stops at the root; "." and an empty segment change nothing |
| RcPath.Abspath | lib/racccoon-libc/src/rc_fs.c:68-93 | The normalized path of the text cut to 127 bytes, for absolute, relative and empty paths and with no directory set; a path that fits is the walk from the current directory itself, or from the root for an absolute one or without a directory |
| RcPath.AbspathMeans | lib/racccoon-libc/src/rc_fs.c:68-93 | A path that fits means the walk from the current directory, or from the root for an absolute one |
| CString.Memcpy | lib/racccoon-libc/src/string.c:8-22 | Also on overlapping ranges with the destination first: the destination gets the old source bytes though words are moved eight bytes at a time, and nothing else changes |
| CString.Memmove | lib/racccoon-libc/src/string.c:24-33 | For every overlap and alignment the destination gets the old source bytes and nothing else changes (ISO C17 section 7.24.2.2) |
| CString.RunsAreMaximal | lib/racccoon-libc/src/string.c:189-199 | What the tokenizer finds is exactly the maximal separator-free runs |
| CString.RunsInOrder | lib/racccoon-libc/src/string.c:189-199 | in order, a separator between one and the next |
| CString.Skip | lib/racccoon-libc/src/string.c:169-181 | strspn and strcspn: the length of the run of separators, or of others |
| CString.StrtokR | lib/racccoon-libc/src/string.c:189-199 | One call: the next run, the separator after it replaced by a NUL, the saved pointer past it; null from then on |
| CString.Tokenize | lib/racccoon-libc/src/string.c:189-199 | Repeated calls give the starts of all the runs; memory differs from before only in a NUL at the end of each |
| CString.TokenText | lib/racccoon-libc/src/string.c:189-199 | Each returned pointer then reads as its run |
| Dns.DnsSkip | lib/racccoon-libc/src/rc_socket.c:437-446 | Ends on every byte sequence; past the name, or -1 when it runs off the end |
| Dns.LabelsAt | lib/racccoon-libc/src/rc_socket.c:437-446 | Encoded labels wherever they stand decode to the labels and are skipped exactly (RFC 1035 section 3.1) |
| Dns.LabelsJoin | lib/racccoon-libc/src/rc_socket.c:460-468 | Splitting a name at its dots loses nothing but a dot at the end |
| Dns.BuildQuery | lib/racccoon-libc/src/rc_socket.c:453-469 | A query is built exactly for names with labels of 1 to 63 bytes that fit; its bytes are the header, the labels and the question, inside the 300-byte buffer |
| Dns.QueryDecodes | lib/racccoon-libc/src/rc_socket.c:458-487 | The query carries its identifier, asks for recursion and has one question and no other record; its name decodes to the labels and dns_skip from 12 lands on the type field (RFC 1035 sections 4.1.1 and 4.1.2) |
| Dns.AnswerWalk | lib/racccoon-libc/src/rc_socket.c:481-505 | On arbitrary reply bytes the walk ends, reads nothing past the reply, and finds the first address record, whose first byte is the most significant one of the address |
| Dns.TwoTries | lib/racccoon-libc/src/rc_socket.c:483-506 | An address is found exactly when one of the two replies has the query's identifier, no response code and an address, and no earlier one of that identifier ended the tries |
| Dns.RecordAt | lib/racccoon-libc/src/rc_socket.c:489-496 | A well-formed record, its name compressed or not, is read as its type and data (RFC 1035 section 4.1.4) |
| Dns.ReplyRead | lib/racccoon-libc/src/rc_socket.c:481-505 | From a well-formed reply the walk returns the address of the first A record it was written to carry |
| Quad.ParseQuad | lib/racccoon-libc/src/rc_socket.c:86-100 | Four decimal numbers up to 255 with dots between them, refused otherwise |
| Quad.TemplatePrints | lib/racccoon-libc/src/rc_socket.c:79-82 | The formatter prints such a template as the numerals with dots between them |
| Quad.QuadRoundTrip | lib/racccoon-libc/src/rc_socket.c:79-100 | What the formatter makes of fmt_ip's "%u.%u.%u.%u" parse_quad reads back |
| RcEnv.Find | lib/racccoon-libc/src/rc_env.c:37-44 | The first entry of a name, or none |
| RcEnv.VarsLookup | lib/racccoon-libc/src/rc_env.c:110-117 | A lookup in the table is a lookup in the map it stands for |
| RcEnv.Appended | lib/racccoon-libc/src/rc_env.c:145-149 | A new entry adds its name to the map and keeps names distinct |
| RcEnv.Replaced | lib/racccoon-libc/src/rc_env.c:139-142 | A replaced entry changes only its name's value |
| RcEnv.Removed | lib/racccoon-libc/src/rc_env.c:160-167 | Removing an entry removes only its name, when names are distinct |
| RcEnv.Environ.TakeOwnership | lib/racccoon-libc/src/rc_env.c:48-72 | The one-time copy has the same entries and room for more; the array the program started with is not touched |
| RcEnv.Environ.GrowForOne | lib/racccoon-libc/src/rc_env.c:74-83 | Growth keeps the entries and leaves room for one more and the null |
| RcEnv.Environ.Setenv | lib/racccoon-libc/src/rc_env.c:121-151 | Only the named key changes; overwrite 0 keeps an old value; distinct names stay distinct |
| RcEnv.Environ.Unsetenv | lib/racccoon-libc/src/rc_env.c:153-169 | Only the named key goes |
| RcEnv.Environ.Putenv | lib/racccoon-libc/src/rc_env.c:172-189 | The string's name gets its value; a string without = removes the name |
| RcEnv.Environ.Getenv | lib/racccoon-libc/src/rc_env.c:110-119 | The first entry that begins with the name and = gives the value behind it; never for the empty name; a name without = is found exactly when the map has it, with its value |
| Ticks.RecombinedExact | go/goos/racccoon_user.go:104-116 | Splitting into whole seconds and a rest and recombining gives floor(t*n/hz) exactly |
| Ticks.ClockExact | lib/racccoon-libc/src/time.c:58-65 | In 64-bit arithmetic clock() is that number if and only if it fits, for any rate up to 18 THz; -1 when there is no rate |
| Ticks.NanotimeExact | go/goos/racccoon_user.go:107-116 | nanotime() in int64 is exact for a rate and a tick count if and only if the nanoseconds fit 63 bits and the remainder times 10^9 does; 0 when there is no rate |
| Ticks.NanotimeMonotone | go/goos/racccoon_user.go:107-116 | At rates up to 9.2 GHz it never runs backwards |
| Ticks.NanotimeBackwards | go/goos/racccoon_user.go:107-116 | At every higher int64 rate it does, within the first second: a tick with a time is followed by one with a negative time |
| Ticks.ClockGettime | lib/racccoon-libc/src/time.c:89-98 | Seconds and nanoseconds together are exact if and only if the seconds fit time_t, nanoseconds below 10^9 |
| Ticks.AskedBound | lib/racccoon-libc/src/time.c:120-122 | The wrapped tick computation never asks for more than the request is worth |
| Ticks.AskedExact | lib/racccoon-libc/src/time.c:120-122 | When no product wraps it asks for exactly the whole ticks the request is worth |
| Ticks.Nanosleep | lib/racccoon-libc/src/time.c:117-138 | When interrupted the remainder is exactly the nanoseconds the ticks not yet elapsed are worth, also when the clock has wrapped, and never longer than the request |
| MkWasm.EncodeUnsigned | test/mkwasm.py:11-20 | The loop ends for every natural number with its LEB128 encoding |
| MkWasm.EncodeSigned | test/mkwasm.py:22-33 | The loop ends for every integer with its signed encoding |
| MkWasm.UlebDecodes | test/mkwasm.py:11-20 | The encoding is well formed and decodes to the number by section 5.2.2 of the WebAssembly Core Specification |
| MkWasm.SlebDecodes | test/mkwasm.py:22-33 | The same for signed numbers |
| MkWasm.UlebShortest | test/mkwasm.py:11-20 | No well-formed encoding of the same number is shorter |
| MkWasm.SlebShortest | test/mkwasm.py:22-33 | Nor of a signed one |
| MkWasm.SectionsSplit | test/mkwasm.py:38-39 | Any list of sections is recovered from its bytes by id and length, so the split is unique |
| MkWasm.BuildModule | test/mkwasm.py:50-64 | The module is the magic and the sections present, in the order of their ids |
| MkWasm.ModuleSplits | test/mkwasm.py:50-64 | Its bytes split into exactly the sections it has, ids strictly rising, each part of the module under the id the WebAssembly Core Specification gives it in section 5.5 |
| MkWasm.FuncsRead | test/mkwasm.py:54 | The function section decodes to the type indices it was made from |
| MkWasm.VecRead | test/mkwasm.py:35-36 | A vector begins with the number of its items and goes on with these |

## Left out

- Floating-point assembly and rounding (floatscan.c:274 on), hexadecimal floats, `scanexp` (the exponent it reads is a parameter of `Decfloat`), other long double formats than the 113-bit one.
- Decfloat.Decfloat: whether a literal between `HasRoom` and `MayHold` is denoted exactly is not decided: one between 2^(18498 + twos - places) and 2^(18501 + twos - places), or below 10^35 with 18370 to 18387 places not owed to fives; nor, if digits were cut, one without room that `CutMissed` does not cover, since a mark can bring words back to a number they have left (`MarkRestores`). Literals of more than 18398 digits with fewer than 36 left of the point and more than 18370 places may have words merged that matter (`MergeMoves`); of these only the agreement to 18397 digits is claimed.
- Stdio.Stream.Fputc: streams opened for update, `fseek(SEEK_CUR)`, `ftell` on "a" streams and `setvbuf` while input is buffered, where the code does not track the logical position; the branch that drops a read buffer.
- Stdio.Fopen: the "+" modes.
- Stdio.Stream.SeekTo: seeks from the start below 2^32 only; nothing is claimed of a stream after a failed one, which has already dropped its read buffer.
- Stdio.Stream.Fwrite: the overflow of size * nmemb in 64 bits.
- RcPosix.Posix.Mkstemp: how the names are made of the template and the clock.
- `freopen`, the static stdin, stdout and stderr, `tmpfile`, `perror`; failing `malloc`, which is taken to succeed.
- RcPosix.Posix.Read: network descriptors, `dup`, `poll`; the console is a sequence of bytes.
- RcPosix.Posix.Write: nothing is claimed of the bytes of transfers that pass offset 0xFFFFFFFF, the server's append marker; nor of network descriptors.
- RcPosix.Posix.WriteFile: the same limit.
- RcPosix.Posix.Pwrite: the same limit, for the file and the result; the table is restored always.
- RcPosix.Posix.Lseek: a sum beyond 63 bits, undefined in C.
- RcPosix.Posix.Open: O_EXCL when a request fails, since a failed stat reads as a missing file; O_DIRECTORY; the path is taken as already resolved.
- RcFs.ReadAt: namespace translation; a path names its file at the server directly.
- The libc `ftruncate`, whose shrinking path sends one write that the chunk limit cuts (rc_posix.c:486); truncation is stated for the Go client.
- GoFs.WriteAt: of a write of several chunks nothing is claimed when a reply is short, which the client does not notice.
- Stdlib.Swap: elements are exchanged whole where the code exchanges them byte by byte.
- Stdlib.Qsort: nothing is claimed for a comparison that is no total preorder.
- Printf.Convert: the same as `Printf.Vformat`, next.
- Printf.Vformat: floating-point conversions emit what a parameter says, whatever it is; %n takes its argument and stores nothing; widths and precisions are unbounded where the code has int; an argument missing or of another kind, undefined in C, reads as zero.
- Printf.Out.EmitFile: after a write that fell short no further one is made, where the code goes on.
- `vsprintf`, which is `vsnprintf` with the limit SIZE_MAX.
- Scanf.ScanInteger: the other conversions of `vsscanf` and its walk over the format.
- Exec.LibcStart: constructors, `main` and `exit`; pointers are positions in the blob.
- `load_image`, `join_path` and the search of `execvp`.
- RcPath.Normalize: paths that are not absolute or longer than 127 bytes, which its only caller never passes.
- CString.Memcpy: overlapping ranges with the source first, undefined in C.
- Dns.TwoTries: sockets; what comes back on each try is a parameter, of any length.
- RcEnv.Environ.Putenv: that the caller's string itself becomes the entry; entries are values. A null `environ`.
- RcEnv.Environ.Getenv: the /env store asked last.
- Ticks.ClockGettime: the signed sum with the fixed epoch, undefined in C when it overflows, is taken to wrap.
- Ticks.Nanosleep: what the system call does; whether a note came and the clock before and after are parameters.
- `name`, `functype`, `body` and the opcode helpers of the encoder; dlmalloc, ctype, wchar, locale, pthread and signal stubs, build scripts.
