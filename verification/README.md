# Models of five stateful components

This project models five pieces of the server's C code and proves what they are for. Each module follows one
source file or a part of one; loops that update arrays, lists and buffers in place are methods with loop
invariants on heap data, tied to specification functions about which the main theorems are lemmas.

- **Number formatting** (`Arith`, `Limbs`, `Bignum`, `BignumBits`, `Digits`, `Scaling`, `Guarantees`, `Neighbours`, `Dtoa`, `Pool`,
  `Gfmt`, `Fpconv`): the exact arithmetic of `dtoa.c` on arrays of 32-bit limbs, from the limb loops and the cached
  powers of five up to the digit loops, with the theorem that a double is printed correctly rounded (roundTiesToEven,
  section 4.3.1 of IEEE 754-2008) or with the shortest digits that identify it; the block allocator; and the layout of
  `g_fmt.c`. Values are whole numbers of 10^-1100, a unit in which every double and every decimal concerned is whole.
  Configuration: `IEEE_8087`, `Pack_32`, `ULLong`; without `ROUND_BIASED`, `Honor_FLT_ROUNDS`, `SET_INEXACT`.
- **Skip list** (`SkipOrder`, `SkipLinks`, `SkipSplice`, `SkipLists`, `SkipRanges`): heap nodes with links and spans on up
  to 32 levels, a backward chain and a tail, against a sorted sequence, for every choice of the random levels.
- **WebSocket reassembly** (`WsFrames`, `WsReassembly`, `WsNetpack`, `WsRuns`): partial frames of many connections in a
  hash table, masks that go on across chunks (section 5.3 of RFC 6455), and a ring queue that expands.
- **JSON** (`JsonValues`, `JsonParsing`, `JsonRoundTrip`, `JsonBuffer`, `JsonEncode`, `JsonDecode`, `JsonTables`,
  `JsonText`, `JsonSpacing`, `JsonRuns`): the encoder on its growing buffer, the decoder with its bounded one, and the round trip.
- **Package service** (`RingQueues`, `Framing`, `PackageServices`): the state machine that cuts a stream into packages
  and pairs them with requests, over every series of messages.

`dafny verify dfyconfig.toml` checks the whole project.

## What turned out otherwise

Where the code does something its comments, tests or callers might not expect, the model follows the code:

- `increment` does not increment a zero without limbs, which `rshift` leaves: rounding up behind a shift is lost if and
  only if the shift leaves nothing (`BignumBits.ShiftAndIncrement`).
- `slGetRank` can find an object under a score it no longer has, such as [5] inserted at 1.0 and asked for at 2.0
  (`SkipLists.StaleFound`). It is right whatever the levels are if the list does not hold the object under a lower score
  (`SkipLists.SkipList.GetRank`); if it does, then for some levels it is wrong (`SkipLists.Misled`).
- `slIsInRange` accepts a range between two members, such as from 2.0 to 3.0 between 1.0 and 5.0, and then
  `slFirstInRange` and `slLastInRange` return members outside of it (`SkipRanges.Between`); this is the only way in which
  they are wrong (`SkipRanges.IsInRange`), and the loop of `_get_score_range` makes up for it.
- `lpack` writes messages that the reassembler cuts: a message comes back whole if and only if it is no longer than
  10240 bytes (`WsFrames.PackRead`).
- A chunk of no bytes that meets half a frame header brings forth an empty package and loses the header
  (`WsNetpack.Hub.FilterData`). A close frame closes a connection only if it comes first in what is read; behind another
  frame of the same chunk its two bytes are skipped.
- The header array of a connection holds 1024 bytes. Without a close frame at most 14 of them are used, but behind half a
  header a close frame does not end the loop that fills the array before the chunk is used up: the writes stay inside if
  and only if at most 1024 bytes are left from the close frame on (`WsNetpack.Hub.ReadHeader`, `WsRuns.CloseCut`).
- `report_info` never reports 0: between messages `uncomplete_sz` is -1 or positive
  (`PackageServices.Package.ReportInfo`).
- The option `decode_invalid_numbers` lets `0x10` pass, but not `inf` and `nan`: `strtoll` makes nothing of a text without
  a digit in front (`JsonParsing.InvalidNumbers`).

## Model

| member | source | states |
|---|---|---|
| Dtoa.Dtoa | 3rd/lua-cjson/dtoa.c:3648-4355 | for every finite nonzero double: in mode 2 the digits and the decimal point are its exact value rounded half-even to ndigits significant digits, with no zero at either end; in modes 0 and 1 at most 17 digits, a decimal inside the rounding interval of the double (ends included exactly in mode 0 with an even significand), none with fewer digits inside it and none with as many nearer, the even one of two that are equally near, so that reading it, rounded half-even, yields the double again; no block is leaked and the cached powers stay intact |
| Fpconv.AnyDtoa | 3rd/lua-cjson/dtoa.c:3724-3780 | mode 2 for every double: zeros, infinities and NaNs have their names and decimal points, all others correctly rounded digits |
| Fpconv.GFmt | 3rd/lua-cjson/g_fmt.c:37-109 | the text of any double in at most 21 characters and a NUL; that of a finite number denotes, in whichever layout, its exact value rounded half-even to the precision |
| Guarantees.FixedMeaning | 3rd/lua-cjson/dtoa.c:4284-4330 | a half-even rounding of the scaled numbers b and S is one of the value of the double |
| Guarantees.FreeMeaning | 3rd/lua-cjson/dtoa.c:4181-4283 | a shortest and nearest digit string for the scaled interval b, S, mlo, mhi is one for the rounding interval of the double, among all decimals of any exponent |
| Guarantees.NoneShorter | 3rd/lua-cjson/dtoa.c:4198-4200 | no decimal with fewer digits lies in the interval, whatever its exponent |
| Guarantees.NoneNearer | 3rd/lua-cjson/dtoa.c:4241-4251 | no decimal with as many digits lies in the interval nearer to the value, whatever its exponent |
| Guarantees.TieInFree | 3rd/lua-cjson/dtoa.c:4241-4255 | of two decimals of that length in the interval that are equally near the one is taken whose last digit is even (10 rather than 9) |
| Neighbours.ShortestIdentifies | 3rd/lua-cjson/dtoa.c:3662-3667 | a shortest decimal yields its double when it is read and rounded to the nearest, ties to even: every other finite double is farther, or as far with an odd significand while that of the double is even |
| Neighbours.GapsApart | 3rd/lua-cjson/dtoa.c:4181-4194 | no other double lies within twice the lower or the upper half gap, the lower being half as wide at a power of two, and an even significand has odd neighbours |
| Guarantees.HalfEvenRatio | 3rd/lua-cjson/dtoa.c:4306-4311 | rounding depends on the ratio of b and S alone, so that scaling both by powers of 2 and 5 does not matter |
| Digits.HalfEvenUnique | 3rd/lua-cjson/dtoa.c:4306-4311 | half-even rounding has one result |
| Digits.RoundDecision | 3rd/lua-cjson/dtoa.c:4306-4329 | comparing 2b with S, and the parity of the last digit on a tie, decides half-even rounding of the whole digit string |
| Digits.ExactEnd | 3rd/lua-cjson/dtoa.c:4287-4292 | a remainder of zero ends the digits with the exact value |
| Digits.TakeLower | 3rd/lua-cjson/dtoa.c:4223-4255 | the digit kept when the remainder is within mlo completes a shortest and nearest string |
| Digits.TakeUpper | 3rd/lua-cjson/dtoa.c:4241-4267 | so does the digit after it when S - b is within mhi and not farther |
| Digits.NineTie | 3rd/lua-cjson/dtoa.c:4206-4212 | when 9 is the last digit and the upper end of the interval is hit exactly, the lower end is out of reach |
| Digits.NoMiddle | 3rd/lua-cjson/dtoa.c:4201-4215 | where the upper end of the interval is hit exactly no tie is left open, as the number is a whole number of gaps |
| Digits.SeventeenDigits | 3rd/lua-cjson/dtoa.c:4196-4283 | the loop ends within 17 digits, as mlo and mhi grow tenfold against a fixed S |
| Digits.FreeContinue | 3rd/lua-cjson/dtoa.c:4272-4281 | the loop invariant of the free-format digits is kept by multiplying b, mlo and mhi by ten |
| Digits.LeadingNext | 3rd/lua-cjson/dtoa.c:4286-4295 | 10^(i-1) * b0 = D_i * S + b_i is kept by one more quorem |
| Dtoa.FixedDigits | 3rd/lua-cjson/dtoa.c:4284-4329 | the fixed-format loop with round-off: half-even rounding of b / S to so many digits, carry through nines and zeros trimmed |
| Dtoa.FixedLoop | 3rd/lua-cjson/dtoa.c:4284-4296 | the digits of b / S one by one, stopping early only when nothing is left |
| Dtoa.RoundOff | 3rd/lua-cjson/dtoa.c:4314-4322 | adding one at the end of a digit string: the number is one larger, and only a string of nines grows |
| Dtoa.TrimZeros | 3rd/lua-cjson/dtoa.c:4327-4328 | dropping trailing zeros scales the number by a power of ten |
| Dtoa.RoundLast | 3rd/lua-cjson/dtoa.c:4306-4329 | the round-off step is half-even |
| Dtoa.FreeDigits | 3rd/lua-cjson/dtoa.c:4196-4283 | the free-format loop: its digits are shortest and nearest for b, S, mlo, mhi, and there are at most 17 |
| Dtoa.ContinueFree | 3rd/lua-cjson/dtoa.c:4272-4282 | one more round of that loop keeps its invariant, with mlo and mhi one block or two |
| Dtoa.StopFree | 3rd/lua-cjson/dtoa.c:4201-4271 | the decisions on one digit: each exit has a shortest and nearest string |
| Dtoa.EmitUpper | 3rd/lua-cjson/dtoa.c:4261-4267 | rounding up: the 9 carries only at the first digit |
| Dtoa.D2b | 3rd/lua-cjson/dtoa.c:1274-1404 | the significand without its trailing zero bits, its exponent and its number of bits |
| Dtoa.Dshift | 3rd/lua-cjson/dtoa.c:2106-2117 | the shift that leaves exactly four leading zero bits in the top word of S |
| Dtoa.MakeDivisor | 3rd/lua-cjson/dtoa.c:4121-4168 | S = 5^s5 * 2^s2 with four leading zero bits, which is what quorem needs |
| Dtoa.FixedScale | 3rd/lua-cjson/dtoa.c:3844-3862 | b / S stands for value / 10^k after all shifts and powers, without mlo and mhi |
| Dtoa.FreeScale | 3rd/lua-cjson/dtoa.c:4084-4158 | b / S, mlo / S and mhi / S stand for the value and the two halves of its gaps |
| Dtoa.CheckEstimate | 3rd/lua-cjson/dtoa.c:4160-4168 | the k_check fix-up: afterwards b / S is below ten and not below one |
| Dtoa.MakeMargins | 3rd/lua-cjson/dtoa.c:4181-4194 | mlo and mhi, one block unless the double is a normalised power of two |
| Dtoa.FixedPath | 3rd/lua-cjson/dtoa.c:3797-4330 | mode 2 end to end |
| Dtoa.FreePath | 3rd/lua-cjson/dtoa.c:3797-4283 | modes 0 and 1 end to end |
| Scaling.Exponents | 3rd/lua-cjson/dtoa.c:3844-3862 | only the differences of the exponents of 2 and 5 matter for what b / S stands for |
| Scaling.StandsOrder | 3rd/lua-cjson/dtoa.c:4161-4161 | comparing b with S compares the value with a power of ten |
| Scaling.NoTie | 3rd/lua-cjson/dtoa.c:4206-4212 | where the ends of the interval are not included they are never needed for a tie |
| Scaling.ExponentExists | 3rd/lua-cjson/dtoa.c:3834-3843 | every finite nonzero double has a decimal exponent, so that the estimate asked of the caller exists |
| Scaling.FieldsOf | 3rd/lua-cjson/dtoa.c:1274-1404 | sign, biased exponent and fraction of a double are where section 3.4 of IEEE 754-2008 puts them, and its value follows from them |
| Limbs.MulAddLimbs | 3rd/lua-cjson/dtoa.c:627-651 | x * m + a over the limbs, the carry behind the last |
| Limbs.MulLimbs | 3rd/lua-cjson/dtoa.c:846-912 | the schoolbook product of two limb arrays |
| Limbs.ShiftLimbs | 3rd/lua-cjson/dtoa.c:1003-1017 | x * 2^k for less than a limb, with the bits shifted out as one limb more |
| Limbs.SubMulLimbs | 3rd/lua-cjson/dtoa.c:2149-2186 | b - S * q in place without a borrow out of the top limb whenever S * q fits |
| Limbs.SubLimbs | 3rd/lua-cjson/dtoa.c:1108-1159 | a - b for a not smaller, over arrays of different lengths |
| Limbs.CompareLimbs | 3rd/lua-cjson/dtoa.c:1055-1064 | the order of two limb arrays of one length |
| Limbs.Trim | 3rd/lua-cjson/dtoa.c:908-912 | normalising does not change the value |
| Bignum.Heap.Multadd | 3rd/lua-cjson/dtoa.c:612-667 | b * m + a in place or in the next larger block, for both forms of zero |
| Bignum.Heap.I2b | 3rd/lua-cjson/dtoa.c:789-803 | a number of one limb |
| Bignum.Heap.Mult | 3rd/lua-cjson/dtoa.c:805-913 | the product of two nonzero numbers, in a block just large enough; both operands are live or cached powers |
| Bignum.Heap.Pow5mult | 3rd/lua-cjson/dtoa.c:915-972 | b * 5^k for every k and every prior history of the cache; cached nodes are neither changed nor freed |
| Bignum.Heap.NextPower | 3rd/lua-cjson/dtoa.c:950-968 | the next node of the cache is the square of the last, 5^(4 * 2^j) for all of them |
| Bignum.BySquaringIsPower | 3rd/lua-cjson/dtoa.c:940-971 | the bits of k select squares whose product is 5^(k / 4 * 4) |
| Bignum.Heap.Lshift | 3rd/lua-cjson/dtoa.c:974-1032 | b * 2^k |
| Bignum.Heap.Cmp | 3rd/lua-cjson/dtoa.c:1034-1066 | the sign of a - b |
| Bignum.Heap.Diff | 3rd/lua-cjson/dtoa.c:1068-1160 | the absolute difference of a and b and its sign |
| Bignum.Heap.Quorem | 3rd/lua-cjson/dtoa.c:2119-2241 | for b < 10 * S and four leading zero bits in S: the quotient is returned and the remainder left in place |
| Bignum.QuotientEstimate | 3rd/lua-cjson/dtoa.c:2140-2148 | the quotient of the top words is never too large and at most one too small |
| Bignum.Hi0bits | 3rd/lua-cjson/dtoa.c:707-739 | the number of leading zero bits of a word |
| Bignum.Lo0bits | 3rd/lua-cjson/dtoa.c:741-787 | the number of trailing zero bits, and the word without them |
| Bignum.FourLeadingZeros | 3rd/lua-cjson/dtoa.c:2106-2117 | what four leading zero bits say of the value |
| BignumBits.Rshift | 3rd/lua-cjson/dtoa.c:1675-1706 | b / 2^k with the remainder dropped, leaving a zero without limbs where nothing is left |
| BignumBits.RightLimbs | 3rd/lua-cjson/dtoa.c:1690-1700 | the loop in place for a shift within limbs |
| BignumBits.Increment | 3rd/lua-cjson/dtoa.c:1640-1669 | b + 1, in a larger block when all bits are ones; and for a zero without limbs no increment at all |
| BignumBits.ShiftAndIncrement | 3rd/lua-cjson/dtoa.c:2024-2045 | a shift and then an increment give floor(b / 2^k) + 1 exactly if b is at least 2^k; otherwise the zero left has no limbs and the increment is lost |
| BignumBits.CarryLimbs | 3rd/lua-cjson/dtoa.c:1650-1657 | the carry through limbs of all ones |
| BignumBits.AnyOn | 3rd/lua-cjson/dtoa.c:1708-1736 | whether b mod 2^k is not zero |
| BignumBits.LowBitsAre | 3rd/lua-cjson/dtoa.c:1718-1736 | the limbs and the bits below k are b mod 2^k |
| BignumBits.S2b | 3rd/lua-cjson/dtoa.c:669-705 | the number that the digits denote, before and behind the decimal point |
| Pool.Allocator.Balloc | 3rd/lua-cjson/dtoa.c:544-583 | a block of the class asked for that nobody else holds, from its free list, the pool or malloc; all invariants of the allocator kept |
| Pool.Allocator.Bfree | 3rd/lua-cjson/dtoa.c:585-607 | a block given back heads the free list of its class and is not handed out any more |
| Pool.Allocator.LiveDisjoint | 3rd/lua-cjson/dtoa.c:571-575 | no two blocks handed out share memory |
| Pool.Allocator.Make | 3rd/lua-cjson/dtoa.c:563-580 | the pool pointer never passes the end of the pool |
| Pool.Allocator.RvAlloc | 3rd/lua-cjson/dtoa.c:3552-3573 | a block of the smallest class with room for i characters and a NUL behind its first int |
| Pool.Allocator.FreeDtoa | 3rd/lua-cjson/dtoa.c:3597-3611 | the class kept in the first int restores the header, whatever was written over it |
| Pool.ChainedTail | 3rd/lua-cjson/dtoa.c:561-562 | taking the head off a free list leaves a free list without it |
| Gfmt.Format | 3rd/lua-cjson/g_fmt.c:60-104 | digits and a decimal point as text: in the layout that the point and the precision ask for, and with at most 14 digits, at most 21 characters that denote exactly the number |
| Gfmt.LayoutDenotes | 3rd/lua-cjson/g_fmt.c:66-104 | each layout denotes digits * 10^(decpt - length) |
| Gfmt.LayoutIsLaidOut | 3rd/lua-cjson/g_fmt.c:66-104 | an exponent exactly for points of at most -4 or beyond the precision, in two digits unless it takes three; otherwise a zero before the point or as many digits as the point says |
| Gfmt.PutExponent | 3rd/lua-cjson/g_fmt.c:81-90 | the decimal digits of the exponent, at least two of them |
| Gfmt.ExponentDigit | 3rd/lua-cjson/g_fmt.c:82-89 | the remainder carried from digit to digit, scaled by ten each time |
| Gfmt.PutScientific | 3rd/lua-cjson/g_fmt.c:66-91 | one digit, the others behind a point, and the signed exponent |
| Gfmt.PutSmall | 3rd/lua-cjson/g_fmt.c:92-99 | zeros behind the point before the digits |
| Gfmt.PutPlain | 3rd/lua-cjson/g_fmt.c:100-109 | the point between the digits, or zeros behind them |
| SkipOrder.BeforeTotal | server/lualib-src/skiplist/skiplist.c:81-89 | the order of members is total, and equal means the same |
| SkipOrder.BeforeTransitive | server/lualib-src/skiplist/skiplist.c:81-89 | and transitive |
| SkipOrder.CompareIsDictionary | server/lualib-src/skiplist/skiplist.c:81-85 | one object is less than another exactly if it is a proper prefix of it, or its byte is less where they first differ |
| SkipOrder.SortedIsInOrder | server/lualib-src/skiplist/skiplist.c:96-108 | sorted means by score, and objects of one score in the order of a dictionary of bytes |
| SkipOrder.InsertedSorted | server/lualib-src/skiplist/skiplist.c:99-108 | insertion behind the smaller members keeps the order and adds one member |
| SkipOrder.FirstEqual | server/lualib-src/skiplist/skiplist.c:180-183 | a member is there exactly when the first one not smaller is it |
| SkipLinks.WithLevel | server/lualib-src/skiplist/skiplist.c:123-135 | what a new node changes on one level of ideal links and spans: only the last node before it |
| SkipLinks.WithSelf | server/lualib-src/skiplist/skiplist.c:124-128 | and what its own link and span are |
| SkipSplice.WithoutLevel | server/lualib-src/skiplist/skiplist.c:148-155 | what a removal changes on one level: only the last node before it, whether its link led there or over it |
| SkipSplice.LinkIn | server/lualib-src/skiplist/skiplist.c:123-135 | after both loops every link and span of every level is the ideal one of the list with the node |
| SkipSplice.LinkOut | server/lualib-src/skiplist/skiplist.c:148-155 | the same for the removal loop |
| SkipSplice.StillFound | server/lualib-src/skiplist/skiplist.c:209-219 | the predecessors found before a removal are those of the next node too |
| SkipLists.SkipList.constructor | server/lualib-src/skiplist/skiplist.c:22-37 | an empty list that satisfies the invariant |
| SkipLists.SkipList.FindBefore | server/lualib-src/skiplist/skiplist.c:96-108 | for every level the last node before the member, and its rank |
| SkipLists.SkipList.Walk | server/lualib-src/skiplist/skiplist.c:96-106 | one level of any of the searches ends at the last node before its goal, with its rank by the spans |
| SkipLists.SkipList.RaiseHeader | server/lualib-src/skiplist/skiplist.c:115-119 | a new level with only the header spans the whole list |
| SkipLists.SkipList.Insert | server/lualib-src/skiplist/skiplist.c:91-143 | keeps the whole invariant (levels, spans, backward chain, tail, tight level) and refines insertion into the sorted sequence |
| SkipLists.SkipList.MembersInOrder | server/lualib-src/skiplist/skiplist.c:91-108 | the members of every valid list stand by score, and those of one score by their bytes |
| SkipLists.TwoOfOneScore | server/lualib-src/skiplist/skiplist.c:91-143 | of two objects inserted under one score the one that comes first in a dictionary has rank 1, though it came later |
| SkipLists.SkipList.DeleteNode | server/lualib-src/skiplist/skiplist.c:146-164 | removes one node, keeps the invariant and leaves the predecessors valid although the level may shrink |
| SkipLists.SkipList.Shrink | server/lualib-src/skiplist/skiplist.c:161-162 | the level drops to that of the highest node |
| SkipLists.SkipList.Delete | server/lualib-src/skiplist/skiplist.c:167-191 | removes the first member equal to the one given, exactly if there is one |
| SkipLists.SkipList.DeleteByRank | server/lualib-src/skiplist/skiplist.c:195-221 | removes exactly the ranks from max(start, 1) to min(end, length), hands the objects over in order, and returns how many |
| SkipLists.SkipList.GetRank | server/lualib-src/skiplist/skiplist.c:227-248 | for all lists the rank of the topmost place where the search stops on the object; where the list does not hold the object under a lower score, the rank of the pair, or 0 if it is no member, whatever the levels; with unique objects it is right exactly if no node of a lower score towers over those behind it, and otherwise the rank of that node |
| SkipLists.SkipList.RankIsRight | server/lualib-src/skiplist/skiplist.c:227-248 | with unique objects the rank is right if and only if no member with the object under a lower score has a node higher than all those behind it up to the place of the pair |
| SkipLists.SkipList.NoneOlder | server/lualib-src/skiplist/skiplist.c:227-248 | without the object under a lower score the search finds the pair, or nothing if it is absent |
| SkipLists.SkipList.OlderFound | server/lualib-src/skiplist/skiplist.c:234-245 | with unique objects a pair absent because its object has a lower score gets the rank of that member or 0, as the heights decide |
| SkipLists.Misled | server/lualib-src/skiplist/skiplist.c:227-248 | for every sorted sequence that holds the object under a lower score there are levels for which the rank of the absent pair is not 0 |
| SkipLists.StaleFound | server/lualib-src/skiplist/skiplist.c:227-248 | in a list of one member its object is found under every later score, whatever its level |
| SkipLists.SkipList.StopsAtLast | server/lualib-src/skiplist/skiplist.c:234-245 | the last member not behind the pair asked for is a place where the search stops if it has the object, even under an older score |
| SkipLists.SkipList.StopsAtMember | server/lualib-src/skiplist/skiplist.c:234-245 | with unique objects the search for a member stops there and nowhere else |
| SkipLists.SkipList.GetNodeByRank | server/lualib-src/skiplist/skiplist.c:251-273 | the node of the rank if there is one |
| SkipRanges.IsInRange | server/lualib-src/skiplist/skiplist.c:277-292 | true when some member scores at least min and some at most max; this differs from a member being in the range exactly when the range falls between two members next to each other |
| SkipRanges.FirstInRange | server/lualib-src/skiplist/skiplist.c:296-313 | the first member of the range if there is one; what is returned lies in the range if and only if it is not above max, if and only if any member does |
| SkipRanges.LastInRange | server/lualib-src/skiplist/skiplist.c:317-334 | the last member of the range if there is one; what is returned lies in the range if and only if it is not below min, if and only if any member does |
| SkipRanges.Between | server/lualib-src/skiplist/skiplist.c:277-334 | two members and a range between them: the range counts as met, and the member above it is the first and the member below it the last one found |
| SkipRanges.WithinIsStretch | server/lualib-src/skiplist/lua-skiplist.c:121-153 | on a sorted sequence a closed range of scores is one stretch |
| SkipRanges.GetScoreRange | server/lualib-src/skiplist/lua-skiplist.c:121-153 | exactly the members scored in the closed range, ascending or descending |
| SkipRanges.GetRankRange | server/lualib-src/skiplist/lua-skiplist.c:94-119 | the objects from rank r1 toward rank r2 cut at the ends of the list |
| SkipRanges.DeleteByRank | server/lualib-src/skiplist/lua-skiplist.c:53-67 | takes the ranks in either order, and hands over the objects of these ranks in ascending order |
| SkipRanges.Run | server/lualib-src/skiplist/skiplist.c:91-221 | every run of insertions and deletions on a new list refines the same run on a sequence, which stands by score and bytes |
| RingQueues.Queue.Push | server/lualib-src/service_package.c:77-105 | appends, through any number of doublings |
| RingQueues.Queue.Pop | server/lualib-src/service_package.c:65-75 | takes the first element, or reports that there is none |
| RingQueues.Queue.Unroll | server/lualib-src/service_package.c:90-96 | the copy loop unrolls the ring from its head |
| RingQueues.Queue.Size | server/lualib-src/service_package.c:107-113 | the number of elements, around the end of the buffer or not |
| Framing.Chunks | server/lualib-src/service_package.c:184-226 | cutting a stream anywhere gives the same packages, if the rest goes before what follows |
| Framing.PackagesOfSent | server/lualib-src/service_package.c:292-303 | reading undoes what send_out writes |
| Framing.NetworkOrder | server/lualib-src/service_package.c:205-223 | the length of a package is 256 times its first byte plus its second; the package is there when as many bytes follow |
| Framing.SentIs | server/lualib-src/service_package.c:292-303 | a message goes out behind the two bytes of its length, the more significant one first |
| PackageServices.Package.NewMessage | server/lualib-src/service_package.c:184-226 | after any chunk the packages of the whole stream so far are there, empty ones included, and the rest is kept; the loop terminates |
| PackageServices.Package.TakeBody | server/lualib-src/service_package.c:188-200 | one half of the loop changes nothing of what the stream will have brought |
| PackageServices.Package.TakeHeader | server/lualib-src/service_package.c:205-224 | nor does the other, for a header in one piece or two |
| PackageServices.Package.Respond | server/lualib-src/service_package.c:228-240 | requests and packages are paired in order until there are no more of one of them |
| PackageServices.ServeStep | server/lualib-src/service_package.c:236-238 | the first request waiting gets the next package |
| PackageServices.RefuseStep | server/lualib-src/service_package.c:119-123 | a refused request is the first of those waiting |
| PackageServices.Package.Ask | server/lualib-src/service_package.c:151-168 | a request is refused after the close, answered with the first package waiting, or queued, and requests and packages never wait at the same time |
| PackageServices.Package.Command | server/lualib-src/service_package.c:148-182 | K sends exactly the shutdown, I exactly the report, R what Ask states, and any other kind exactly the error answer |
| PackageServices.Package.ServiceExit | server/lualib-src/service_package.c:115-127 | all requests waiting are refused in order, then CLOSED is told and the service exits; no request stays queued |
| PackageServices.Package.ReportInfo | server/lualib-src/service_package.c:129-146 | the numbers of those waiting and how much is missing of the package under way, as the stream says; while nothing is under way -1 and the size of the last package |
| PackageServices.Package.InfoIs | server/lualib-src/service_package.c:129-146 | what the fields of the reader say is what the rest of the stream says |
| PackageServices.Package.SocketMessage | server/lualib-src/service_package.c:242-277 | what each socket event does and sends: SUCC or FAIL once, refusals, CLOSED and the exit for this connection alone, and packages to those who wait |
| PackageServices.Package.TakeClose | server/lualib-src/service_package.c:250-263 | FAIL if nothing was told before, refusals in order, CLOSED, exit; and nothing for other connections |
| PackageServices.Package.Heartbeat | server/lualib-src/service_package.c:279-290 | shuts the connection down exactly if no chunk of data came since the beat before, and starts the timer again otherwise |
| PackageServices.Package.SendOut | server/lualib-src/service_package.c:292-303 | frames messages of up to 0xffff bytes and drops longer ones |
| PackageServices.Package.MessageHandler | server/lualib-src/service_package.c:305-333 | each message does to the service and adds to its log exactly what Step says, which is written in terms of requests, packages and the stream |
| PackageServices.Package.Release | server/lualib-src/service_package.c:346-359 | each buffer ever made was handed over once or is freed once |
| PackageServices.Run | server/lualib-src/service_package.c:148-333 | over every run the whole log is the script that the messages determine, event by event; in particular the i-th request answered with data got the i-th package of the stream; every request has been answered once, refused once after the close, or waits; while the connection is open as many are answered as there are requests and packages for; what was written reads back |
| WsFrames.Chunks | server/lualib-src/lua-websocketnetpack.c:239-445 | cutting a stream anywhere gives the same payloads, whatever is in it |
| WsFrames.MaskedTwice | server/lualib-src/lua-websocketnetpack.c:310-332 | unmasking undoes masking |
| WsFrames.XorBits | server/lualib-src/lua-websocketnetpack.c:328-328 | a bit of the exclusive or is set exactly if the two bits differ |
| WsFrames.PayloadBytes | server/lualib-src/lua-websocketnetpack.c:310-332 | byte k of a payload is byte k of the frame behind its header, under byte k mod 4 of the four before the payload if the mask bit is set |
| WsFrames.SenderMasks | server/lualib-src/lua-websocketnetpack.c:310-332 | the receiver takes the mask bytes in the order in which a sender by section 5.3 of RFC 6455 does |
| WsFrames.MaskedParts | server/lualib-src/lua-websocketnetpack.c:326-330 | a payload may be unmasked in parts if the phase goes on |
| WsFrames.ReadSizeStable | server/lualib-src/lua-websocketnetpack.c:240-308 | more bytes do not change a header that is all there |
| WsFrames.KindOf | server/lualib-src/lua-websocketnetpack.c:247-266 | by FIN, RSV and opcode: thrown away, a close frame, or data |
| WsFrames.HeaderIs | server/lualib-src/lua-websocketnetpack.c:268-307 | length of the header, size and mask of a data frame as section 5.2 of RFC 6455 lays them out, and when they are not all there |
| WsFrames.FrameRead | server/lualib-src/lua-websocketnetpack.c:240-308 | a frame of any opcode but 0 and 8, any form of the size, masked or not, reads back; over MAX_PACKSIZE only its first bytes do |
| WsFrames.StreamRead | server/lualib-src/lua-websocketnetpack.c:369-445 | a stream of well-formed frames carries exactly their payloads |
| WsFrames.PackRead | server/lualib-src/lua-websocketnetpack.c:794-835 | a message of lpack comes back whole exactly when it is no longer than MAX_PACKSIZE |
| WsFrames.PackedRead | server/lualib-src/lua-websocketnetpack.c:794-835 | concatenated messages of lpack read back |
| WsFrames.PackIs | server/lualib-src/lua-websocketnetpack.c:794-835 | the bytes of a message of lpack: 0x82, the shortest form of the size, most significant byte first, and the message |
| WsReassembly.FrameGrows | server/lualib-src/lua-websocketnetpack.c:548-563 | a frame under way is whole with so many bytes more, with the payload of the frame in one piece |
| WsReassembly.HeaderStep | server/lualib-src/lua-websocketnetpack.c:478-513 | reading a header byte by byte loses no byte and ends exactly behind it |
| WsReassembly.ShortFits | server/lualib-src/lua-websocketnetpack.c:240-308 | a header that is not all there has fewer than 14 bytes, far fewer than its array |
| WsReassembly.CloseInHalves | server/lualib-src/lua-websocketnetpack.c:474-513 | the first byte of a close frame waiting and n zeros behind it fit the header array exactly if n is below 1024 |
| WsReassembly.TableWithout | server/lualib-src/lua-websocketnetpack.c:133-154 | taking an entry out of its bucket leaves the table right for the others |
| WsReassembly.TableWith | server/lualib-src/lua-websocketnetpack.c:212-222 | so does putting one in |
| WsNetpack.PackQueue.Push | server/lualib-src/lua-websocketnetpack.c:190-210 | appends, through any number of expansions |
| WsNetpack.PackQueue.Expand | server/lualib-src/lua-websocketnetpack.c:174-188 | the larger ring holds the same packages in order |
| WsNetpack.PackQueue.Pop | server/lualib-src/lua-websocketnetpack.c:755-769 | takes the first package if there is one |
| WsNetpack.Hub.FindUncomplete | server/lualib-src/lua-websocketnetpack.c:132-154 | takes exactly the entry of the connection out of the table |
| WsNetpack.Hub.Save | server/lualib-src/lua-websocketnetpack.c:212-222 | the entry stands for what came in of its frame |
| WsNetpack.Hub.DecodeMask | server/lualib-src/lua-websocketnetpack.c:310-332 | each byte of the stretch becomes its exclusive or with the mask byte of its position, and nothing else changes |
| WsNetpack.Hub.PushMore | server/lualib-src/lua-websocketnetpack.c:369-445 | queues all payloads of the rest of a chunk and keeps what is left, for this connection only |
| WsNetpack.Hub.ReadHeader | server/lualib-src/lua-websocketnetpack.c:474-513 | the header loop on the array of 1024 bytes: the stream carries the same afterwards, and the writes stay inside if and only if no close frame comes first or at most 1024 bytes are left from it on |
| WsNetpack.Hub.FilterHeader | server/lualib-src/lua-websocketnetpack.c:474-547 | a chunk for half a header: closed, handed over or kept as the stream says, exactly if the header array is large enough |
| WsNetpack.Hub.FilterBody | server/lualib-src/lua-websocketnetpack.c:548-579 | a chunk for half a payload |
| WsNetpack.Hub.FilterNew | server/lualib-src/lua-websocketnetpack.c:581-663 | a chunk for a connection with nothing unfinished |
| WsNetpack.Hub.FilterData | server/lualib-src/lua-websocketnetpack.c:457-664 | for every chunk: the header array is overrun exactly if half a header waits, a close frame comes first and more than 1024 bytes are left from it on; if not, closed exactly if a close frame comes first, otherwise the payloads of what was pending and the chunk are handed over and the rest is pending, with a single package coming back at once exactly if the stream is one whole frame; an empty chunk is harmless unless half a header waits, and then yields an empty package and loses the header |
| WsRuns.Run | server/lualib-src/lua-websocketnetpack.c:457-664 | however the streams of many connections are cut and mixed, with the queue drained after each "more", every connection is handed its payloads in order |
| WsRuns.RunFrames | server/lualib-src/lua-websocketnetpack.c:457-664 | well-formed frames, masked byte for byte by their senders, come back as exactly their payloads, however cut and mixed among connections |
| WsRuns.CloseCut | server/lualib-src/lua-websocketnetpack.c:474-513 | a close frame cut behind its first byte with n zeros behind it closes the connection for n below 1024 and overruns the header array otherwise |
| JsonBuffer.StrBuf.NewSize | 3rd/lua-cjson/strbuf.c:134-159 | growth is by the smallest power of the factor that is enough, shrinking exact |
| JsonBuffer.StrBuf.Resize | 3rd/lua-cjson/strbuf.c:164-180 | keeps the contents |
| JsonBuffer.StrBuf.EnsureEmptyLength | 3rd/lua-cjson/strbuf.h:95-99 | room for so many bytes and a NUL |
| JsonBuffer.StrBuf.AppendString | 3rd/lua-cjson/strbuf.c:182-198 | appends, and does not resize where there is room |
| JsonBuffer.StrBuf.AppendCharUnsafe | 3rd/lua-cjson/strbuf.h:122-125 | needs room, and leaves room for the NUL |
| JsonBuffer.StrBuf.AppendMemUnsafe | 3rd/lua-cjson/strbuf.h:134-138 | needs room for all of it |
| JsonEncode.AppendString | 3rd/lua-cjson/lua_cjson.c:464-488 | writes the quoted string; 6n + 2 bytes are room enough for the unchecked appends |
| JsonText.EscapesAre | 3rd/lua-cjson/lua_cjson.c:154-187 | which bytes are written as an escape, and as which one, in literal bytes |
| JsonText.QuotedIsChars | 3rd/lua-cjson/lua_cjson.c:464-488 | between the quotes stand only characters of section 7 of RFC 8259: no control byte, and quotes and backslashes in escapes alone |
| JsonText.WordsAre | 3rd/lua-cjson/lua_cjson.c:690-694 | true, false and null are written so |
| JsonEncode.AppendInteger | 3rd/lua-cjson/lua_cjson.c:589-601 | writes the decimal, whose digits, sign and NUL fit the room reserved |
| JsonEncode.Encoder.AppendArray | 3rd/lua-cjson/lua_cjson.c:567-587 | writes the items between brackets, unless one is nested too deep |
| JsonEncode.Encoder.AppendObject | 3rd/lua-cjson/lua_cjson.c:637-676 | writes the members between braces |
| JsonEncode.Encoder.AppendData | 3rd/lua-cjson/lua_cjson.c:679-720 | succeeds exactly for values nested no deeper than the limit |
| JsonEncode.Encoder.AppendTable | 3rd/lua-cjson/lua_cjson.c:697-704 | the length of its keys sends a table to the right one of the two branches |
| JsonEncode.Encoder.Encode | 3rd/lua-cjson/lua_cjson.c:722-751 | the text of the value, without control bytes |
| JsonTables.ArrayLength | 3rd/lua-cjson/lua_cjson.c:494-535 | an array exactly when all keys are indices, with the largest as its length, unless it is too sparse |
| JsonTables.IndexIs | 3rd/lua-cjson/lua_cjson.c:509-511 | the keys of an array are 1, 2 and so on |
| JsonTables.Dense | 3rd/lua-cjson/lua_cjson.c:524-534 | keys 1 to n in any order are told to be an array of n items under all options |
| JsonTables.ArraysAreTold | 3rd/lua-cjson/lua_cjson.c:494-535 | a table of items has a positive length, their number, and one of string keys or none has not, under all options |
| JsonRoundTrip.StringReads | 3rd/lua-cjson/lua_cjson.c:904-962 | decoding a string undoes encoding it, for all bytes |
| JsonRoundTrip.DecimalReads | 3rd/lua-cjson/lua_cjson.c:1015-1032 | strtoll with base 0 reads back what %lld prints, as octal and hexadecimal forms never arise; beyond 64 bits it is cut to the largest or the smallest number |
| JsonRoundTrip.TextNoNul | 3rd/lua-cjson/lua_cjson.c:679-720 | the text contains no NUL byte |
| JsonRoundTrip.TextPrintable | 3rd/lua-cjson/lua_cjson.c:679-720 | no byte of the text is below 32 or equal to 127 |
| JsonRoundTrip.ValueReads | 3rd/lua-cjson/lua_cjson.c:1248-1278 | the text of a value reads as that value in front of anything that may follow it, or fails exactly when it is nested too deep |
| JsonRoundTrip.ItemsRead | 3rd/lua-cjson/lua_cjson.c:1210-1245 | the same for the items of an array |
| JsonRoundTrip.MembersRead | 3rd/lua-cjson/lua_cjson.c:1159-1207 | and for the members of an object, put into a table one after the other |
| JsonText.LastKeyWins | 3rd/lua-cjson/lua_cjson.c:1176-1194 | of members with equal keys the last one wins |
| JsonRoundTrip.DecodeText | 3rd/lua-cjson/lua_cjson.c:1280-1318 | the whole text decodes to the value and nothing is left, for every value within the depth limit, and only for these |
| JsonRoundTrip.EscapeReads | 3rd/lua-cjson/lua_cjson.c:838-894 | every Unicode scalar value written as an escape or a pair of surrogates reads as its UTF-8 form |
| JsonRoundTrip.EscapeIsScalar | 3rd/lua-cjson/lua_cjson.c:855-882 | what an escape yields is valid UTF-8 of a scalar value; lone surrogates are rejected |
| JsonRoundTrip.Utf8Reads | 3rd/lua-cjson/lua_cjson.c:794-827 | the bytes are the UTF-8 form by section 3 of RFC 3629 |
| JsonParsing.StringBody | 3rd/lua-cjson/lua_cjson.c:904-962 | a string is shorter than what it was read from |
| JsonParsing.UnicodeEscape | 3rd/lua-cjson/lua_cjson.c:838-894 | an escape yields no more bytes than it takes |
| JsonText.EscapesRead | 3rd/lua-cjson/lua_cjson.c:435-445 | which escapes of two bytes are read, and as which byte; all others are errors |
| JsonText.HexValues | 3rd/lua-cjson/lua_cjson.c:758-770 | hexadecimal digits of either case, and nothing else |
| JsonParsing.NoNumber | 3rd/lua-cjson/lua_cjson.c:1015-1032 | a number fails exactly if there is no decimal digit in front or behind a sign |
| JsonParsing.RunIs | 3rd/lua-cjson/lua_cjson.c:1015-1018 | the digits of a number are those below the base up to the first byte that is none, and read by their positions |
| JsonParsing.InvalidNumbers | 3rd/lua-cjson/lua_cjson.c:979-1010 | of the numbers that JSON does not know, the option decode_invalid_numbers lets exactly those pass that have a digit in front |
| JsonParsing.InfNanFail | 3rd/lua-cjson/lua_cjson.c:1038-1115 | inf, nan and -inf are errors under either setting |
| JsonParsing.HexIsRead | 3rd/lua-cjson/lua_cjson.c:1038-1115 | 0x10 is an error under one setting and sixteen under the other |
| JsonParsing.StrictNumbers | 3rd/lua-cjson/lua_cjson.c:979-1032 | without the option a number needs a digit behind its sign, and no digit or x behind a zero in front |
| JsonParsing.OctalIsRead | 3rd/lua-cjson/lua_cjson.c:1015-1032 | 010 is eight with the option |
| JsonParsing.NegativeHexIsRead | 3rd/lua-cjson/lua_cjson.c:1015-1032 | -0x1F is minus thirty-one with the option |
| JsonParsing.HexNeedsDigit | 3rd/lua-cjson/lua_cjson.c:1015-1032 | 0x without a digit behind it is a zero with an x left over |
| JsonDecode.Parser.AppendUnicodeEscape | 3rd/lua-cjson/lua_cjson.c:838-894 | the unchecked append stays within the buffer |
| JsonDecode.Parser.NextStringToken | 3rd/lua-cjson/lua_cjson.c:904-962 | every unchecked append stays within strbuf_new(json_len) |
| JsonDecode.Parser.NextNumberToken | 3rd/lua-cjson/lua_cjson.c:1015-1032 | an integer token, or a number with a fraction or exponent |
| JsonDecode.Parser.Next | 3rd/lua-cjson/lua_cjson.c:1038-1115 | the tokens of the text; all but the end, errors and numbers with a fraction or an exponent move the position on |
| JsonSpacing.WhiteIgnored | 3rd/lua-cjson/lua_cjson.c:1043-1050 | blanks, tabs, line feeds and carriage returns in front of a token do not matter |
| JsonSpacing.NoTokenBegins | 3rd/lua-cjson/lua_cjson.c:398-432 | any other byte that begins no token is an error |
| JsonSpacing.SameDecode | 3rd/lua-cjson/lua_cjson.c:1159-1318 | the parser looks at nothing but the tokens: two texts with the same tokens decode to the same |
| JsonSpacing.WrittenReads | 3rd/lua-cjson/lua_cjson.c:1038-1115 | tokens written one behind the other with any white space between them read as these tokens |
| JsonSpacing.SpacedDecodes | 3rd/lua-cjson/lua_cjson.c:1280-1318 | the tokens of a value with any white space between them decode to the value, or fail exactly if it is nested too deep |
| JsonDecode.Parser.ObjectContext | 3rd/lua-cjson/lua_cjson.c:1159-1207 | agrees with the grammar of members and restores the depth |
| JsonDecode.Parser.ArrayContext | 3rd/lua-cjson/lua_cjson.c:1210-1245 | agrees with the grammar of items and restores the depth |
| JsonDecode.Parser.Run | 3rd/lua-cjson/lua_cjson.c:1280-1318 | decodes the text, with the depth back at 0 and the text at its end |
| JsonText.NoWideText | 3rd/lua-cjson/lua_cjson.c:1292-1299 | a text with a NUL among its first two bytes is refused |
| JsonRuns.RoundTrip | 3rd/lua-cjson/lua_cjson.c:722-1318 | encoding and then decoding any tree of null, booleans, 64-bit integers, byte strings, arrays and string-keyed objects gives an equal tree exactly when it is nested within both limits |
| JsonRuns.DecodeSpaced | 3rd/lua-cjson/lua_cjson.c:1280-1318 | a text with white space between the tokens of a value is decoded to the value exactly if it is nested within the limit |
| JsonRuns.BlankBehindColon | 3rd/lua-cjson/lua_cjson.c:1044-1050 | an object with a blank behind its colon is decoded |

## Left out

- The floating-point shortcuts of `dtoa` and the estimate of `k`: `k` and `k_check` are parameters, with `k` the decimal exponent of the value, or one more if `k_check` is set. Modes 3 to 9 of `dtoa` are not modelled.
- `strtod`, `bigcomp`, `gethex`, `ratio`, `ulp`, `sulp` and `b2d`: hardware floating point, or comparisons whose claims do not hold.
- Dtoa.Dtoa: the digits go to an array of their own, not to a block of the allocator; `Pool` shows that such a block has room for them. Overflow of the block sizes and of the `int` fields is not modelled.
- Bignum.Heap.Balloc: hands out a fresh block where `Pool` may hand out one given back; that blocks handed out by free lists and the pool are disjoint is what `Pool` shows. An `or` of words with disjoint bits is an addition, a shift a multiplication or division by a power of two.
- Pool.Allocator.RvAlloc: memory is not laid out byte by byte; the int in front of the string is a field of its own.
- Gfmt.Format: precisions above 14, which the configuration does not allow.
- SkipLists.SkipList.Insert: the level is a parameter for `slRandomLevel`; `slFree`, `slDump` and callbacks that change the list while it is deleted from are not modelled. Ranks, spans and lengths do not wrap; scores are real numbers, without infinities and NaN.
- SkipLists.SkipList.FindBefore: stands for the searches of `slInsert` and of `slDelete`, which does without the ranks.
- SkipLists.SkipList.Walk: one loop stands for the six of the source, which differ in the condition alone and of which those of `slDelete`, `slFirstInRange` and `slLastInRange` do without the rank.
- WsNetpack.Hub.FilterData: what happens behind a write outside of the header array (`Overrun`), the handshake mode, and 64-bit sizes that are negative as an `int` once truncated (`Sane` excludes these). The chains of the hash table are sequences, not `next` pointers, and buffers of packages are sequences.
- WsRuns.Run: streams with close frames and empty chunks, for which chunking does matter.
- JsonEncode.Encoder.AppendObject: keys that are numbers, holes in sparse arrays, doubles, and Lua stack limits. The order in which a table is traversed is that of the members.
- JsonTables.ArrayLength: keys above 2^31 - 1, whose conversion to an `int` is undefined, and products with the ratio that overflow one.
- JsonDecode.Parser.NextNumberToken: numbers with a fraction or an exponent are recognised but not converted. The positions and words of error messages are not modelled, nor are integer overflows of buffer sizes.
- JsonBuffer.StrBuf.NewSize: increments that are positive (linear growth rounds up the old size, not the one requested).
- PackageServices.Package.Command: a text message of no bytes, whose first byte the original reads all the same. The log messages and the socket itself are not modelled; what is sent to skynet is a log of events.
- The Lua bindings, `lua-hash.c`, AES, SRP, curl, loggers and the clients: input and output, foreign calls or easy members. The copy of lua-cjson under `server/lualib-src` differs in details only.
