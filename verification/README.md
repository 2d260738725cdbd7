# A verified model of the Sandboxie common layer

`Sandboxie/common` is the algorithmic layer of the product: big-number arithmetic for the
certificate check, the red-black tree and the firewall rules built on it, the pool allocator, the
reader/writer lock, the wildcard matchers, the hash map, the configuration file, and two small
codecs.  `SandboxiePlus/QSbieAPI` adds the mailbox through which many threads hand their requests
to one worker.  This project models that code in Dafny, one module family per source file, and
proves what it is for.

`dafny verify dfyconfig.toml` checks everything.

## How the model is built

* What the source changes in place is changed in place here: word arrays, tree nodes with parent
  links, list elements, bitmaps, the bucket table, the section list.  Every such method is proved
  against a function or an invariant, and the lemmas say what that function or invariant means.
* The lock and the mailbox are state machines.  One step is one read, one write or one interlocked
  operation of one thread, and the theorems are about every interleaving of any number of threads.
* Words are 32 bits wide and wrap; 64-bit intermediate results are reduced where the source's type
  reduces them; bit operations are bit operations, tied to arithmetic in `bits.dfy`.
* Memory, the key comparison of the hash map and the folding of cases in the configuration file
  are parameters.

## What is proved

* **Big numbers** (`bignum_*.dfy`).  Shifts, sums, products, short division, radix conversion and
  modular powers are exact on natural numbers, and the text conversion is a round trip in both
  directions.  Long division is proved as it stands in the C code.  It is right, whatever
  the memory it allocates held, exactly when no refined digit estimate overshoots (`DivideExactFor`) and
  the dividend has no more leading zero words than its shift fills (`LengthOk`); divisors below 2^64 are
  never affected by the former (`SmallDivisorExact`), and `DivideHelperRepaired` is right whatever the estimates are.
* **Red-black tree** (`rb_*.dfy`).  Insertion and deletion on linked nodes keep order, colours,
  black heights, parent links and the sentinel; lookup, first and next agree with the ordered
  sequence of nodes; the height is at most 2·log2(count + 1).
* **Lists and the pool** (`list.dfy`, `pool_*.dfy`, `pool.dfy`).  The byte-skipping search finds the lowest run
  of free cells; over every run of allocations and releases live blocks stay apart and inside the
  cells, every bit of every bitmap says what it should, every page is on the list its estimate
  asks for, and the alignment test of `Pool_Free` always picks the path that allocated the block.  Which
  requests the estimate of a page makes the search overlook is stated exactly, and that no search makes
  it overlook more.
* **Lock and mailbox** (`lock.dfy`, `mailbox.dfy`).  Mutual exclusion and freedom from deadlock for
  any number of threads, and the lock word telling who is inside if and only if at most 2^31 - 1 threads
  hold it at a time; from everywhere a way on by which a thread that calls for the lock gets it.  Every
  request executed exactly once and answered with its own status, one owner of the mailbox at a time, and
  a bounded way on by which any call comes back.
* **Firewall rules** (`netfw_*.dfy`).  Which packets a rule matches, which of two rules wins and which go
  together; what the walk over the rules decides, without reference to their order; when merging range maps
  is lossless and when the order of rules shows, both as an if-and-only-if over lookups and over decisions;
  and that a configuration decides every uncontested packet alike with and without merging.
* **Matchers** (`glob.dfy`, `wildcard.dfy`, `pattern*.dfy`).  Both matchers against one declarative
  definition of `*` and `?`.  The one of `SbieUtils.cpp` is exact; what the one of `pattern.c` finds is
  described exactly, and is every match when its last part cannot overlap itself; where no part does that
  holds behind two stars as well, for parts with no backslash in front of them.
* **Hash map** (`hash_map.dfy`).  A sequence of values per key, whatever the table does inside;
  growth is invisible; an iteration that erases, over all entries or over those of one key, meets
  every entry once.
* **Adler-32, configuration file, Base64** (`adler.dfy`, `ini_*.dfy`, `base64.dfy`).  The checksum of
  section 2.2 of RFC 1950 without overflow; a file that was built is read back, and what was loaded is
  loaded again from what is saved under an exact condition; the encoding is that of section 4 of
  RFC 4648, and decoding undoes it in a buffer of just the size the code tells.

## Findings

Places where the code does not do what it is for.  Each is a lemma with an input or a family of inputs,
beside the exact condition under which the code is right.

* `Sandboxie/common/bignum.c:717`: two 32-bit words are subtracted before widening, so that the borrow test of
  line 720 never holds and the add-back of lines 720-732 is dead; line 727 would subtract the carry it should
  add.  Input: `BigNumQuotient.OvershootExample`; condition:
  `DivideExactFor` in `BigNumQuotient.DivideRightExactly`.
* `Sandboxie/common/bignum.c:863`: the space for the quotient is reckoned from the words of the dividend, but the
  helper makes its digits from the words of the shifted dividend (line 680).  Where leading zero words make that
  shorter, the words of the quotient above the digits are never written.  No function of the file makes such a
  number, so that only numbers a caller brings are affected.  Input: `BigNumQuotient.ShortExample`; condition:
  `BigNumQuotient.DivideRightExactly`, whose `LengthOk` `BigNumQuotient.LengthOkIs` explains.
* `Sandboxie/common/base64.c:123`: the size compared with `outlen` takes off one byte for every trailing `=`, but for a
  third and further ones that byte is written; a buffer of just that size, as `Sandboxie/core/dll/net.c:1929-1943`
  allocates, is overrun.  Input: `Base64.OverrunExample`; conditions: `Base64.ExactSizeIsEnough` and
  `Base64.RoomIsEnough`.
* `Sandboxie/common/lock.c:99-113`: nothing keeps the count of readers below the exclusive bit.  Input:
  `ReaderWriterLock.CountRunsOver`; conditions: `ReaderWriterLock.RunKeepsCount` for a run and
  `ReaderWriterLock.WordTellsExactly` for all.  Exclusion is not lost by it.
* `Sandboxie/common/netfw.c:151-157`: a range that reaches over an older one and beyond is merged so that its rest
  is not found again.  Input: `FirewallMerging.LostRange`; conditions: `FirewallRanges.MergeIsExact` for lookups
  and `FirewallMerging.MergeShowsExactly` for decisions.
* `Sandboxie/common/netfw.c:409-413`: of a blocking match and an allowing one that names its protocol better each is
  better than the other, so that the order of the rules decides.  Input: `FirewallDecisions.LastWins`; condition:
  `FirewallDecisions.OrderShowsExactly`.
* `Sandboxie/common/pattern.c:453`: after an occurrence that is not at the end the search goes on behind it and
  misses one that overlaps it.  Input: `PatternMatch.OverlapMissed` and `PatternMatch.FrontMissed`; conditions:
  `PatternMatch.OneStarExact` and `PatternMatch.FrontExact`.
* `Sandboxie/common/pattern.c:431-458`: when the rest is not found behind a front it is looked for again behind a
  later occurrence of that front, so that a part behind two stars is found past a backslash.  Input:
  `PatternTight.PastBackslash`; condition: `PatternTight.TwoStarsExact`.
* `Sandboxie/common/ini.cpp:396-421`: a nameless value that contains `=` changes when it is saved and loaded again,
  a name without a value is lost, and a value of nothing but white space throws.  Inputs:
  `IniReload.SplitOnReload`, `IniReload.NameLost`, `IniReload.BlankValueThrows`; condition: `IniReload.LoadSaveLoad`.

## Model

| member | source | states |
|---|---|---|
| `BigNumBasic.CreateFromInteger` | Sandboxie/common/bignum.c:89-105 | The number of one word is that word |
| `BigNumBasic.CreateFromBigNum` | Sandboxie/common/bignum.c:113-136 | A fresh copy of the number without its leading zero words |
| `Words.StrippedUnique` | Sandboxie/common/bignum.c:113-136 | A number has exactly one form without leading zero words, so the copies are canonical |
| `BigNumBasic.Compare` | Sandboxie/common/bignum.c:168-210 | The sign of the difference of the two numbers, whatever leading zeros they carry |
| `BigNumShift.ShiftRight` | Sandboxie/common/bignum.c:218-282 | Division by a power of two, for every number of bits |
| `BigNumShift.ShiftLeft` | Sandboxie/common/bignum.c:290-352 | Multiplication by a power of two, then the given word is or-ed into the lowest word |
| `BigNumBasic.Add` | Sandboxie/common/bignum.c:363-414 | The exact sum, without leading zero words |
| `BigNumBasic.Subtract` | Sandboxie/common/bignum.c:428-479 | The exact difference, and zero when it would be negative |
| `BigNumMultiply.MultiplyRow` | Sandboxie/common/bignum.c:527-538 | One row of the schoolbook product is added exactly into a window; other words stay, and 64 bits never overflow |
| `BigNumMultiply.Multiply` | Sandboxie/common/bignum.c:490-543 | The exact product of the two numbers |
| `BigNumMultiply.DivideByInteger` | Sandboxie/common/bignum.c:551-635 | Exact quotient and remainder by one word, with the running dividend inside 64 bits |
| `KnuthDigit.EstimateBounds` | Sandboxie/common/bignum.c:692-707 | The refined estimate is the true digit or one more, below 2^32, and exact for divisors of two words |
| `KnuthDigit.ExactDigit` | Sandboxie/common/bignum.c:692-707 | The estimate is the true digit if and only if it does not overshoot the window, and else just one more |
| `BigNumDivide.EstimateDigit` | Sandboxie/common/bignum.c:692-707 | The refinement loop terminates in the quotient of three words by two, capped at one word |
| `BigNumDivide.MultiplySubtract` | Sandboxie/common/bignum.c:709-718 | The loop leaves window minus digit times divisor, modulo the power of the base that the 32-bit borrow stands for; the borrow never overflows |
| `BigNumDivide.DivideHelper` | Sandboxie/common/bignum.c:643-736 | The C loop as written makes as many digits as the dividend has words more than the divisor and leaves the words above them alone; it gives n / d and n % d if no estimate overshoots, and otherwise a quotient that is too great |
| `BigNumDivide.AddBack` | Sandboxie/common/bignum.c:720-732 | With the carry added rather than subtracted, the window plus the divisor |
| `BigNumDivide.DivideHelperRepaired` | Sandboxie/common/bignum.c:643-736 | With a signed difference and an added carry the division is exact for every input |
| `BigNumQuotient.LeadingZeros` | Sandboxie/common/bignum.c:831-833 | The shift that brings the highest bit of a word to the top |
| `BigNumQuotient.DivideLong` | Sandboxie/common/bignum.c:821-899 | For every dividend and whatever the memory for the quotient held (`LongResult`): digits in the low words, exact where the quotient has no more and no estimate overshoots, else too great; above them what the memory held |
| `BigNumQuotient.Divide` | Sandboxie/common/bignum.c:744-899 | The result of every case, with or without leading zero words (`DivideResult`): the exact quotient and remainder, or what the long division gives |
| `BigNumQuotient.LengthOkResult` | Sandboxie/common/bignum.c:744-899 | With `LengthOk`: dividend = quotient * divisor + remainder with a small remainder where no estimate overshoots, and else a quotient too great, whatever the memory held |
| `BigNumQuotient.DivideRightExactly` | Sandboxie/common/bignum.c:744-899 | Quotient and remainder are right for all that the memory can hold if and only if `LengthOk` and no estimate overshoots |
| `BigNumQuotient.HeldDecides` | Sandboxie/common/bignum.c:863-870 | Where the quotient needs no more words than the loop makes: right if and only if no estimate overshoots and the memory held zeros in the words above |
| `BigNumQuotient.OnesAreWrong` | Sandboxie/common/bignum.c:863-870 | Without `LengthOk` every result is too great when the memory held ones |
| `BigNumQuotient.ShortExample` | Sandboxie/common/bignum.c:680-690 | The words 0, 3, 0, 0 divided by 0, 1: 3 with remainder 0 if and only if words 1 and 2 of the memory were zero |
| `BigNumQuotient.LengthOkIs` | Sandboxie/common/bignum.c:840-863 | `LengthOk` says that the shifted dividend has no fewer words than the dividend |
| `BigNumQuotient.TooManyZeros` | Sandboxie/common/bignum.c:840-863 | With two or more leading zero words it has fewer |
| `BigNumQuotient.StrippedLengthOk` | Sandboxie/common/bignum.c:840-863 | Without any it has not, and the condition for an exact division does not mention the length |
| `BigNumQuotient.SmallDivisorExact` | Sandboxie/common/bignum.c:744-899 | Divisors below 2^64 always divide exactly, whatever the length of the dividend |
| `BigNumQuotient.OvershootExample` | Sandboxie/common/bignum.c:717-732 | A dividend and a divisor for which the dead add-back gives a wrong quotient |
| `BigNumModPow.ModPow` | Sandboxie/common/bignum.c:907-966 | Square and multiply gives base^exponent mod modulus when every division whose remainder is used is exact, the discarded square of the last round not among them, whatever the memory held; 1 for exponent 0 and modulus 1 |
| `BigNumModPow.SmallModulusExact` | Sandboxie/common/bignum.c:907-966 | Every division of the computation is exact for a modulus below 2^64 |
| `BigNumModPow.PowerMod` | Sandboxie/common/bignum.c:907-966 | Reducing the base does not change the power modulo m |
| `BigNumText.CreateFromString` | Sandboxie/common/bignum.c:977-1033 | The number the characters stand for in the base, whatever they are |
| `BigNumText.DigitTable` | Sandboxie/common/bignum.c:977-1119 | The digits are `0` to `9` and `A` to `Z`, read and written alike |
| `BigNumText.LowerIsUpper` | Sandboxie/common/bignum.c:999-1017 | A lower-case letter has the value of its upper-case one |
| `BigNumText.OtherIsZero` | Sandboxie/common/bignum.c:999-1017 | Any other character counts as zero |
| `BigNumText.CasesDoNotMatter` | Sandboxie/common/bignum.c:977-1033 | Texts that differ in the case of their letters only are the same number |
| `BigNumText.CountDigits` | Sandboxie/common/bignum.c:1065-1075 | The counting pass counts exactly the digits of the number |
| `BigNumText.ConvertToString` | Sandboxie/common/bignum.c:1047-1119 | The writing pass fills the counted space exactly with the text of the number |
| `BigNumText.ParseOfText` | Sandboxie/common/bignum.c:977-1119 | Reading what was written gives the number back, for bases 2 to 36 |
| `BigNumText.TextOfParsed` | Sandboxie/common/bignum.c:977-1119 | Writing what was read gives every canonical text back |
| `RbTree.Tree.constructor` | Sandboxie/common/rbtree.c:74-80 | An empty valid tree |
| `RbTree.Tree.RotateLeft` | Sandboxie/common/rbtree.c:86-107 | The complete new links of the four nodes involved, all others unchanged |
| `RbTree.Tree.RotateRight` | Sandboxie/common/rbtree.c:113-134 | The mirror image |
| `RbShape.ZipRotatedLeft` | Sandboxie/common/rbtree.c:86-107 | Whatever carries out those link changes turns the linked shape by one rotation, parent links included |
| `RbColor.RotationKeepsOrder` | Sandboxie/common/rbtree.c:86-134 | Rotations keep the order of the nodes |
| `RbColor.RedUncle` | Sandboxie/common/rbtree.c:147-157 | Recolouring moves the one possible red-red edge two levels up |
| `RbColor.BlackUncle` | Sandboxie/common/rbtree.c:158-193 | Recolouring and one rotation remove the red-red edge |
| `RbTree.Tree.InsertFixup` | Sandboxie/common/rbtree.c:136-197 | From a tree with one red-red edge to a balanced tree with the same order |
| `RbTree.Tree.FindSlot` | Sandboxie/common/rbtree.c:212-229 | The walk finds the key, or the one leaf between whose neighbours it belongs |
| `RbTree.Tree.HangIn` | Sandboxie/common/rbtree.c:231-246 | The new node is linked in red below its parent |
| `RbTree.Tree.Insert` | Sandboxie/common/rbtree.c:206-252 | Keeps the whole red-black and link invariant, refuses exactly the duplicate keys, and adds exactly the new node in key order |
| `RbTree.Tree.Search` | Sandboxie/common/rbtree.c:258-268 | The node with the key, null exactly when there is none |
| `RbTree.Tree.Exchange` | Sandboxie/common/rbtree.c:324-350 | A node and its in-order successor trade places with all their links and colours, also when the successor is a right child |
| `RbSwap.ZipSwapped` | Sandboxie/common/rbtree.c:324-350 | The exchanged links are those of the same shape with the two nodes exchanged |
| `RbTree.Tree.Unlink` | Sandboxie/common/rbtree.c:356-361 | A node with at most one subtree is bypassed in both directions |
| `RbShape.ZipTakenOut` | Sandboxie/common/rbtree.c:356-361 | The links then are those of the shape with that node taken out |
| `RbColor.TakenOutBalance` | Sandboxie/common/rbtree.c:363-372 | Which colours need a fixup after a node is taken out |
| `RbColor.RedSibling` | Sandboxie/common/rbtree.c:399-409 | A rotation makes the sibling of the short side black |
| `RbColor.BlackSibling` | Sandboxie/common/rbtree.c:411-438 | Sibling and children black: the sibling turns red and the shortage moves up, or ends at a red parent |
| `RbColor.FarRedSibling` | Sandboxie/common/rbtree.c:441-466 | A rotation below the sibling moves its red child to the far side |
| `RbColor.FarRedTurn` | Sandboxie/common/rbtree.c:468-482 | The last rotation makes up for the missing black node |
| `RbTree.Tree.DeleteFixup` | Sandboxie/common/rbtree.c:382-483 | From a tree with one side a black node short to a balanced tree with the same order |
| `RbTree.Tree.Isolate` | Sandboxie/common/rbtree.c:304-380 | Exactly the node is taken out of the order, and the tree is balanced again |
| `RbTree.Tree.Delete` | Sandboxie/common/rbtree.c:304-380 | The node of the key is taken out, all others stay in order, balance, links and sentinel hold and `count` drops by one; null exactly for a missing key |
| `RbTree.Tree.FindLessEqual` | Sandboxie/common/rbtree.c:485-515 | The node with the greatest key not above the query, and whether it is equal |
| `RbTree.Tree.First` | Sandboxie/common/rbtree.c:521-528 | The first node in order; the sentinel for an empty tree |
| `RbTree.Tree.Next` | Sandboxie/common/rbtree.c:543-560 | The node next in order; the sentinel behind the last |
| `RbTree.Tree.Enumerate` | Sandboxie/common/rbtree.c:521-560 | first and next meet all nodes once, in ascending order |
| `RbColor.HeightBound` | Sandboxie/common/rbtree.c:136-252 | A balanced tree of n nodes has height at most 2 log2(n + 1) |
| `LinkedList.List.InsertBefore` | Sandboxie/common/list.c:49-74 | The new element is in front of the old one, or at the head; links both ways, head, tail and count agree |
| `LinkedList.List.InsertAfter` | Sandboxie/common/list.c:80-105 | The new element is behind the old one, or at the tail |
| `LinkedList.List.Remove` | Sandboxie/common/list.c:111-136 | The element leaves the list, and its own links still lead to its old neighbours |
| `LinkedList.SplicedLinked` | Sandboxie/common/list.c:49-105 | Changing the neighbours and the new element alone relinks the whole list |
| `LinkedList.BypassedLinked` | Sandboxie/common/list.c:111-136 | Changing the neighbours alone relinks the whole list |
| `PoolBits.InitialBitmap` | Sandboxie/common/pool.c:511-526 | Just the bits past the last cell are set |
| `PoolBits.SkipUsed` | Sandboxie/common/pool.c:762-819 | Skipping whole bytes of used cells passes no free cell |
| `PoolBits.SkipFree` | Sandboxie/common/pool.c:762-819 | Skipping whole bytes of free cells stops at a used cell, at the end or at enough cells |
| `PoolBits.FindCells` | Sandboxie/common/pool.c:762-819 | The lowest run of enough free cells, and -1 exactly when there is none |
| `PoolBits.TakeCells` | Sandboxie/common/pool.c:913-927 | Exactly the bits of the run are set, though bytes are written whole |
| `PoolBits.ReleaseCells` | Sandboxie/common/pool.c:984-998 | Exactly the bits of the run are cleared |
| `PoolBits.MarkedCount` | Sandboxie/common/pool.c:898-927 | Marking a run changes the number of used cells by its length |
| `PoolModel.CellsFit` | Sandboxie/common/pool.c:100-101 | The number of cells for a request, rounded up once |
| `PoolModel.ChunkFits` | Sandboxie/common/pool.c:1018-1027 | The padded size of a large chunk never wraps 32 bits and its trailer lies behind the bytes of the caller |
| `PoolModel.TakeRun` | Sandboxie/common/pool.c:827-944 | Marking a free run keeps a page consistent: runs apart, bits exact, the estimate no more than the cells that no block uses |
| `PoolModel.ReleaseRun` | Sandboxie/common/pool.c:952-1001 | Clearing a run keeps a page consistent |
| `PoolModel.RoomForRun` | Sandboxie/common/pool.c:982 | The 16-bit estimate never wraps when cells are given back |
| `PoolEstimate.RoomIs` | Sandboxie/common/pool.c:844-858 | A page has room for a request when its bitmap has, unless the estimate makes the search overlook it |
| `PoolEstimate.SearchedSees` | Sandboxie/common/pool.c:860-863 | Right after a search in vain the estimate overlooks nothing |
| `PoolEstimate.SearchOverlooksNothing` | Sandboxie/common/pool.c:844-873 | A search leaves every page overlooking exactly what it overlooked before |
| `PoolEstimate.SearchedIs` | Sandboxie/common/pool.c:844-873 | Of pages searched in vain just the estimate changes, to one less than was asked for where it was not below; the others keep theirs, and the list its order |
| `PoolEstimate.IsFair` | Sandboxie/common/pool.c:827-944 | A request that gets cells leaves every other page overlooking what it overlooked before, and the page it takes from with as many uncounted cells as before, none if new |
| `PoolEstimate.FreedIsFair` | Sandboxie/common/pool.c:952-1001 | So does a release of cells, with no other page touched |
| `PoolEstimate.MissingKept` | Sandboxie/common/pool.c:885-998 | Taking and releasing cells keeps the number of unused cells that the estimate does not count |
| `PoolEstimate.OverlooksMisses` | Sandboxie/common/pool.c:860-863 | Only a page whose estimate misses cells overlooks a request |
| `PoolEstimate.TakenOverlooks` | Sandboxie/common/pool.c:895-927 | After cells are taken requests are overlooked if and only if a free run elsewhere in the page is longer than the estimate |
| `PoolEstimate.ReleasedOverlooks` | Sandboxie/common/pool.c:976-998 | After cells are released in a page that overlooked nothing requests are overlooked if and only if the free run around those cells is longer than the estimate |
| `PoolEstimate.GapExample` | Sandboxie/common/pool.c:860-998 | Three free cells, one in use, three free: after a request of four and the release of the one, just requests of five to seven cells are overlooked |
| `PoolModel.AlignedIsLarge` | Sandboxie/common/pool.c:692-719 | A live block is page-aligned if and only if it is a large chunk |
| `PoolModel.SmallInside` | Sandboxie/common/pool.c:931-932 | A small block lies in the cells of its page, behind header, bitmap and pool structure |
| `PoolModel.LargeInside` | Sandboxie/common/pool.c:1018-1027 | A large block ends before the trailer |
| `PoolModel.LiveApart` | Sandboxie/common/pool.c:651-719 | No two live blocks overlap |
| `PoolModel.InvLowered` | Sandboxie/common/pool.c:860-873 | Lowering an estimate and moving the page to the full list keeps the invariant |
| `PoolModel.InvTaken` | Sandboxie/common/pool.c:898-932 | Taking cells adds one live block and keeps the invariant |
| `PoolModel.InvReturned` | Sandboxie/common/pool.c:952-1001 | Giving cells back removes one live block, moves the page back if it crosses the threshold, and keeps the invariant |
| `PoolModel.InvChunk` | Sandboxie/common/pool.c:1009-1043 | A new large chunk keeps the invariant |
| `PoolModel.InvChunkGone` | Sandboxie/common/pool.c:1051-1085 | So does releasing one |
| `PoolAllocator.Pool.constructor` | Sandboxie/common/pool.c:494-584 | A new pool meets the invariant with one page and no live block, its estimate at the number of cells |
| `PoolAllocator.Pool.AllocPage` | Sandboxie/common/pool.c:451-475 | A page with the initial bitmap joins the usable list |
| `PoolAllocator.Pool.LowerEstimate` | Sandboxie/common/pool.c:860-873 | The exact new state after a page without room was found |
| `PoolAllocator.Pool.FindPage` | Sandboxie/common/pool.c:844-877 | The first page of the list whose estimate admits the request and whose bitmap has the room, at its lowest place; none exactly when there is no such page. A page searched in vain keeps bits and blocks, has its estimate at one less than was asked for and overlooks nothing; no page overlooks more or less than before, and the list keeps its order |
| `PoolAllocator.Pool.TakeFrom` | Sandboxie/common/pool.c:898-932 | Exactly those cells become one new live block, whose address was not live; estimate and list as the code sets them |
| `PoolAllocator.Pool.GetCells` | Sandboxie/common/pool.c:827-944 | The lowest run of cells of the first page whose estimate and bitmap have room, or of a new page, which comes only when there is no such page; other pages keep their bits and blocks and overlook just what they overlooked before |
| `PoolAllocator.Pool.FreeCells` | Sandboxie/common/pool.c:952-1001 | Exactly the cells of that block become free and are counted in the estimate of its page, which may become usable again; other pages stay as they are |
| `PoolAllocator.Pool.GetLargeChunk` | Sandboxie/common/pool.c:1009-1043 | The whole new state: one new live block in a chunk of its own |
| `PoolAllocator.Pool.FreeLargeChunk` | Sandboxie/common/pool.c:1051-1085 | The trailer found from address and size is that of the block, and only that chunk goes |
| `PoolAllocator.Pool.Alloc` | Sandboxie/common/pool.c:651-684 | Invariant kept, one new live block of the size, by cells first fit or by a chunk; null exactly for sizes of zero or too great; no page but the one taken from overlooks anything new |
| `PoolAllocator.Pool.Free` | Sandboxie/common/pool.c:692-719 | Invariant kept, exactly the block is released by the path that allocated it, its cells counted in the estimate; refused exactly for null or zero |
| `ReaderWriterLock.InvStarts` | Sandboxie/common/lock.c:67-142 | The invariant holds with the lock free and every thread outside |
| `ReaderWriterLock.InvStep` | Sandboxie/common/lock.c:67-142 | Every read and every compare-exchange of every thread, however many there are, keeps the lock word equal to the exclusive bit and the count of readers and writers modulo 2^31 |
| `ReaderWriterLock.RunKeepsInv` | Sandboxie/common/lock.c:67-142 | So it holds in every state of every run of any number of threads |
| `ReaderWriterLock.RunIsSafe` | Sandboxie/common/lock.c:67-142 | For any number of threads a writer past its second compare-exchange excludes everybody, only one is past its first, and an unused lock is `LOCK_FREE` |
| `ReaderWriterLock.RunKeepsCount` | Sandboxie/common/lock.c:67-142 | In a run of any number of threads the word tells up to a state how many readers are inside and whether a writer is, if and only if no more than 2^31 - 1 threads have held the lock at a time |
| `ReaderWriterLock.SomebodyAble` | Sandboxie/common/lock.c:67-142 | While any thread is inside, some thread can finish its call on its own |
| `ReaderWriterLock.CanFinish` | Sandboxie/common/lock.c:67-142 | No deadlock: from every reachable state a run leads to all threads outside and the lock free |
| `ReaderWriterLock.PassesThrough` | Sandboxie/common/lock.c:67-142 | Of any steps that bring a call back: the thread has had the lock in between, the way it asked for |
| `ReaderWriterLock.EveryCallGetsIn` | Sandboxie/common/lock.c:67-142 | From every state of a run a way on leads a thread that calls for the lock to having it, exclusively or shared as it asked, and all threads out again |
| `ReaderWriterLock.FirstHolder` | Sandboxie/common/lock.c:67-113 | A free lock can be had by any thread, exclusively and shared, and the word then tells so |
| `ReaderWriterLock.WriterKeepsOut` | Sandboxie/common/lock.c:67-113 | While a thread waits for exclusive access, or has it, a step lets nobody else in |
| `ReaderWriterLock.CountRunsOver` | Sandboxie/common/lock.c:99-113 | For every n from 2^31 on a run of n threads in which 2^31 readers make the word the exclusive bit alone, although no writer is inside |
| `ReaderWriterLock.WordTellsExactly` | Sandboxie/common/lock.c:67-142 | The word tells that in all runs of n threads if and only if n <= 2^31 - 1 |
| `Mailbox.StepKeepsInv` | SandboxiePlus/QSbieAPI/SbieAPI.cpp:716-797 | Every step of a caller and of the worker keeps the invariant |
| `Mailbox.RunKeepsInv` | SandboxiePlus/QSbieAPI/SbieAPI.cpp:716-797 | It holds in every state of every run with any number of callers |
| `Mailbox.RunIsSafe` | SandboxiePlus/QSbieAPI/SbieAPI.cpp:761-797 | Every returned call was executed exactly once with the status it got, no request runs twice, at most one owner, and idle exactly without owner |
| `Mailbox.MailboxIsOwned` | SandboxiePlus/QSbieAPI/SbieAPI.cpp:771-797 | Only the owner changes request and reply, and while it waits they are its own |
| `Mailbox.Progress` | SandboxiePlus/QSbieAPI/SbieAPI.cpp:716-797 | Unless idle, a step of the owner or of the worker is enabled that brings the mailbox nearer to idle |
| `Mailbox.OthersDoNotHinder` | SandboxiePlus/QSbieAPI/SbieAPI.cpp:716-797 | No other step undoes that progress |
| `Mailbox.GetsFree` | SandboxiePlus/QSbieAPI/SbieAPI.cpp:716-797 | So a bounded number of steps leads to idle, with the call of the owner returned, the mailbox empty and every other caller where it was |
| `Mailbox.WordTells` | SandboxiePlus/QSbieAPI/SbieAPI.cpp:716-797 | In every state of every run: which value of the lock word goes with which step of the owner and of the worker, and whether the request of the call is there, was executed or is answered |
| `Mailbox.EveryCallReturns` | SandboxiePlus/QSbieAPI/SbieAPI.cpp:716-797 | No call is lost: wherever a run has got, at most 27 more steps bring any call under way back, executed exactly once and with the status the worker got, and leave the mailbox empty |
| `Mailbox.FirstCall` | SandboxiePlus/QSbieAPI/SbieAPI.cpp:716-797 | And calls are made: from the start with one caller or more a run returns the first call with whatever the worker got for an answer, executed once |
| `FirewallRanges.FindIs` | Sandboxie/common/netfw.c:166-179 | The range a lookup tests is the one beginning last at or before the value |
| `FirewallRanges.MergeMaps` | Sandboxie/common/netfw.c:145-165 | Refused exactly when a new range lies inside an old one that begins no later; else both maps together |
| `FirewallRanges.MergedFind` | Sandboxie/common/netfw.c:145-179 | Which range a lookup in the merged map tests |
| `FirewallRanges.MergeKeepsLookup` | Sandboxie/common/netfw.c:145-179 | A lossless merge answers every lookup with the better of both answers |
| `FirewallRanges.LossShows` | Sandboxie/common/netfw.c:145-165 | Where a new range swallows an old one, a value exists that both lookups together match and the merged map does not |
| `FirewallRanges.MergeIsExact` | Sandboxie/common/netfw.c:145-179 | For disjoint ranges merging keeps all lookups if and only if nothing is lost |
| `FirewallRanges.ApartOrInsideMerges` | Sandboxie/common/netfw.c:145-165 | Ranges that are apart or inside one another lose nothing, and merged maps are disjoint again |
| `FirewallRules.BlockTraffic` | Sandboxie/common/netfw.c:418-441 | The decision of the best match of the walk |
| `FirewallMatching.MatchIs` | Sandboxie/common/netfw.c:167-179 | A lookup in disjoint ranges: none exactly where no range contains the number, exact or range by the range that does, global without ranges |
| `FirewallMatching.MatchesExactly` | Sandboxie/common/netfw.c:374-391 | A rule matches a packet if and only if one of its port ranges contains the port or there are none, one of its address ranges the address or there are none, and its protocol is any or that of the packet |
| `FirewallMatching.MatchHas` | Sandboxie/common/netfw.c:374-391 | And then with these levels, the one for the end point the greater of both where the rule has ports and addresses |
| `FirewallMatching.ProgramWins` | Sandboxie/common/netfw.c:394-441 | Of two rules that match, the one for the narrower set of programs decides, whichever comes first |
| `FirewallMatching.EndPointWins` | Sandboxie/common/netfw.c:401-441 | At the same level one with ports and addresses decides against one without both |
| `FirewallMatching.PortWins` | Sandboxie/common/netfw.c:401-441 | Of rules without both, some ports decide against none, and one port against a range |
| `FirewallMatching.AddressWins` | Sandboxie/common/netfw.c:401-441 | Without ports the same goes for addresses |
| `FirewallMatching.BlockWins` | Sandboxie/common/netfw.c:408-441 | Of two rules that differ in nothing else the blocking one decides |
| `FirewallMatching.ProtocolWins` | Sandboxie/common/netfw.c:412-416 | A rule that names its protocol is better than the same rule for any protocol, and not the other way round |
| `FirewallRules.BetterIs` | Sandboxie/common/netfw.c:394-416 | A match is better by specificity first, then by blocking or protocol |
| `FirewallRules.DecisionIs` | Sandboxie/common/netfw.c:394-441 | Without conflicts traffic is blocked exactly when the most specific blocking rule is as specific as any allowing one |
| `FirewallRules.OrderDoesNotMatter` | Sandboxie/common/netfw.c:418-441 | Then neither order nor repetition of rules matters |
| `FirewallRules.PairOrder` | Sandboxie/common/netfw.c:409-413 | Two rules decide alike in both orders if and only if they do not conflict in lines 409-413 |
| `FirewallRules.OneProtocol` | Sandboxie/common/netfw.c:394-416 | Rules of one protocol never conflict |
| `FirewallRules.SameMaps` | Sandboxie/common/netfw.c:127-143 | Walking two trees in step tells whether they hold the same ranges |
| `FirewallRules.RuleList.Merge` | Sandboxie/common/netfw.c:307-360 | What one rule of the list makes of the new one, and that the list changes nowhere else |
| `FirewallRules.RuleList.AddRule` | Sandboxie/common/netfw.c:302-363 | The first rule that takes the new one in is changed, else the new one is appended |
| `FirewallMatching.EntersIs` | Sandboxie/common/netfw.c:152-158 | Merging range maps is not refused if and only if no new range lies inside the old one that begins last at or before it |
| `FirewallMatching.MergesExactly` | Sandboxie/common/netfw.c:307-360 | Which rules a rule takes in, as an if-and-only-if over level, action, protocol, ports and addresses |
| `FirewallMatching.MergedHas` | Sandboxie/common/netfw.c:324-349 | The merged rule is the old one with the ranges of both where they differed |
| `FirewallMatching.JoinsFirst` | Sandboxie/common/netfw.c:302-363 | The new rule joins the first rule that takes it in, all others unchanged, and the end of the list where there is none |
| `FirewallMerging.MergedMatches` | Sandboxie/common/netfw.c:302-391 | A merged rule matches every packet as the better of the two rules it was made of, by rank |
| `FirewallMerging.AddKeepsDecision` | Sandboxie/common/netfw.c:302-441 | After adding a rule an uncontested packet is decided as by the plain list with the rule at its end, when a rule that could take the new one in loses nothing by it |
| `FirewallMerging.BuiltDecides` | Sandboxie/common/netfw.c:302-441 | A whole configuration, of any protocols, that loses nothing on the way decides every uncontested packet as its rules do unmerged and in any order: by the highest rank |
| `FirewallMerging.OneProtocolDecides` | Sandboxie/common/netfw.c:302-441 | A configuration of one protocol decides every packet so |
| `FirewallMerging.ConfiguredKeeps` | Sandboxie/common/netfw.c:307-360 | Nothing is lost on the way when the ranges of rules of one level, action, protocol and shape are apart or a later one inside an earlier one |
| `FirewallMerging.LostRange` | Sandboxie/common/netfw.c:151-157 | A port rule followed by a range rule around it: merged, the rest of the range is lost |
| `FirewallDecisions.HighestDecides` | Sandboxie/common/netfw.c:394-441 | A packet that is not contested is blocked exactly when the highest match of the blocking rules is not below that of the allowing rules |
| `FirewallDecisions.LastWins` | Sandboxie/common/netfw.c:409-413 | Where it is contested there are two rules of the list of which the one put last wins against the other |
| `FirewallDecisions.OrderShowsExactly` | Sandboxie/common/netfw.c:394-441 | For a whole list: a packet is decided alike in every order and with every repetition if and only if it is not contested |
| `FirewallDecisions.NoConflictIsEnough` | Sandboxie/common/netfw.c:394-441 | Rules that do not conflict contest no packet |
| `FirewallMerging.LostPacket` | Sandboxie/common/netfw.c:302-391 | A merge that loses a range has a packet that the new rule matched and the merged rule does not |
| `FirewallMerging.MergeShowsExactly` | Sandboxie/common/netfw.c:302-441 | Two rules that merge decide every packet alike merged and unmerged if and only if merging their range maps loses nothing |
| `Wildcard.WildCmp` | SandboxiePlus/QSbieAPI/SbieUtils.cpp:24-60 | Terminates, and true if and only if the string matches the pattern |
| `Wildcard.LastStarIsEnough` | SandboxiePlus/QSbieAPI/SbieUtils.cpp:47-52 | Going back only to the last star loses no match |
| `Wildcard.LaterReaches` | SandboxiePlus/QSbieAPI/SbieUtils.cpp:47-52 | A later try for an earlier star reaches beyond where the current try stands |
| `Glob.LiteralFirst` | SandboxiePlus/QSbieAPI/SbieUtils.cpp:28-34 | A part without stars in front matches exactly at the start |
| `Pattern.Search` | Sandboxie/common/pattern.c:646-665 | The first occurrence, question marks matching anything, none past a backslash where that is asked |
| `Pattern.CountParts` | Sandboxie/common/pattern.c:148-169 | The counting loop gives the number of parts and the room for their text |
| `Pattern.Create` | Sandboxie/common/pattern.c:124-280 | The copying loop cuts the pattern into just those parts, with the flags for stars and question marks |
| `PatternMatch.Match2` | Sandboxie/common/pattern.c:418-474 | A nonzero result is the end of a placement of the parts, the least one, and found where one exists |
| `PatternMatch.GreedyWins` | Sandboxie/common/pattern.c:431-458 | Where the parts can be placed, they can be placed with this one at its first place |
| `PatternMatch.PatternFits` | Sandboxie/common/pattern.c:124-280 | A pattern matches exactly when its parts can be placed in order, ends anchored without stars |
| `PatternMatch.MatchLiteral` | Sandboxie/common/pattern.c:381-403 | A pattern without stars matches exactly the strings of its length that agree with it |
| `PatternMatch.MatchX` | Sandboxie/common/pattern.c:369-410 | Sound for all patterns; a pattern with a star is matched exactly where `Finds` says the scans meet its parts, also of parts behind two stars; that is every match with a trailing star or where the last part does not overlap itself in the string, and always without stars; with a trailing star the least matching prefix |
| `PatternMatch.NoOverlapApart` | Sandboxie/common/pattern.c:453 | A last part that cannot overlap itself has no overlapping occurrences in any string, which is enough for completeness |
| `PatternMatch.FindsMatches` | Sandboxie/common/pattern.c:418-474 | What the scans find is a match |
| `PatternMatch.OneStarMatches` | Sandboxie/common/pattern.c:124-280 | A front, a star and a part match the strings that begin with the front and end with the part without overlap |
| `PatternMatch.OverlapMissed` | Sandboxie/common/pattern.c:453 | For every self-overlapping part a string that matches `*` and the part and is not found |
| `PatternMatch.OneStarExact` | Sandboxie/common/pattern.c:453 | A star and a part: found in exactly the matching strings if and only if the part cannot overlap itself |
| `PatternMatch.FrontMissed` | Sandboxie/common/pattern.c:418-474 | The same with a front that has a character of its own: the string missed for a self-overlapping part |
| `PatternMatch.FrontExact` | Sandboxie/common/pattern.c:418-474 | For such a front: found in exactly the matching strings if and only if the part cannot overlap itself |
| `PatternMatch.RetryFinds` | Sandboxie/common/pattern.c:431-458 | For other fronts the condition is not needed: `a*aa` finds `aaaa` by trying the front again |
| `PatternTight.FindsTightly` | Sandboxie/common/pattern.c:418-474 | For any number of parts, none of which overlaps itself in the string, the scans find them if and only if they lie there in order, none behind two stars past a backslash |
| `PatternTight.FrontTightly` | Sandboxie/common/pattern.c:418-474 | Without a star in front: if and only if the first part is at the start and the others follow any of its occurrences |
| `PatternTight.TwoStarsExact` | Sandboxie/common/pattern.c:431-458 | For a front and any other parts, all without backslash and question mark: everything found has the front at the start and the others behind it, if and only if the part behind the front is not behind two stars |
| `PatternTight.TightIsPlain` | Sandboxie/common/pattern.c:418-474 | Without parts behind two stars that is any placement |
| `PatternTight.PastBackslash` | Sandboxie/common/pattern.c:431-458 | `a**b` is found in `a\ab`, though `b` does not follow the first `a` without a backslash between |
| `HashMaps.IdxIs` | Sandboxie/common/map.c:103-108 | The masked hash is a remainder and a bucket index |
| `HashMaps.HashMap.AddNode` | Sandboxie/common/map.c:111-119 | The node goes to the front or the end of its bucket |
| `HashMaps.WithNodeValues` | Sandboxie/common/map.c:111-119 | It goes to the front or the end of the values of its key, other keys untouched |
| `HashMaps.HashMap.Resize` | Sandboxie/common/map.c:122-154 | The table grows, the values of every key and the entries as a whole stay |
| `HashMaps.ResizeKeeps` | Sandboxie/common/map.c:122-154 | Collecting all nodes and inserting them again keeps the order of the values of every key |
| `HashMaps.HashMap.Add` | Sandboxie/common/map.c:191-218 | One value more for its key at the chosen end; the buckets double exactly when there are two nodes for each and stay a power of two |
| `HashMaps.HashMap.GetMatch` | Sandboxie/common/map.c:221-233 | The first matching node of a chain |
| `HashMaps.HashMap.GetRef` | Sandboxie/common/map.c:236-255 | The first entry of the key, none exactly when it has no values |
| `HashMaps.HashMap.Get` | Sandboxie/common/map.c:258-263 | The first value of the key |
| `HashMaps.HashMap.Take` | Sandboxie/common/map.c:273-290 | The first value of the key, which is gone afterwards; other keys untouched |
| `HashMaps.FirstHit` | Sandboxie/common/map.c:265-290 | Unlinking the first hit of a chain removes the first value of its key and no other |
| `HashMaps.HashMap.Clear` | Sandboxie/common/map.c:293-308 | No buckets, no nodes, no values |
| `HashMaps.HashMap.NextFilled` | Sandboxie/common/map.c:356-364 | The next bucket with entries, all that is left lying from there on |
| `HashMaps.HashMap.NextOfKey` | Sandboxie/common/map.c:333-353 | The next entry of one key |
| `HashMaps.HashMap.Next` | Sandboxie/common/map.c:333-369 | The first of the remaining entries with its key and value, the rest one fewer; false exactly when none remains |
| `HashMaps.HashMap.Erase` | Sandboxie/common/map.c:372-383 | Of an iterator over all entries or over those of one key: the entry is unlinked and the iterator stands on what was next |
| `HashMaps.HashMap.Sweep` | Sandboxie/common/map.c:333-383 | An iteration that erases on the way meets every entry exactly once and leaves exactly the kept ones |
| `HashMaps.HashMap.KeyTurn` | Sandboxie/common/map.c:320-383 | One turn of such an iteration over the entries of one key: the entry it is at is met, kept or erased |
| `HashMaps.HitsAreValues` | Sandboxie/common/map.c:333-353 | The entries a keyed iteration meets are those of the key, with its values in order |
| `HashMaps.HashMap.SweepKey` | Sandboxie/common/map.c:320-383 | A whole iteration over the entries of one key that erases on the way meets the values the key had, each exactly once in order, and leaves exactly the kept ones; the values of every other key stay as they are |
| `Adler.ChunkFits` | Sandboxie/common/crc.c:69-93 | 5550 bytes on top of a partly reduced sum stay below 2^32 |
| `Adler.ReduceKeeps` | Sandboxie/common/crc.c:81-89 | The partial reduction keeps the remainder and brings the sums back into their bounds |
| `Adler.Chunk` | Sandboxie/common/crc.c:75-82 | After a chunk both accumulators stand for the two sums, without wrapping |
| `Adler.Adler32` | Sandboxie/common/crc.c:69-93 | The Adler-32 checksum of section 2.2 of RFC 1950, for every byte string |
| `Adler.ChecksumIs` | Sandboxie/common/crc.c:69-93 | In closed form: one more than the sum of the bytes, and the length plus each byte as often as there are bytes from it on, both modulo 65521 |
| `IniText.PrepLine` | Sandboxie/common/ini.cpp:377-394 | The trimmed first line and where the next one starts |
| `IniText.ReadEntry` | Sandboxie/common/ini.cpp:396-421 | Name and value of a line, comment or nameless text, or the exception |
| `IniReading.FirstLineSplits` | Sandboxie/common/ini.cpp:377-394 | A text is its first line and what follows the line feed |
| `IniReading.LineReads` | Sandboxie/common/ini.cpp:377-394 | A line is trimmed of blanks on both sides and of nothing else |
| `IniReading.EntryReads` | Sandboxie/common/ini.cpp:396-421 | A comment and a line without `=` are nameless; any other is cut at its first `=`, just the white space around it dropped; when it throws |
| `IniReading.HeaderReads` | Sandboxie/common/ini.cpp:440-455 | The name of a section ends at the first closing bracket or with the line |
| `IniReading.DropBlankSplits` | Sandboxie/common/ini.cpp:423-438 | Just the blank entries at the end of a section are dropped |
| `IniParse.ReadSection` | Sandboxie/common/ini.cpp:423-438 | All entries up to the next header or the end, without trailing blank lines |
| `IniParse.ReadHeader` | Sandboxie/common/ini.cpp:440-455 | The name in the brackets and the start of the next line |
| `IniParse.PrintedEntry` | Sandboxie/common/ini.cpp:396-421 | A printed entry is read as itself |
| `IniParse.PrintedSection` | Sandboxie/common/ini.cpp:423-498 | The entries of a printed section are read back, its blank last line dropped |
| `IniParse.PrintedSections` | Sandboxie/common/ini.cpp:133-142 | The reading loop takes printed sections apart again |
| `IniParse.RoundTrip` | Sandboxie/common/ini.cpp:133-498 | Parsing the text built for a well-formed list of sections gives the list back |
| `IniReload.EntryIsReadable` | Sandboxie/common/ini.cpp:396-421 | What form a name and a value that were read have |
| `IniReload.TextYield` | Sandboxie/common/ini.cpp:377-498 | A printed text yields no more characters than were printed, and fewer where an entry does not survive |
| `IniReload.LoadSaveLoad` | Sandboxie/common/ini.cpp:133-498 | Loading, saving and loading again gives what was loaded if and only if it `Reloads`: every section but the first is named, no name without a value, and no nameless value that reads as a header, as a name and a value or with less in front |
| `IniReload.SplitOnReload` | Sandboxie/common/ini.cpp:396-421 | `=a=b` is loaded as a nameless value, which saved and loaded again is the value `b` of `a` |
| `IniReload.NameLost` | Sandboxie/common/ini.cpp:483-498 | `a=` is loaded as a name without a value, which saved and loaded again is nothing |
| `IniReload.BlankValueThrows` | Sandboxie/common/ini.cpp:396-421 | `a=` with a space behind it throws |
| `IniFile.CIniFile.Load` | Sandboxie/common/ini.cpp:133-142 | The loop reads exactly the sections of the text, and up to an exception exactly those before it |
| `IniFile.CIniFile.Save` | Sandboxie/common/ini.cpp:483-498 | The rebuild loop writes exactly the text of the sections |
| `IniFile.CIniFile.GetSection` | Sandboxie/common/ini.cpp:358-374 | The section by its name, added at the end if missing |
| `IniFile.CIniFile.GetValue` | Sandboxie/common/ini.cpp:166-187 | The values of a setting joined by line feeds, or the listing of the section |
| `IniFile.CIniFile.Erase` | Sandboxie/common/ini.cpp:222-231 | All entries but those of the setting, in order, and the place where the last of those was, the end if there was none |
| `IniFile.CIniFile.Insert` | Sandboxie/common/ini.cpp:255-272 | The pieces of the value as entries at that place |
| `IniFile.CIniFile.SetValue` | Sandboxie/common/ini.cpp:189-276 | The whole new state in every case, for any length given or none: names with line breaks refused, a section replaced, or a setting: its pieces stand where the last entry of the setting stood, or at the end, all other entries stay in order, a text joined from lines is read back (nothing for a length of zero), every other setting and section as before |
| `IniFile.OthersIs` | Sandboxie/common/ini.cpp:222-231 | Leaving out the entries of a setting, entry by entry |
| `IniFile.ListedAndSet` | Sandboxie/common/ini.cpp:166-220 | The listing of a section, set as the section, gives its entries back |
| `IniFile.PiecesOfLines` | Sandboxie/common/ini.cpp:255-272 | Cutting joined pieces gives the pieces back |
| `IniFile.SetThenGet` | Sandboxie/common/ini.cpp:166-276 | After setting joined pieces the setting reads as that text, and every other setting as before |
| `IniFile.ContainsCRLF` | Sandboxie/common/ini.cpp:34-41 | Whether a character is a line break |
| `Base64.EncodedSizeIs` | Sandboxie/common/base64.c:12-23 | The size function gives the length of the encoding |
| `Base64.TableIs` | Sandboxie/common/base64.c:25 | The characters of the encoding are the table of section 4 of RFC 4648, one by one |
| `Base64.InverseIs` | Sandboxie/common/base64.c:92-97 | The inverse table finds the place of each of them, and none for any other character |
| `Base64.ValidIs` | Sandboxie/common/base64.c:99-110 | A character is valid if and only if it is one of the table or `=` |
| `Base64.PaddingCounts` | Sandboxie/common/base64.c:69-76 | The padding counts exactly the equals signs at the end |
| `Base64.GroupBytes` | Sandboxie/common/base64.c:131-141 | The bytes of any group of characters of the table, by their places there, with and without equals signs |
| `Base64.WriteGroup` | Sandboxie/common/base64.c:41-52 | One group of four characters is written, everything else stays |
| `Base64.Encode` | Sandboxie/common/base64.c:27-56 | The encoding of section 4 of RFC 4648; nothing for no bytes |
| `Base64.DecodedSize` | Sandboxie/common/base64.c:58-79 | Three bytes a group less one for each trailing equals sign, on 64 bits |
| `Base64.DecodedSizeIs` | Sandboxie/common/base64.c:58-79 | For an encoding that is the number of bytes encoded |
| `Base64.Decode` | Sandboxie/common/base64.c:112-146 | Accepts exactly whole groups of characters that each are `=` or in the table of RFC 4648, with enough room told; writes the bytes of every group and leaves all other bytes alone, and nothing where it refuses; stays inside any array that the written end of an accepted text fits |
| `Base64.WrittenBelowEnd` | Sandboxie/common/base64.c:131-141 | `WriteEnd` is one past the highest byte written |
| `Base64.EndIsWritten` | Sandboxie/common/base64.c:131-141 | The byte below `WriteEnd` is the byte the last group has for that place |
| `Base64.RoomIsEnough` | Sandboxie/common/base64.c:112-146 | Of any room an accepted text passes with: nothing is written past it if and only if the text does not end in three or more `=`, or the room makes up for those |
| `Base64.ExactSizeIsEnough` | Sandboxie/common/base64.c:58-146 | Of a room of just the size told: nothing is written past it if and only if the text does not end in three or more `=`, or in so many that the size wraps |
| `Base64.OverrunExample` | Sandboxie/common/base64.c:112-146 | `A===` is accepted with a room of zero bytes and one byte is written |
| `Base64.DecodeExactly` | Sandboxie/common/base64.c:112-146 | The same into a buffer of the size told, as the callers do, for every text that is refused or does not end in three or more `=` |
| `Base64.GroupBack` | Sandboxie/common/base64.c:131-141 | A decoded group is the bytes it was encoded from |
| `Base64.DecodedBack` | Sandboxie/common/base64.c:112-146 | What decoding an encoding writes begins with the encoded bytes |
| `Base64.RoundTrip` | Sandboxie/common/base64.c:27-146 | Encoding a non-empty byte string and decoding the text into an array of just the size the size function tells gives it back |

## Left out

- PatternMatch.MatchX: what is found is described exactly (`Finds`); that it is every match is stated as an if-and-only-if for a star and a part, for a front with a character of its own, a star and a part, and for any number of parts, behind one star or two, in a string in which none of them overlaps itself (`PatternTight.FindsTightly`). Where parts overlap themselves otherwise it depends on the string and on the backtracking (`RetryFinds`) and is stated one way only.
- BigNumModPow.ModPow: stated where every division whose remainder is used is exact; the converse does not hold, since a wrong remainder can still lead to the right power.
- BigNumQuotient.Divide: where the shifted dividend is shorter than the dividend and the quotient needs one word more than the loop makes, the digits made are not stated, only the words above them; the estimates are then beyond what the 32-bit borrow can carry.
- Base64.Decode: requires that what an accepted text writes fits the array; the code does not see to that itself, and `ExactSizeIsEnough` says when a buffer of the size told meets it. `Base64.DecodeExactly` requires just the guard named there.
- ReaderWriterLock.RunIsSafe: fairness is not claimed; a steady stream of readers or writers may keep one thread waiting (`CanFinish` says only that a way out always exists).
- BigNumText.CreateFromString: the characters are those of a string without nulls, a null being the end of the C string.
- C functions with long bodies are split into several methods here, one for each loop or case.
- `BigNum_CreateRandom`, the conversion to bytes and the word-count field: the count is the length of the array, and lengths near 2^32 words are not modelled.
- `rbtree_last` and `rbtree_previous`, which mirror `rbtree_first` and `rbtree_next`; the traversal that frees nodes.
- What `Pool_Alloc` leaves in memory is a parameter where it can show (`held` of `BigNumQuotient.Divide`).
- Tree keys are integers and the comparison function is their order.
- Allocation that fails, and the release of memory, in all files.
- The pool in kernel mode and with 32-bit pointers, eyecatchers, its locks, `Pool_Delete` and the debug variant; the page lists are sequences of page addresses there, and the links of such lists are proved in `list.dfy`.
- The tree of ranges inside a firewall rule is its ordered sequence of ranges (the tree itself is proved in `rb_tree.dfy`); ports and addresses are natural numbers; the parsing of rule texts is not part of the model.
- The path-list functions and the 16-bit fields of a compiled pattern.
- Pattern.Create: `__hex` sequences and lower-casing are left out.
- HashMaps.HashMap.SweepKey: the loop of `Sandboxie/core/drv/conf.c:2057-2064` stops early at a setting from a template; the model goes to the end. A key is a value here, while the key of a C iterator points into the node it met last, also after that was erased.
- The chains of the hash map are sequences and an iterator holds an index into one; the layout of keys and values inside a node and the hash functions themselves are not modelled.
- Reading and writing the configuration file, its encodings, and `AddValue`, `RemoveValue`, `RemoveSection` and `InitComment`.
- The end of the worker (`m_bTerminate`), which leaves waiting callers spinning, and its other duties in the loop.
- `CRC_Tzuk32` and `CRC32`; they have no property beyond their definition.
- The rest of the repository: the driver, the service, the hooks and the user interface.
