# Verified cores of a PIVX-derived node

This project models the parts of the node whose correctness rests on an invariant or on exact
arithmetic, and proves what they are relied on for. Sources are cited by path and line of the
repository.

- **Address manager** (`AddrMan*.dfy`). Seven structures describe one set of addresses. The
  invariant is stated entry by entry and cell by cell; the operations break it in a recorded way
  (`Consistent(s, loose, missing)`) and restore it. `AddrManState`, `AddrManTables`,
  `AddrManGood` and `AddrManRuns` are the specification and its lemmas, `AddrMan` the class with the
  fields changed in place, `AddrManDisk`, `AddrManRoundTrip`, `AddrManFormat` and `AddrManStore` the file,
  `AddrManCheck` the manager's own consistency check and what exactly it decides.
- **Coins caches** (`CoinsViews`, `CoinsRuns`, `CoinsCache`). A stack of write-back caches over
  a store refines plain maps; `CoinsCache` holds the classes.
- **Coins on disk** (`VarInt`, `Compressor`, `CoinsCodec`, `CoinsStream`,
  `CoinsPrefix`, `CoinsExamples`). Bytes written and read.
- **Check queue** (`CheckQueueSteps`, `CheckQueueRuns`, `CheckQueue`). Threads as a state machine
  over the critical sections of `Loop`; the class holds the critical sections themselves.
- **Coin selection** (`Denominations`, `DenominationChange`, `DenominationResult`,
  `DenominationSelect`). Greedy choices over denominations that divide each other, what they amount
  to, and the loops that make them.
- **Exact arithmetic** (`ArithBits`, `ArithLimbs`, `ArithSteps`, `ArithUint`, `ArithCompact`).
  Numbers in limbs, changed in place, and the compact target format.
- **Base58** (`Radix`, `Base58`). Digits in two bases, buffer sizes, texts with and without checksum.
- **Active chain** (`Chain`) and **stake modifier** (`Kernel`).

Each method with loops or fields is proved against a specification function or predicate, and the
lemmas about that specification say what it is for. Hash functions are fields of type `->`, so
every statement holds for any choice of them.

Where the code differs from what one would expect, the model follows the code, says exactly when
the expectation holds, and has an input for which it does not:

| what happens | when exactly | an input |
|---|---|---|
| Add_ returns true for an address that it has not kept | `AddrManRuns.AddEffect` | `AddrManRuns.AddNotKept` |
| a success recorded with an unusable time leaves an entry that the manager's own check rejects | `AddrManGood.GoodTimes` | `AddrManRuns.GoodAtZero` |
| so does an attempt | `AddrManRuns.AttemptTimes` | `AddrManRuns.AttemptBeforeZero` |
| a file in which an address occurs twice is accepted and leaves the indexes inconsistent | `AddrManDisk.RestoreExact` | `AddrManDisk.TwiceForgotten` |
| a cache that was never told its best block clears its parent's | `CoinsRuns.FlushBest` | `CoinsRuns.FlushBestLost` |
| a number squared in place becomes zero | `ArithUint.BaseUint.MultiplyBy` | `ArithUint.OneSquared` |
| a proof-of-work block is selected although a proof-of-stake block is in time, which is said to be favoured always (src/kernel.cpp:117-119) | `Kernel.StakeSelected` | `Kernel.WorkSelected` |
| negative versions and heights of coins are not read back | `CoinsCodec.CoinsRoundTrip` | `CoinsCodec.VersionLost` |

Three texts of the repository are at odds with its code: `VarInt.Examples` gives the bytes for 16511
and 65535 that the code writes (src/serialize.h:418-419 has others), `Compressor.AmountExamples` the
code of 128000000 coins (src/test/compress_tests.cpp:46 has that of 21000000), and `CoinsExamples` the
header codes of the examples in src/coins.h:42-73 with the bit for coinstakes.

Verify with `dafny verify dfyconfig.toml` (Dafny 4.11).

## Model

| member | source | states |
|---|---|---|
| AddrManState.SwapRandomKeeps | src/addrman.cpp:103-121 | SwapRandom exchanges two places of the random order, changes nothing else but the two positions recorded, and keeps every part of the consistency invariant, also in the middle of an operation |
| AddrManState.DeleteKeeps | src/addrman.cpp:123-135 | Delete of an unreferenced new entry removes exactly it from the three indexes; the last of the random order moves into its place, nothing else changes, and both counters stay consistent |
| AddrManState.CellsAreHashes | src/addrman.cpp:15-34 | the tried cell of an address and the new cell for it and a source: bucket and position are the keyed hashes modulo 256 or 1024, and 64 |
| AddrManState.EntryPlaces | src/addrman.cpp:15-34 | in a consistent manager a tried entry is in the one cell of 256 buckets of 64 positions that its hashes choose, and a new one in one to eight cells of 1024 buckets, each at the position its hash chooses |
| AddrManTables.ClearNewKeeps | src/addrman.cpp:137-150 | ClearNew frees its cell and nothing else, deletes the occupant exactly when it held its last reference, changes no other entry but its random position, and keeps consistency |
| AddrManTables.StripKeeps | src/addrman.cpp:154-166 | taking an entry out of all its new buckets frees exactly its cells and leaves it without a reference and uncounted; nothing else changes |
| AddrManTables.UnseatKeeps | src/addrman.cpp:173-179 | taking the occupant out of a tried cell leaves it as the one new entry without a reference, consistent otherwise |
| AddrManTables.SeatKeeps | src/addrman.cpp:193-197 | seating the stripped entry in its free tried cell restores full consistency |
| AddrManGood.EvictEffect | src/addrman.cpp:170-192 | evicting a tried entry leaves its cell free, moves it to its new cell, and takes one reference from the former occupant of that cell, which is lost exactly if that was its last |
| AddrManGood.MakeTriedEffect | src/addrman.cpp:152-198 | MakeTried ends consistent with the entry in its own tried cell and in no new cell; the occupant of that cell goes to the cell of the new bucket for the source it was learned from, whose occupant has one reference less and is deleted exactly if that was its last; nothing else changes |
| AddrManGood.GoodMovesToTried | src/addrman.cpp:200-247 | Good_ on a stored address with the same port leaves it tried, in its own cell, with fresh statistics; the tables change as in MakeTriedEffect, cell by cell, or not at all if it was tried before; all entries not touched stay the same |
| AddrManGood.GoodIgnores | src/addrman.cpp:204-213 | Good_ changes nothing for an address that is not stored, or stored with another port |
| AddrManGood.GoodTimes | src/addrman.cpp:200-247 | Good_ keeps the whole invariant if and only if the address is unknown or the time given is positive |
| AddrManRuns.AddEffect | src/addrman.cpp:249-315 | Add_ returns true exactly for unknown routable addresses, which need not mean the address is kept: it is kept, with the announced time less the penalty and one reference, exactly when its cell is free or its occupant is terrible or has another reference; a known one gets the union of services and, exactly if newer by the interval, the announced time less the penalty, and one more reference exactly when seen later than recorded, not tried, with n < 8 references, drawn with chance one in 2^n, and its cell free or its occupant terrible; the occupant loses one reference, and everything else stays as it was |
| AddrManRuns.AttemptTimes | src/addrman.cpp:317-334 | Attempt_ records the time, counts one more attempt and changes nothing else, and nothing at all for an unknown address; it keeps the invariant if and only if the address is unknown or the time is not negative |
| AddrManRuns.ConnectedKeepsInv | src/addrman.cpp:474-492 | Connected_ changes at most the recorded time, and that exactly if it is more than twenty minutes behind; it keeps the invariant |
| AddrManRuns.GetAddrSelects | src/addrman.cpp:453-472 | GetAddr_ only reorders the random order; what it returns is bounded by 23 percent and 2500, holds no address twice, only usable ones, and all usable ones unless the bound stops it |
| AddrManRuns.AnyOrder | src/addrman.cpp:453-472 | the draws decide the order: for every order of the entries there are draws for which GetAddr_ lists the usable ones in that order, as far as its bound goes |
| AddrManRuns.ThreeAttempts | src/addrman.cpp:36-54 | three attempts without any success make an entry terrible, a minute after the last |
| AddrManRuns.GoodRedeems | src/addrman.cpp:36-54 | after a success, whatever failed before, an entry is terrible exactly when its recorded time is zero, ten minutes ahead or thirty days back, and the success is not of the last minute |
| AddrManRuns.RunConsistent | src/addrman.cpp:91-315 | every run of public operations from an empty manager is consistent, and both counters add up to the size of the random order and of mapInfo |
| AddrManRuns.RunInv | src/addrman.cpp:376-450 | every run whose times are usable satisfies all that the manager's own check demands |
| AddrManRuns.FirstAdded | src/addrman.cpp:249-315 | one Add_ to an empty manager whose hashes all collide, on which the next three rest |
| AddrManRuns.AddNotKept | src/addrman.cpp:296-312 | there, Add_ returns true for a second address and does not keep it |
| AddrManRuns.GoodAtZero | src/addrman.cpp:216 | there, a success recorded with time 0 breaks the invariant |
| AddrManRuns.AttemptBeforeZero | src/addrman.cpp:331-333 | there, an attempt recorded with time -1 breaks it |
| AddrMan.CAddrMan.Find | src/addrman.cpp:78-89 | finds an entry exactly when the address is mapped to one |
| AddrMan.CAddrMan.SwapRandom | src/addrman.cpp:103-121 | the method has the effect of the specification, and both positions hold their entries |
| AddrMan.CAddrMan.Delete | src/addrman.cpp:123-135 | the method has exactly the effect that DeleteKeeps is about |
| AddrMan.CAddrMan.ClearNew | src/addrman.cpp:137-150 | the method has exactly the effect that ClearNewKeeps is about; its occupant is always known |
| AddrMan.CAddrMan.MakeTried | src/addrman.cpp:152-198 | the method has exactly the effect that MakeTriedEffect is about, and its three assertions hold |
| AddrMan.CAddrMan.Good_ | src/addrman.cpp:200-247 | the method has exactly the effect that GoodMovesToTried is about; a new entry is always found in some bucket, so the early return for one that is not is never taken |
| AddrMan.CAddrMan.Add_ | src/addrman.cpp:249-315 | the method has exactly the effect that AddEffect is about |
| AddrMan.CAddrMan.Attempt_ | src/addrman.cpp:317-334 | the method has exactly the effect that AttemptTimes is about |
| AddrMan.CAddrMan.GetAddr_ | src/addrman.cpp:453-472 | the method has exactly the effect that GetAddrSelects is about |
| AddrMan.CAddrMan.Clear | src/addrman.h:430-448 | makes a manager empty but for its entries and addresses, which stay |
| AddrManCheck.Check_ | src/addrman.cpp:376-450 | table loops and counting included, returns zero if and only if there is a key and the state passes, once a missing address of entry 0 has been added, which is then the only change; in every state of the invariant it returns zero and changes nothing |
| AddrManCheck.InvIsPasses | src/addrman.cpp:376-450 | what passes lacks of the invariant: addresses whose entry is gone, and ids beyond the next one |
| AddrManDisk.RestoreExact | src/addrman.h:328-423 | for any file, whatever its version and bucket count: the invariant holds after reading if and only if each entry read that is tried or has got a reference is the only one read with its address and has usable times, as in every file whose addresses differ (RestoreKeeps); everything but addresses and times fits together in any case |
| AddrManDisk.TwiceForgotten | src/addrman.h:407-416 | a file that holds one new entry twice, for which it does not: pruning the second forgets the address of the first |
| AddrManRoundTrip.CountsWritten | src/addrman.h:291-310 | as many new and tried entries are written as the counters say, so neither assertion in Serialize can fail |
| AddrManRoundTrip.FileSound | src/addrman.h:278-325 | what a consistent manager writes has different addresses, usable times, and is a file whose positions can be used |
| AddrManRoundTrip.RoundTrip | src/addrman.h:278-423 | reading what a consistent manager wrote gives the same entries, new and tried tables and counters up to a one-to-one renaming of ids; nothing is lost but the time of the last try and the random order, and the invariant holds again |
| AddrManFormat.BucketCountExactly | src/addrman.h:289-346 | in every version but 0 a file says n + 2^30 exactly if it has n buckets; positions are used exactly if the version is 1 and the file says 2^30 + 1024 |
| AddrManFormat.FileLaid | src/addrman.h:278-325 | what stands in the file: version 1, the key, 2^30 + 1024, each new and each tried entry behind those with smaller ids, and for each of 1024 buckets the places of its occupants among the new entries, from the lowest position up |
| AddrManFormat.RestoreHolds | src/addrman.h:328-423 | for any file: of tried entries with one cell the first is kept; references are those the file gives where cells are free and entries have fewer than eight, or, where positions cannot be used, each new entry is in the cell its source asks for if it asks first; new entries are kept exactly if they have a reference |
| AddrManStore.Serialize | src/addrman.h:278-325 | the writing loops produce the file that FileLaid describes and the round trip is about |
| AddrManStore.Unserialize | src/addrman.h:328-423 | for any file, the reading loops, the counting of lost entries and the pruning leave the manager in the state that RestoreHolds, RestoreExact and RoundTrip are about, and no assertion fails on the way |
| CoinsViews.FetchKeeps | src/coins.cpp:86-112 | reading adds, to each cache passed on the way down, one entry that is not DIRTY with the coins found, changes nothing that any layer shows, and keeps FRESH truthful |
| CoinsViews.BeginModifyKeeps | src/coins.cpp:114-131 | an open modification is DIRTY, and FRESH exactly when the layers below show nothing |
| CoinsViews.ModifyKeeps | src/coins.cpp:114-131 | a completed modification changes what is shown for its own id, to the cleaned coins, and nothing else at any layer |
| CoinsViews.ModifyLeaves | src/coins.cpp:273-281 | it leaves a DIRTY entry with the cleaned coins, FRESH exactly if nothing is shown below, and none if they are pruned and nothing is shown below; the other entries stay |
| CoinsViews.FlushKeeps | src/coins.cpp:165-207 | Flush never trips the assertion in BatchWrite, makes the parent show exactly what the child showed, and keeps FRESH and DIRTY truthful at every layer |
| CoinsViews.FlushWrites | src/coins.cpp:165-207 | what a flush leaves in the parent, id by id: entries not DIRTY are ignored, pruned coins erase what is FRESH or missing, others are stored DIRTY, and FRESH if the parent had none or a FRESH one; the child is empty |
| CoinsRuns.HaveMeansLive | src/coins.cpp:143-151 | HaveCoins, which only asks for outputs, agrees with not pruned where coins are clean |
| CoinsRuns.StepRefines | src/coins.cpp:86-207 | each operation on a stack of caches does to what every layer shows what the same operation does to plain maps |
| CoinsRuns.RunRefines | src/coins.cpp:86-207 | in every run of reads, modifications, flushes and layers put on or taken off, every answer is that of a stack of plain maps in which pruned means absent |
| CoinsRuns.RunFromStore | src/coins.cpp:79-207 | the same from an empty cache over a store of cleaned, unpruned coins |
| CoinsRuns.AskBestKeeps | src/coins.cpp:153-158 | GetBestBlock fills in the best block in every cache down to the first that has one, and changes neither what is shown nor its own answer |
| CoinsRuns.FlushBest | src/coins.cpp:202-207 | Flush hands its best block on if and only if the child has one, or writes to the store, or the parent has none of its own, or has the one below it |
| CoinsRuns.FlushBestLost | src/coins.cpp:202-207 | a concrete stack in which Flush overwrites the parent's best block with zero |
| CoinsCache.CCoinsViewCache.FetchCoins | src/coins.cpp:86-102 | the method on linked cache objects has exactly the effect that FetchKeeps is about |
| CoinsCache.CCoinsViewCache.HaveCoins | src/coins.cpp:143-151 | the method answers and changes the stack as the specification says |
| CoinsCache.CCoinsViewCache.ModifyCoins | src/coins.cpp:114-131 | opens a modification; asserts that none is open |
| CoinsCache.CCoinsViewCache.ReleaseModifier | src/coins.cpp:273-281 | closes it: cleaned, and erased if FRESH and pruned |
| CoinsCache.CCoinsViewCache.BatchWrite | src/coins.cpp:165-200 | merges a child's entries, one by one, into what the specification says, its assertion included |
| CoinsCache.CCoinsViewCache.Flush | src/coins.cpp:202-207 | the method has exactly the effect that FlushKeeps is about |
| CheckQueueRuns.NextKeeps | src/checkqueue.h:69-158 | every step of every thread keeps: nTodo counts queued and unaccounted checks, nTotal and nIdle count threads in the loop and waiting, and the verdict so far is that of the checks accounted for |
| CheckQueueRuns.WaitReturnsConjunction | src/checkqueue.h:69-143 | in every interleaving of one master and any number of workers, every Wait returned true exactly when all checks added since the Wait before are true |
| CheckQueueRuns.WaitLeavesIdle | src/checkqueue.h:91-100 | the step in which Wait returns leaves the queue idle and returns the conjunction of what was added |
| CheckQueueRuns.IdleBetweenWaits | src/checkqueue.h:164-190 | whenever nothing has been added since Wait returned, IsIdle holds, so the control object's assertion cannot fail |
| CheckQueueRuns.BlockedMasterHasWorker | src/checkqueue.h:80-104 | a master blocked without notification always has a worker that holds work |
| CheckQueueRuns.WaitIsNotStuck | src/checkqueue.h:80-104 | while the master is in Wait, some thread can take a step other than a spurious wakeup |
| CheckQueueRuns.ProductiveStepsRunOut | src/checkqueue.h:76-126 | every such step uses up a finite supply |
| CheckQueueRuns.StuckOnlyOutside | src/checkqueue.h:76-126 | any schedule of such steps that cannot go on has brought the master out of Wait |
| CheckQueueSteps.ProceedExactly | src/checkqueue.h:91-120 | what a thread leaves the critical section with: the verdict, waiting, or the largest batch of at most nBatchSize checks that goes into the queue for every thread, idle ones counted twice, and at least one, taken from the end, the last one first |
| CheckQueueRuns.AddWakes | src/checkqueue.h:146-158 | Add notifies no worker, one, or every one that is blocked, for no check, one, or more |
| CheckQueueRuns.LastWorkerWakesMaster | src/checkqueue.h:78-89 | the worker that accounts for the last checks finds the queue empty and notifies a blocked master |
| CheckQueue.CCheckQueue.Account | src/checkqueue.h:78-89 | a batch is subtracted from nTodo and its verdict added, a thread coming in is counted, and the master is notified exactly when a worker brings nTodo to zero |
| CheckQueue.CCheckQueue.TakeWork | src/checkqueue.h:91-120 | from the test of the queue to the release of the mutex: returns, waits or takes the batch that ProceedExactly describes |
| CheckQueue.CCheckQueue.Add | src/checkqueue.h:146-158 | appends the checks, counts them and notifies no, one or all workers |
| CheckQueue.ExecuteBatch | src/checkqueue.h:121-125 | a batch's verdict is the conjunction of its checks with the verdict before, and nothing is called after a failure |
| Denominations.AmountTable | src/libzerocoin/Denominations.h:27 | the eight denominations, and each is five times or twice the one below |
| Denominations.SpendComplete | src/denomination_functions.cpp:40-62 | if any coins held are worth exactly the target, the greedily chosen ones are, too, and no choice that is takes fewer coins |
| DenominationChange.ChangeLeaves | src/denomination_functions.cpp:67-87 | change leaves less than the smallest coin open |
| DenominationChange.ChangeFewest | src/denomination_functions.cpp:67-87 | no coins worth the change are fewer |
| DenominationChange.OverlapShrinksChange | src/denomination_functions.cpp:271-283 | removing coins that would come back takes exactly those out of the change |
| DenominationChange.AlternativeIsExact | src/denomination_functions.cpp:285-287 | meeting the reduced amount anew from all coins held always succeeds exactly, with the fewest coins |
| DenominationChange.StuckMeansExact | src/denomination_functions.cpp:234-260 | if filling up from below finds no coin, the coins run out or taking them from the top meets the target exactly |
| DenominationChange.CalculateSound | src/denomination_functions.cpp:310-399 | in every branch the coins used are within those held and the count returned is that of the change they need; asked to minimize, it is never more than without |
| DenominationChange.CalculateCovers | src/denomination_functions.cpp:310-399 | the coins used cover the target if and only if the coins held do |
| DenominationChange.CountMeansCovered | src/denomination_functions.cpp:310-399 | the count is not zero if and only if the coins used exceed the target by at least the smallest denomination |
| DenominationChange.CoverFewest | src/denomination_functions.cpp:354-372 | no coins held that cover the target are fewer than those taken from the highest denomination down |
| DenominationChange.LimitKept | src/denomination_functions.cpp:310-399 | the limit on the number of coins is kept if and only if some coins held that cover the target keep it, although only one of the branches looks at it |
| DenominationResult.CalculateExactly | src/denomination_functions.cpp:310-399 | calculateChange returns a count and coins if and only if they are the ones described: compare one coin of the smallest denomination over the target, or else coins from the highest down to cover it, with the fewest coins of the value that the most valuable coins below the target (smaller than that one coin) and the smallest coin left that exceeds it have without those that would come back; the latter are taken exactly if they need fewer coins of change, are within the limit, and less change is asked for or no one coin would do and they are no more coins |
| DenominationResult.MinimizedLeast | src/denomination_functions.cpp:213-302 | asked to minimize, no coins held of the value of the alternative, few enough of them, need fewer coins of change than the count returned |
| DenominationSelect.GetSpendCoins | src/denomination_functions.cpp:40-62 | the loops choose what SpendComplete is about |
| DenominationSelect.GetChange | src/denomination_functions.cpp:67-87 | the loops choose what ChangeFewest is about |
| DenominationSelect.GetIdealSpends | src/denomination_functions.cpp:93-117 | true exactly when some set of unused mints adds up to the target, and then no such set is smaller than the mints counted |
| DenominationSelect.GetSpends | src/denomination_functions.cpp:122-142 | as many unused mints as asked for, worth the same, going over the list again where there are too few; they are different if and only if there are enough, and are then the first ones of each denomination, the highest first |
| DenominationSelect.MinimizeChange | src/denomination_functions.cpp:213-302 | the four stages compute the count and the coins that CalculateExactly is about |
| DenominationSelect.CalculateChange | src/denomination_functions.cpp:310-399 | both branches return what CalculateExactly describes: coins held that cover the target whenever those held do, and the count of their change, not zero if and only if they exceed the target by the smallest denomination |
| DenominationSelect.SelectMintsFromList | src/denomination_functions.cpp:405-437 | unused mints worth the value reported: an exact choice, the first mints of the fewest coins, whenever one is possible within the limit, else the first mints of the coins that calculateChange returns, with the change for the excess, the limit kept if and only if it can be; different unless more are said to be held than there are |
| ArithLimbs.ValInjective | src/arith_uint256.h:31-32 | limbs are determined by their value, so a statement about the value fixes every limb |
| ArithUint.BaseUint.ShiftLeft | src/arith_uint256.cpp:58-73 | the value times two to the shift, modulo two to the width, for every shift |
| ArithUint.BaseUint.ShiftRight | src/arith_uint256.cpp:75-90 | the value divided by two to the shift, rounded down, for every shift |
| ArithUint.BaseUint.Add | src/arith_uint256.h:139-148 | the sum modulo two to the width, also of a number with itself |
| ArithUint.BaseUint.Negate | src/arith_uint256.h:81-88 | the negative modulo two to the width |
| ArithUint.BaseUint.Subtract | src/arith_uint256.h:150-154 | the difference modulo two to the width, also of a number with itself |
| ArithUint.BaseUint.Increment | src/arith_uint256.h:176-183 | one more, the carry running on as far as it must |
| ArithUint.BaseUint.Decrement | src/arith_uint256.h:193-200 | one less, the borrow running on as far as it must |
| ArithUint.BaseUint.MultiplyByWord | src/arith_uint256.cpp:92-102 | the product modulo two to the width |
| ArithSteps.ProductFits | src/arith_uint256.cpp:112 | no partial sum exceeds 64 bits |
| ArithUint.BaseUint.MultiplyBy | src/arith_uint256.cpp:104-118 | the product modulo two to the width if and only if the operands are different objects or the square is zero there: squared in place, a number becomes zero |
| ArithUint.OneSquared | src/arith_uint256.cpp:104-118 | the number 1, squared in place, becomes 0 |
| ArithUint.BaseUint.CompareTo | src/arith_uint256.cpp:146-156 | the sign of the difference of the values |
| ArithUint.BaseUint.Bits | src/arith_uint256.cpp:196-209 | the position of the highest bit plus one |
| ArithUint.BaseUint.DivideBy | src/arith_uint256.cpp:120-144 | the floor of the quotient for every divisor but zero, also of a number by itself; for zero an error that leaves zero behind |
| ArithCompact.RoundTrip | src/arith_uint256.cpp:245-286 | decoding an encoded number gives its sign, no overflow, and a value that is no greater and at most one part in 2^15 less; encoding that again gives the same code |
| ArithCompact.DecodeEncode | src/arith_uint256.cpp:245-286 | a code with a full mantissa and nothing below the units is the code of its number |
| ArithCompact.OverflowExact | src/arith_uint256.cpp:245-263 | for every code, overflow is reported if and only if mantissa times 256^(size-3) does not fit into 256 bits, and otherwise the value is exact |
| ArithCompact.DecodeSmall | src/arith_uint256.cpp:245-263 | a code of up to three bytes stands for its 23-bit mantissa divided by 256^(3-size), negative exactly if bit 23 is set and that is not zero |
| ArithCompact.DecodeLarge | src/arith_uint256.cpp:245-263 | a longer one for its mantissa times 256^(size-3) modulo 2^256, overflowing exactly if that is not less than 2^256, negative exactly if bit 23 is set and the mantissa is not zero |
| ArithUint.BaseUint.SetCompact | src/arith_uint256.cpp:245-263 | the method stores and reports what OverflowExact is about |
| ArithUint.BaseUint.GetCompact | src/arith_uint256.cpp:265-286 | the method returns the code that RoundTrip is about, and its assertions hold |
| Radix.ConvertBack | src/base58.cpp:23-67 | converting digits between base 58 and base 256, zeros in front kept one for one, is its own inverse |
| Radix.RoomSuffices | src/base58.cpp:84-117 | size*138/100+1 base 58 digits hold any size bytes, and len*733/1000+1 bytes any len characters |
| Base58.CharOfIsTable | src/base58.cpp:21 | the characters are those of pszBase58, place for place |
| Base58.TrimIs | src/base58.cpp:25-27 | the characters dropped at both ends are exactly those with codes 9 to 13 and 32 |
| Base58.EncodeIs | src/base58.cpp:84-117 | the text is a one for every zero byte in front, and then the digits, without a one in front, of the number the bytes are in base 256 |
| Base58.Examples | src/test/data/base58_encode_decode.json:3-12 | three of the examples the repository tests |
| Base58.DecodesExactly | src/base58.cpp:23-67 | a text decodes to given bytes if and only if, without spaces around it, it is their encoding |
| Base58.EncodeDecode | src/base58.cpp:84-117 | decoding inverts encoding on all bytes |
| Base58.DecodeEncode | src/base58.cpp:23-67 | encoding inverts decoding on all texts without spaces |
| Base58.ChecksExactly | src/base58.cpp:129-153 | for any hash: a text passes the check with given bytes if and only if, without spaces around it, it is the encoding of those bytes and the four bytes of their hash behind them |
| Base58.CheckRoundTrip | src/base58.cpp:129-153 | what is encoded with a checksum passes the check and gives back the bytes |
| Base58.MultiplyAdd | src/base58.cpp:95-103 | one carry loop multiplies the number in the buffer and adds a digit, and the carry left is zero |
| Base58.EncodeBase58 | src/base58.cpp:84-117 | the loops compute the encoding |
| Base58.DecodeBase58 | src/base58.cpp:23-67 | the loops fail or succeed exactly as decoding does and compute its bytes |
| Base58.DecodeBase58Check | src/base58.cpp:138-153 | succeeds exactly if the text decodes to at least four bytes, the last four of which are those of the hash of the others, and returns the others; else the result is cleared |
| VarInt.RoundTrip | src/serialize.h:436-466 | an integer within its type is read back and exactly its bytes are consumed |
| VarInt.OneEncoding | src/serialize.h:400-420 | an integer read without wrapping, up to the greatest of its type, has no encoding but the bytes read |
| VarInt.Encodes | src/serialize.h:400-406 | the bytes are those of the documented sum: base 128, each digit but the last less one and marked by bit 7 |
| VarInt.Sizes | src/serialize.h:409 | one, two and three bytes for exactly the documented ranges |
| VarInt.Examples | src/serialize.h:415-420 | the documented examples, two of which are misprinted there |
| VarInt.SignedRoundTrip | src/serialize.h:436-466 | a signed integer is read back if and only if it is not negative; a negative one is written as its lowest seven bits and read back as those |
| Compressor.DecompressCompress | src/compressor.cpp:138-181 | decompressing inverts compressing on all naturals |
| Compressor.CompressDecompress | src/compressor.cpp:138-181 | compressing inverts decompressing on all naturals |
| Compressor.CodesAre | src/compressor.cpp:128-155 | the documented code, in closed form, of an amount with e zeros behind a last digit d, and of one with nine zeros or more |
| Compressor.AmountExamples | src/test/compress_tests.cpp:41-46 | the pairs the repository tests, the last of which has another code |
| Compressor.NoOverflow | src/compressor.cpp:138-155 | amounts up to 2*10^18 are compressed to 64 bits |
| Compressor.CompressAmount | src/compressor.cpp:138-155 | the loop in 64-bit arithmetic |
| Compressor.DecompressAmount | src/compressor.cpp:157-181 | the loop in 64-bit arithmetic |
| Compressor.ScriptRoundTrip | src/compressor.h:70-97 | every script, special or not, is read back and exactly its bytes are consumed |
| Compressor.ShortForms | src/compressor.cpp:44-73 | the bytes written for the special scripts: 0 and the hash of a key, 1 and the hash of a script, 2 or 3 and a short key, 4 or 5 by its parity for a valid long one |
| Compressor.LongForm | src/compressor.h:70-81 | every other script is written as it is behind its length plus six; which ones those are, by their bytes |
| Compressor.ReadShortForms | src/compressor.cpp:84-127 | the scripts read for each of the six codes |
| CoinsPrefix.ScriptCutShort | src/compressor.h:83-97 | a script cut short anywhere is not read |
| Compressor.TxOutRoundTrip | src/compressor.h:114-127 | every output with a 64-bit code for its amount is read back |
| CoinsCodec.SomeAvailable | src/coins.h:207 | the assertion in Serialize holds for all coins that are not pruned |
| CoinsCodec.MaskRoundTrip | src/coins.h:244-254 | the number of mask bytes that are not zero alone determines where the mask ends |
| CoinsCodec.MaskBitsAre | src/coins.h:213-222 | bit p of byte b of the mask is set exactly if output 2 + 8b + p is unspent |
| CoinsCodec.HeaderRead | src/coins.h:202-209 | the bits of the header code, one by one, and the number of mask bytes above them |
| CoinsCodec.AvailabilityRight | src/coins.h:238-254 | the flags read are those of the unspent outputs, and none lies beyond them |
| CoinsCodec.CoinsRoundTrip | src/coins.h:200-264 | coins with an unspent output are read back but for spent outputs at the end, and exactly the bytes written are consumed, if and only if version and height are not negative |
| CoinsPrefix.CoinsCutShort | src/coins.h:230-264 | coins cut short anywhere are not read |
| CoinsCodec.VersionLost | src/coins.h:209-210 | coins with version -1 are read back with version 127 |
| CoinsExamples.FirstExample | src/coins.h:42-54 | the first documented example, byte by byte, with the header code as it is now |
| CoinsExamples.SecondExample | src/coins.h:57-73 | the second one, with two bytes of mask |
| CoinsStream.CCoins.CalcMaskSize | src/coins.cpp:17-34 | the size of the mask and the number of its bytes that are not zero |
| CoinsStream.CCoins.Cleanup | src/coins.h:121-127 | removes spent outputs at the end |
| CoinsStream.CCoins.Spend | src/coins.cpp:36-52 | exactly that output is not available afterwards; the undo data is the output and, if and only if none remains, what belonged to all of them |
| CoinsStream.CCoins.Serialize | src/coins.h:200-228 | the loops write the bytes that CoinsRoundTrip is about |
| CoinsStream.CCoins.Unserialize | src/coins.h:230-264 | the loops read what CoinsRoundTrip is about, or fail where the stream ends |
| CoinsStream.CScriptCompressor.Serialize | src/compressor.h:70-81 | writes the bytes that ScriptRoundTrip, ShortForms and LongForm are about |
| CoinsStream.CScriptCompressor.Unserialize | src/compressor.h:83-97 | reads what ScriptRoundTrip and ReadShortForms are about; a special script that cannot be decompressed leaves the script as it was |
| Chain.CChain.SetTip | src/chain.cpp:14-25 | from any well-formed chain, afterwards every entry is the new tip's ancestor at its height, although the loop stops at the first entry that is right already |
| Chain.CChain.FindFork | src/chain.cpp:56-63 | the highest block of the chain that is an ancestor of the block given, or none if there is none |
| Chain.CChain.GetLocator | src/chain.cpp:27-54 | ancestors in strictly descending order down to the genesis block: the i-th is i blocks down for i up to 10, then 9 + 2^(i-10), or the genesis block; at most 12 plus the binary logarithm of the height |
| Kernel.SelectBlockFromCandidates | src/kernel.cpp:77-135 | succeeds exactly if a candidate is left, and selects of those in time the first with the smallest hash, or the first later one |
| Kernel.HashOfIs | src/kernel.cpp:106-121 | the number by which candidates are compared: that of proof-of-stake blocks is divided by 2^32, and made of 0 in place of their hash before the upgrade |
| Kernel.StakeFavoured | src/kernel.cpp:117-121 | if any candidate in time is a proof-of-stake block, one is selected, unless a proof-of-work block has a hash below 2^224 |
| Kernel.StakeSelected | src/kernel.cpp:117-130 | exactly when a block selected in time is a proof-of-stake block: one of them outbids every proof-of-work block |
| Kernel.WorkSelected | src/kernel.cpp:117-130 | two candidates for which the proof-of-work block is selected |
| Kernel.EarliestStake | src/kernel.cpp:107-111 | before the upgrade, of the proof-of-stake blocks in time only the earliest can be selected |
| Kernel.SectionsGrow | src/kernel.cpp:57-62 | the sections of the interval grow from 20 to 60 seconds, each the floor of 3780 divided by 189 less twice its number |
| Kernel.SelectBlocks | src/kernel.cpp:194-213 | always completes min(64, n) rounds with pairwise different blocks, each the one to select in its round, and bit r of the modifier is the lowest bit of the hash of the block of round r |

## Left out

- Select_ and GetChance: floating point, and termination only with probability one.
- The keyed bucket hashes are arbitrary functions with the ranges their callers need; randomness and the clock are arguments.
- Integer ranges of nAttempts, nIdCount, nTodo and the like are not modelled; they would have to count past 2^31 to matter.
- AddrManStore.Unserialize: requires a manager without entries, because Clear (src/addrman.h:430-448) empties neither mapInfo nor mapAddr; what becomes of one that holds some is not modelled. Key size, byte layout and the counts in front of the parts are implicit in AddrFile.
- AddrManCheck.Check_: which of its error codes it returns is not stated, only when it returns zero.
- AddrManCheck.Check_: does not decide the whole invariant, because the code looks neither for addresses in mapAddr whose entry is gone nor at the next id; AddrManCheck.InvIsPasses says that this is all.
- The coins caches: SetBackend, statistics, and a parent used while it has a live child.
- The check queue: fQuit is never set in the repository; a lost notification of condWorker is covered by letting any blocked thread wake up at any time, and fairness of the scheduler is not assumed.
- DenominationSelect.GetSpends: requires an unused mint of each denomination asked for, because without one the loop does not end (src/denomination_functions.cpp:130-139).
- DenominationSelect.SelectMintsFromList: requires an unused mint of each denomination said to be held, for the same reason.
- The conversions of base_uint to and from double, hexadecimal text and bytes, and its bitwise operators.
- base_uint is modelled for any number of limbs (at least two where 64-bit numbers are stored); the compact format for 256 bits.
- CCoins::GetSerializeSize: its header code uses the factor 8 (src/coins.h:184) where Serialize uses 16 (src/coins.h:208), so it is not the size of what is written.
- CoinsCodec.CoinsRoundTrip: requires a header code of 32 bits and outputs whose amounts have a code of 64 bits; amounts up to 2*10^18 do.
- Decompression of public keys is an arbitrary function that inverts the abbreviation of valid keys.
- Unserialize of CCoins over a negative or wrapped integer follows the two's complement representation.
- CBase58Data and the address classes on top of the Base58 functions.
- Chain: GetAncestor is the recursion over parents; the skip list behind it is not modelled. A block's height is the number of its ancestors.
- Kernel.SelectBlocks: takes the candidates sorted by time and indexed; collecting and sorting them, the error return for a candidate that is not indexed, and the test whether a new modifier is due are not modelled.
- Masternodes, budgets, the network, RPC, wallet encryption and everything else that is input, output, signatures or wrappers.
