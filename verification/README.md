# A verified model of the algorithms in `hj`

This Dafny project models the seven headers of the C++ utility library `hj` that contain algorithms of
their own, and proves what their users rely on.  `dafny verify dfyconfig.toml` checks everything.

* **Indexable skip list** (`hj/algo/skiplist.hpp`).  `SkipListOrder` is the abstract list: a sequence of
  keys sorted by score and then by a strict weak order.  `SkipListRows` says what every link means (the next
  node tall enough for its level, and the exact level-0 distance to it; a null link carries the distance
  to the end of the list) and proves, level by level, what splicing a node in or out does.  `SkipList` is
  the class itself, pointers and all; every public operation keeps the whole invariant and changes the
  abstract sequence as specified.  `SkipListRuns` is about whole histories.
* **A\*** (`hj/algo/astar.hpp`).  `AStarGraph` holds the grid, paths and heuristics, `AStarTree` the
  `came_from` tree, `AStarQueue` the priority queue and `AStarSearch` the search with lazy deletion.
  The tree, the simple path and termination need no property of the heuristic; optimality needs
  consistency; nothing forbids weights of zero.
* **CRC-32 and both CRC-16 variants** (`hj/algo/crc32.h`, `hj/algo/crc16.h`).  `CrcTheory` is division of
  polynomials over GF(2) on bit sequences.  `CrcMachine` proves, for every register word and shift
  direction, that one table lookup is eight division steps and what follows for whole messages.  The three
  variants supply their words, their tables (every entry is proved) and their entry conventions.
* **Snowflake ids and UUID text** (`hj/algo/uuid.hpp`).  `Snowflake` is the engine as a machine with any
  number of threads, one lock that is given up during the sleep, and a clock that may say anything.
  `SnowflakeIds` packs and decodes the ids, `SnowflakeEngine` is the object with one caller, `Uuid` the byte
  order and the text form (version 8 of RFC 9562), `Words64` the link between numbers and 64-bit words.
* **AES padding and chunking** (`hj/crypto/aes.hpp`).  `AesPadding` has the six styles and their inverses,
  `AesStream` the two chunk loops.
* **Bloom filter** (`hj/algo/bloom_filter.hpp`).  `BloomWords` and `BloomFilter`: bits packed in words refine
  a sequence of booleans, and the filter's runs are described on that sequence.
* **QR rendering and PGM files** (`hj/ai/qrcode.hpp`).  `QrRender` paints, `Pgm` writes and parses, `QrFile`
  puts the two together.

Classes whose fields the source updates are classes here; their methods are proved against functions on
the abstract value, and the lemmas are about those functions.  Numbers that wrap in the source wrap here.

Five properties one might expect are false of the code.  Each has an input that fails and the exact
condition under which it holds:

* feeding a message to the MODBUS crc16 in two calls (`Crc16Modbus.ZeroIntermediate`,
  `Crc16Modbus.CrcChainsIff`);
* getting a zero-padded text back, whole or in chunks (`AesPadding.ZeroIsLost`, `AesStream.ZerosAcrossChunks`;
  `AesPadding.RoundTripIff`, `AesStream.ZeroStreamIff`, `AesStream.StreamRoundTripIff`);
* unpadding the last chunk instead of the whole, for the other styles too (`AesStream.CountStreamIff`,
  `AesStream.IsoStreamIff`);
* different text for different ids (`Uuid.WorkersMerge`, `Uuid.KeptEqualIff`);
* consistency of the default heuristic (`AStarGraph.DiagonalIsTooCheap`, `AStarGraph.ManhattanConsistent`).

## Model

| member | source | states |
|---|---|---|
| SkipListOrder.InsertedIsSorted | hj/algo/skiplist.hpp:252-264 | inserting where the walk stops keeps the keys sorted |
| SkipListOrder.InsertionPoint | hj/algo/skiplist.hpp:255-258 | the keys in front of the insertion point are exactly those with a smaller score, or the same score and an object that `less` puts first, so a new key precedes its equals |
| SkipListOrder.InsertedKeepsElements | hj/algo/skiplist.hpp:246-299 | insertion adds exactly one key and loses none, duplicates included |
| SkipListOrder.RemovedIsSorted | hj/algo/skiplist.hpp:532-556 | removing a slice keeps the order, and the rest plus the slice are the old keys |
| SkipListOrder.FirstEqualIsFirst | hj/algo/skiplist.hpp:303-320 | the position delete_node acts on is the first key with the same score and an object equivalent under `less` |
| SkipListOrder.FoundIff | hj/algo/skiplist.hpp:317-323 | the position reached is inside the list if and only if some key has the same score and an equivalent object |
| SkipListOrder.DeleteUndoesInsert | hj/algo/skiplist.hpp:246-326 | deleting a key just inserted restores the sequence, with duplicates present |
| SkipListOrder.RankOfPosition | hj/algo/skiplist.hpp:328-375 | with pairwise different keys, rank and position are inverse to each other |
| SkipListOrder.RangeIsInterval | hj/algo/skiplist.hpp:377-414 | the slice between the two walks is exactly the set of positions whose score lies in [min, max] |
| SkipListOrder.RangeEnds | hj/algo/skiplist.hpp:377-414 | when the interval holds a key at all, and that the two checks on the found nodes decide it |
| SkipListRows.InsertRow | hj/algo/skiplist.hpp:279-289 | splitting the predecessor's link, or stretching it on a level the node does not reach, leaves every link of the level with the right target and the exact distance |
| SkipListRows.RemoveRow | hj/algo/skiplist.hpp:534-544 | joining or shortening the predecessor's link does the same for removal |
| SkipListRows.InsertLevels | hj/algo/skiplist.hpp:279-289 | the same on all live levels at once |
| SkipListRows.RemoveLevels | hj/algo/skiplist.hpp:534-544 | the same on all live levels at once, and one update array still holds the right predecessors afterwards |
| SkipList.SkipList.constructor | hj/algo/skiplist.hpp:210-225 | the empty list satisfies the whole invariant |
| SkipList.SkipList.Descend | hj/algo/skiplist.hpp:252-264 | the shared walk finds, on every level, the last node before the cut and its rank |
| SkipList.SkipList.Insert | hj/algo/skiplist.hpp:246-299 | for any drawn level: keeps all forward, span, backward, tail and level facts and inserts the one new node; the nodes in front of it have a smaller score, or the same and an object `less` puts first, and those behind have neither |
| SkipList.SkipList.ChainIsOrdered | hj/algo/skiplist.hpp:246-326 | along the level-0 chain scores never fall, and within one score no object comes behind one that `less` puts after it |
| SkipList.SkipList.RaiseLevel | hj/algo/skiplist.hpp:267-276 | opening new levels: their one link from the header spans the whole list, and the header is their predecessor |
| SkipList.SkipList.DeleteNodeInternal | hj/algo/skiplist.hpp:532-556 | removes exactly the node behind the predecessors, shrinks the level to the tallest node left, and the same update array is valid for the next removal |
| SkipList.SkipList.DeleteNode | hj/algo/skiplist.hpp:301-326 | true exactly when an equal key exists; then the first one is gone and nothing else |
| SkipList.SkipList.DeleteRangeByScore | hj/algo/skiplist.hpp:416-440 | one update array over all removals takes out exactly the score interval and returns its size |
| SkipList.SkipList.DeleteRangeByRank | hj/algo/skiplist.hpp:442-477 | removes exactly the ranks from start to end, clipped to the list, and returns how many |
| SkipList.SkipList.DescendToRank | hj/algo/skiplist.hpp:333-343 | the walk by spans stops at the true predecessors of a rank and its unsigned difference never wraps |
| SkipList.SkipList.GetElementByRank | hj/algo/skiplist.hpp:328-348 | the node found by adding spans is the k-th node of the level-0 chain, null past the end |
| SkipList.SkipList.GetRank | hj/algo/skiplist.hpp:350-375 | the index of an equal key, or the size exactly when there is none; with duplicates a walk may stop early at any of the equal keys |
| SkipList.SkipList.IsInRange | hj/algo/skiplist.hpp:558-572 | the cheap test: both ends of the list reach into the interval |
| SkipList.SkipList.FirstInRange | hj/algo/skiplist.hpp:377-395 | the first node of the interval, never the header, null exactly when the interval is empty |
| SkipList.SkipList.LastInRange | hj/algo/skiplist.hpp:397-414 | the last node of the interval, never the header, null exactly when the interval is empty |
| SkipList.SkipList.Validate | hj/algo/skiplist.hpp:479-494 | true exactly when scores never go down; always true in a state the operations reach |
| SkipListQueries.RangeByScore | hj/algo/skiplist.hpp:604-642 | exactly the offset/limit slice of the interval, with the full interval size for every offset and limit, negative limits included |
| SkipListQueries.WindowIs | hj/algo/skiplist.hpp:617-639 | of n positions, those behind the offset are taken, as many as the limit admits, all of them for -1 |
| SkipListQueries.RangeByRank | hj/algo/skiplist.hpp:644-688 | the nodes of the clipped rank range in order or reversed, and their number |
| SkipListQueries.SpanSumWrapsBack | hj/algo/skiplist.hpp:538-538 | the unsigned sum of spans is exact even when the removed node's own span is 0 and the difference wraps |
| SkipListRuns.DeleteIsDeleted | hj/algo/skiplist.hpp:301-326 | the histories' single deletion is what delete_node is proved to do |
| SkipListRuns.EveryHistory | hj/algo/skiplist.hpp:246-477 | over every history of inserts and deletions the keys are ordered by score and within a score by `less`, and every key put in is either there or was taken out, counted with multiplicity |
| SkipListRuns.TakenIsAsked | hj/algo/skiplist.hpp:301-477 | an operation takes out only what its arguments name |
| AStarGraph.Grid.AddCells | hj/algo/astar.hpp:223-231 | the sized constructor makes exactly the cells of the rectangle walkable, changes no cost, and refuses empty dimensions |
| AStarGraph.Grid.AddLocation | hj/algo/astar.hpp:235-239 | replaces the neighbours of one node, which is walkable now unless it is an obstacle; no cost and no other node changes |
| AStarGraph.Grid.constructor | hj/algo/astar.hpp:222-222 | nothing is walkable, and every step costs 1 |
| AStarGraph.Grid.AddObstacles | hj/algo/astar.hpp:241-245 | exactly the given nodes stop being walkable, and exactly the costs into them become infinite |
| AStarGraph.Grid.SetEdgeWeight | hj/algo/astar.hpp:253-260 | the cost of the one directed edge becomes the weight unless it ends in an obstacle; a negative or infinite weight is refused and changes nothing |
| AStarGraph.ConsistentAlong | hj/algo/astar.hpp:327-328 | along any path a consistent heuristic falls by at most the cost of the path |
| AStarGraph.ManhattanIsLeast | hj/algo/astar.hpp:46-53 | the default heuristic is the length of a shortest walk over touching cells |
| AStarGraph.ManhattanConsistent | hj/algo/astar.hpp:46-53 | the default heuristic is consistent for every goal if and only if no edge is cheaper than the Manhattan distance of its ends |
| AStarGraph.DiagonalIsTooCheap | hj/algo/astar.hpp:267-274 | a graph where the default heuristic is not consistent: a diagonal step at the default cost |
| AStarQueue.PriorityQueue.Get | hj/algo/astar.hpp:134-141 | takes an entry of least priority, among those of least x, among those of least y, and only that one |
| AStarQueue.PriorityQueue.Put | hj/algo/astar.hpp:130-133 | one more entry, duplicates of a node included |
| AStarTree.RelaxKeepsTree | hj/algo/astar.hpp:390-393 | rewriting a parent, even of a closed node and along a zero-weight edge, keeps came_from a tree rooted at the start |
| AStarTree.WayDownIsPath | hj/algo/astar.hpp:406-423 | the way read off the tree is a walkable path of neighbour steps, no dearer than the recorded cost |
| AStarTree.WayDownIsSimple | hj/algo/astar.hpp:406-423 | no node repeats on it, so it fits the hop bound |
| AStarSearch.TakenIsFinal | hj/algo/astar.hpp:362-366 | with a consistent heuristic, a node taken unclosed from the queue has its true shortest distance, whatever stale entries remain |
| AStarSearch.TopIsBelow | hj/algo/astar.hpp:362-366 | the least entry of the queue is no worse than the cost of any path to an open node plus that node's heuristic value |
| AStarSearch.TakenIsPromising | hj/algo/astar.hpp:362-366 | with a consistent heuristic no node is closed through which the goal is estimated to lie further away than it does |
| AStarSearch.Relax | hj/algo/astar.hpp:376-400 | one relaxation keeps the invariant of the main loop: parents, costs, queue, expanded and visited nodes |
| AStarSearch.ExpandNode | hj/algo/astar.hpp:376-400 | the neighbour loop of one node restores the whole invariant, or fails only on a cost or heuristic value the source refuses |
| AStarSearch.Ask | hj/algo/astar.hpp:370-374 | cancellation first, then the limit; each is asked once for a closed node |
| AStarSearch.VisitNode | hj/algo/astar.hpp:370-400 | a node just closed is asked about and then expanded; the result says which question or value stopped it |
| AStarSearch.Explore | hj/algo/astar.hpp:350-401 | the main loop ends on every finite graph; then the tree, the costs and the queue say everything about the goal, and every closed node but the goal was asked about once, with the answers the result reports |
| AStarSearch.OnlyKnownReachable | hj/algo/astar.hpp:403-404 | with the queue empty, every node reachable by finite-cost edges through walkable nodes has been closed |
| AStarSearch.ReconstructPath | hj/algo/astar.hpp:406-423 | the walk back yields the tree's path; the invalid_graph exits are dead for non-negative weights |
| AStarSearch.PathIsCrossed | hj/algo/astar.hpp:364-423 | every node of the path but the goal was closed and asked about, and every one but the start has an accepted heuristic value |
| AStarSearch.Search | hj/algo/astar.hpp:329-424 | a found path is simple and walkable, and of minimum cost over all paths when the heuristic is consistent; left to run it finds a path if and only if one exists; a yes to the first question always cancels; found means that no node of the path before the goal was answered yes, not_found the same of every reachable node; cancelled and resource_limit_exceeded name the question and the count that ended it |
| CrcTheory.FeedAtOnce | hj/algo/crc32.h:123-124 | xoring a whole chunk in and stepping equals feeding its bits one by one |
| CrcTheory.FeedDivides | hj/algo/crc32.h:112-127 | the register is a remainder of the message polynomial, with an explicit quotient |
| CrcTheory.RemainderUnique | hj/algo/crc32.h:112-127 | quotient and remainder of a polynomial division are unique |
| CrcTheory.BurstDetected | hj/algo/crc32.h:112-127 | two equally long bit strings that differ only within as many bits as the register holds leave different registers |
| CrcTheory.OddDetected | hj/algo/crc16.h:93-109 | with an even number of terms in the generator, any odd number of differing bits changes the register |
| CrcMachine.TableStepIsBitwise | hj/algo/crc32.h:123-124 | for every faithful machine, one table lookup is eight division steps |
| CrcMachine.LoopsAgree | hj/algo/crc32.h:121-124 | any two loops whose steps divide agree on every message |
| CrcMachine.LoopIsRemainder | hj/algo/crc32.h:121-126 | the final register is the only remainder the division by the generator can leave |
| CrcMachine.LoopInjective | hj/algo/crc32.h:121-124 | the register never forgets where it started |
| Crc32.TableIsDivision | hj/algo/crc32.h:58-110 | each of the 256 table entries is eight steps of division by the reflected generator |
| Crc32.Crc32 | hj/algo/crc32.h:112-127 | on every buffer and start value the table loop computes the complemented bit-at-a-time division (section 8 of RFC 1952) |
| Crc32.CrcChains | hj/algo/crc32.h:118-126 | feeding a and then b equals feeding a followed by b, always |
| Crc32.CrcIsRemainder | hj/algo/crc32.h:118-126 | complementing start and value leaves the one remainder that dividing the message by the generator can have |
| Crc32.CrcDetectsBurst | hj/algo/crc32.h:112-127 | messages that differ only within 32 consecutive bits never share a value |
| Crc32.CrcDetectsWindow | hj/algo/crc32.h:112-127 | nor do messages that differ only within four consecutive bytes |
| Crc32.CrcInjective | hj/algo/crc32.h:112-127 | for a fixed message different start values give different results |
| Crc32.CheckValue | hj/algo/crc32.h:54-54 | the documented value for the digits 1 to 9 |
| Crc16Modbus.TableIsDivision | hj/algo/crc16.h:62-91 | each of the 256 table entries is eight steps of division |
| Crc16Modbus.Crc16 | hj/algo/crc16.h:93-109 | the table loop computes the bit-at-a-time division on every buffer, a zero start standing for 0xFFFF |
| Crc16Modbus.CrcChainsIff | hj/algo/crc16.h:99-107 | chaining equals the whole-message value if and only if the intermediate value is not zero |
| Crc16Modbus.ZeroIntermediate | hj/algo/crc16.h:99-107 | a two-byte message after which chaining does go wrong |
| Crc16Modbus.CrcIsRemainder | hj/algo/crc16.h:99-107 | the value is the one remainder that dividing the message by the generator can have, a zero start counting as 0xFFFF |
| Crc16Modbus.CrcDetectsBurst | hj/algo/crc16.h:93-109 | messages that differ only within 16 consecutive bits never share a value |
| Crc16Modbus.CrcDetectsWindow | hj/algo/crc16.h:93-109 | nor do messages that differ only within two consecutive bytes |
| Crc16Modbus.CrcDetectsOdd | hj/algo/crc16.h:93-109 | messages of one length that differ in an odd number of bits, wherever they are, never share a value |
| Crc16Modbus.CrcInjectiveIff | hj/algo/crc16.h:99-107 | start values share a result only if they are equal or the two spellings of 0xFFFF |
| Crc16Modbus.CheckValue | hj/algo/crc16.h:58-58 | the documented value for the digits 1 to 9 |
| Crc16Xmodem.TableIsDivision | hj/algo/crc16.h:133-162 | each of the 256 table entries is eight steps of division, most significant bit first |
| Crc16Xmodem.LookedIsEntry | hj/algo/crc16.h:177-177 | the index and the shift written in the loop body are the head and the rest of the register |
| Crc16Xmodem.Crc16 | hj/algo/crc16.h:164-180 | the table loop computes the bit-at-a-time division on every buffer and start value |
| Crc16Xmodem.CrcChains | hj/algo/crc16.h:170-177 | feeding a and then b equals feeding a followed by b, always |
| Crc16Xmodem.DividedIsRemainder | hj/algo/crc16.h:175-177 | the register is the unique polynomial remainder |
| Crc16Xmodem.CrcDetectsBurst | hj/algo/crc16.h:164-180 | messages that differ only within 16 consecutive bits never share a value |
| Crc16Xmodem.CrcDetectsWindow | hj/algo/crc16.h:164-180 | nor do messages that differ only within two consecutive bytes |
| Crc16Xmodem.CrcDetectsOdd | hj/algo/crc16.h:164-180 | messages of one length that differ in an odd number of bits, wherever they are, never share a value |
| Crc16Xmodem.DividedInjective | hj/algo/crc16.h:175-177 | for a fixed message different start values give different results |
| Crc16Xmodem.CheckValue | hj/algo/crc16.h:128-128 | the documented value for the digits 1 to 9 |
| Snowflake.StepKeeps | hj/algo/uuid.hpp:155-196 | every step of every thread keeps the invariant, whatever the clock says and whoever runs during the sleep |
| Snowflake.RunKeeps | hj/algo/uuid.hpp:155-196 | so does every interleaving |
| SnowflakeIds.IdIsPacked | hj/algo/uuid.hpp:194-195 | the shifted and united fields are the number with those digits |
| SnowflakeIds.IdNumberDigits | hj/algo/uuid.hpp:138-147 | as a number the id is the milliseconds since 1735689600000 modulo 2^42, then ten bits of worker, then twelve of sequence number |
| SnowflakeIds.IdExample | hj/algo/uuid.hpp:138-147 | one id, digit for digit |
| SnowflakeIds.SameIdIff | hj/algo/uuid.hpp:194-195 | two ids are the same word if and only if worker and sequence agree and the timestamps are a multiple of 2^42 ms apart, for all clocks |
| SnowflakeIds.EveryRun | hj/algo/uuid.hpp:155-196 | from any start, the issued (timestamp, sequence) pairs strictly increase and stay within their fields, and the lock has one holder |
| SnowflakeIds.IdsDistinct | hj/algo/uuid.hpp:164-196 | over every interleaving, clock and worker reset, two ids of one engine coincide if and only if worker and sequence agree and the timestamps are a multiple of 2^42 ms apart; never when they are closer than that |
| SnowflakeIds.IdOrderIff | hj/algo/uuid.hpp:194-195 | exactly when one id is smaller than another of the same worker |
| SnowflakeIds.IdsIncrease | hj/algo/uuid.hpp:164-196 | ids issued under the same worker id are ordered as their ages modulo 2^42 ms and their sequence numbers, so they strictly increase within each such stretch of the clock |
| SnowflakeIds.IdNumberIsId | hj/algo/uuid.hpp:194-195 | the number compared there is the id read as an unsigned word |
| SnowflakeIds.RateBound | hj/algo/uuid.hpp:184-188 | at most 4096 ids share a millisecond |
| SnowflakeIds.MutualExclusion | hj/algo/uuid.hpp:166-177 | at most one thread is between taking and giving up the lock |
| SnowflakeIds.WorkersNeverCollide | hj/algo/uuid.hpp:194-195 | engines with different worker ids never issue the same id, whatever their clocks |
| SnowflakeIds.IdDecodes | hj/algo/uuid.hpp:138-146 | for every clock the id gives back the age modulo 2^42 ms, the worker and the sequence number |
| SnowflakeEngine.AloneIsRun | hj/algo/uuid.hpp:164-196 | a call made without interference is one of the machine's runs |
| SnowflakeEngine.Engine.NextId | hj/algo/uuid.hpp:164-196 | the method does what the machine does with one thread on the same clock readings, fields and result alike; it throws if and only if the clock is more than 5000 ms behind; a new millisecond gets number 0, the same one the next number, a full one or a clock still behind the first reading past it |
| SnowflakeEngine.Engine.ChooseSerial | hj/algo/uuid.hpp:184-192 | the sequence number counts to 4095 within a millisecond and is 0 in a new one; a full millisecond waits for the next |
| SnowflakeEngine.Engine.ResetWorkerId | hj/algo/uuid.hpp:155-162 | a worker id above 1023 is refused and changes nothing; otherwise only the worker id changes |
| SnowflakeEngine.WaitNextMillis | hj/algo/uuid.hpp:207-218 | returns the first reading past the limit, or spins on |
| Uuid.ToEndianTwice | hj/algo/uuid.hpp:43-63 | converting the byte order twice is the identity |
| Uuid.SwapReverses | hj/algo/uuid.hpp:44-49 | the swap turns the eight bytes of the word around |
| Uuid.ToEndianIs | hj/algo/uuid.hpp:53-63 | on a little-endian host the byte order turns around exactly when big-endian is asked for |
| Uuid.HexReads | hj/algo/uuid.hpp:70-79 | the printed digits, read most significant first, are the number |
| Uuid.Layout | hj/algo/uuid.hpp:70-79 | every field prints at its fixed width, so the text has 36 characters with dashes in fixed places |
| Uuid.FormatReads | hj/algo/uuid.hpp:65-80 | the five groups of the text, read as hexadecimal numbers, are the fields of the two words with version and variant in place |
| Uuid.VersionAndVariant | hj/algo/uuid.hpp:67-68 | every text is a version 8 UUID of the RFC variant (section 5.8 of RFC 9562) |
| Uuid.FormatEqualIff | hj/algo/uuid.hpp:65-80 | two texts are equal if and only if the inputs agree outside the six bits the format overwrites |
| Uuid.KeptEqualIff | hj/algo/uuid.hpp:67-67 | two ids lose their difference in the text if and only if the sequence agrees, the timestamps are a multiple of 2^42 ms apart and the worker ids share their upper six bits |
| Uuid.TextsDistinct | hj/algo/uuid.hpp:237-246 | over every run, two texts of one engine under one worker id are equal if and only if sequence, age modulo 2^42 ms and the kept bits of the second words agree; never when the timestamps are closer than 2^42 ms, whatever the xorshift seeds |
| Uuid.WorkersMerge | hj/algo/uuid.hpp:67-67 | two engines that print one text for different ids, at any time |
| AesPadding.PaddingBlock | hj/crypto/aes.hpp:1168-1218 | the filled buffer is the text and the tail its style prescribes, nothing when the style or block size asks for none |
| AesPadding.PaddedBytes | hj/crypto/aes.hpp:1168-1218 | the padded text byte by byte, for every style |
| AesPadding.UnpaddingBlock | hj/crypto/aes.hpp:1221-1299 | the length left behind, on every input, is the one the specification of the style gives |
| AesPadding.BeyondIff | hj/crypto/aes.hpp:1221-1299 | the length left wraps beyond the text if and only if the mode unpads, the style reads a count and the last byte is an acceptable count larger than the text; otherwise a counting style takes at most one block |
| AesPadding.UnpadPad | hj/crypto/aes.hpp:1168-1299 | unpadding a padded text finds the length of the original for every style and filler, up to its own trailing zeros for the zero style |
| AesPadding.RoundTripIff | hj/crypto/aes.hpp:1168-1299 | unpad after pad is the identity if and only if nothing was padded, or the mode unpads and a zero-padded text does not end in zero |
| AesPadding.ZeroIsLost | hj/crypto/aes.hpp:1251-1256 | a one-byte text the zero style does not give back |
| AesPadding.ZeroRoundTrip | hj/crypto/aes.hpp:1251-1256 | the zero style gives back the text without exactly its trailing zeros |
| AesPadding.StripsPaddedOnly | hj/crypto/aes.hpp:1233-1250 | on whole blocks pkcs5, pkcs7, iso10126 and ansix923 remove bytes if and only if the text is some text padded in that style (section 6.3 of RFC 5652 for pkcs7) |
| AesPadding.IsoStripsMarkedOnly | hj/crypto/aes.hpp:1285-1294 | iso_iec_7816_4 removes bytes if and only if the text ends in a mark and zeros, and then exactly these |
| AesPadding.OtherwiseStripped | hj/crypto/aes.hpp:1221-1256 | the zero style removes all trailing zeros and nothing more; authenticated modes, no_padding and one-byte blocks remove nothing |
| AesPadding.PaddedLength | hj/crypto/aes.hpp:753-762 | the padded length is the next strict multiple of the block size and fits the reserve, with the 16-byte tag too when the block size is 1 or at least 16 |
| AesStream.EncryptFeeds | hj/crypto/aes.hpp:274-332 | what the chunk loop hands to the cipher is the padding of the whole text, all but the last piece being full chunks |
| AesStream.ChunksPadAlike | hj/crypto/aes.hpp:305-316 | padding what follows whole chunks is padding everything |
| AesStream.DecryptStream | hj/crypto/aes.hpp:606-669 | the loop writes all chunks but the last as they are and unpads only the last, or ends with a length beyond it |
| AesStream.LastChunkSuffices | hj/crypto/aes.hpp:666-669 | for pkcs5, pkcs7, iso10126 and ansix923 that equals unpadding the whole, for every text of whole blocks, padded or not |
| AesStream.CountStreamIff | hj/crypto/aes.hpp:666-669 | for these styles and any text it does if and only if there is only one chunk or the last one has as many bytes as its count asks for |
| AesStream.ZeroStreamIff | hj/crypto/aes.hpp:666-669 | for the zero style it does if and only if the trailing zeros do not reach back over the start of the last chunk |
| AesStream.ZerosAcrossChunks | hj/crypto/aes.hpp:666-669 | a text for which it does not |
| AesStream.IsoStreamIff | hj/crypto/aes.hpp:666-669 | for iso_iec_7816_4 it does if and only if the mark does not stand in front of a last chunk of zeros |
| AesStream.StreamRoundTripIff | hj/crypto/aes.hpp:274-669 | streaming out and back is the identity if and only if zero padding meets no zero of the text's own in the last chunk |
| BloomWords.SetBit | hj/algo/bloom_filter.hpp:93-93 | oring the mask sets one bit and keeps the other 63 |
| BloomWords.ClearBit | hj/algo/bloom_filter.hpp:95-95 | masking clears one bit and keeps the other 63 |
| BloomWords.StoreRefines | hj/algo/bloom_filter.hpp:85-96 | storing into the packed words is storing into the boolean sequence, and the bits past the end stay zero |
| BloomFilter.DynamicBitset.Set | hj/algo/bloom_filter.hpp:85-96 | changes the one position, or nothing when it is out of range |
| BloomFilter.DynamicBitset.Test | hj/algo/bloom_filter.hpp:98-106 | reads the boolean sequence, false out of range |
| BloomFilter.DynamicBitset.Assign | hj/algo/bloom_filter.hpp:71-83 | a deep copy; assigning to itself changes nothing |
| BloomFilter.Filter.constructor | hj/algo/bloom_filter.hpp:124-154 | for any result of the sizing formulas the filter has 64 to 65536 bits, 1 to 16 hashes and no bit set |
| BloomFilter.Filter.Clear | hj/algo/bloom_filter.hpp:158-158 | no bit is set any more |
| BloomFilter.Filter.Add | hj/algo/bloom_filter.hpp:162-170 | sets exactly the positions h1(v) + i * h2(h1(v)), wrapped as in the source, and no other bit |
| BloomFilter.FirstHash | hj/algo/bloom_filter.hpp:217-224 | hash 0 of a value is its first hash modulo 2^63 |
| BloomFilter.NextHash | hj/algo/bloom_filter.hpp:217-224 | successive hashes differ by the second hash modulo 2^63 |
| BloomFilter.TwoPositions | hj/algo/bloom_filter.hpp:217-224 | a value whose two positions are different bits |
| BloomFilter.Filter.Contains | hj/algo/bloom_filter.hpp:172-182 | true if and only if the bit is set at every such position |
| BloomFilter.Filter.Serialize | hj/algo/bloom_filter.hpp:184-190 | one character per bit |
| BloomFilter.Filter.Unserialize | hj/algo/bloom_filter.hpp:192-199 | accepts exactly the right length and then replaces every bit; otherwise changes nothing |
| BloomFilter.RunBits | hj/algo/bloom_filter.hpp:156-199 | over every run a bit is set if and only if it was set at the last clear or load, or a value added since hashes to it |
| BloomFilter.NoFalseNegatives | hj/algo/bloom_filter.hpp:162-182 | over every run, whatever was added since the last clear or load is found |
| BloomFilter.FoundIff | hj/algo/bloom_filter.hpp:172-182 | over every run, a value is found if and only if every one of its positions was set at the last clear or load or is covered by a value added since |
| BloomFilter.LoadedFinds | hj/algo/bloom_filter.hpp:184-199 | a filter of the same size with no more hash functions that loads another's text finds everything added to the other |
| QrRender.SizeDoesNotWrap | hj/ai/qrcode.hpp:172-174 | for int arguments the 64-bit size computation never wraps |
| QrRender.SquareFitsIff | hj/ai/qrcode.hpp:184-186 | the division test is the exact overflow test for the pixel count |
| QrRender.AsIntKeeps | hj/ai/qrcode.hpp:192-193 | the reported width and height are the true size if and only if it fits an int |
| QrRender.BlackIsOdd | hj/ai/qrcode.hpp:200-203 | a module is black when the lowest bit of its own byte of the matrix is set |
| QrRender.PixelAt | hj/ai/qrcode.hpp:196-216 | the pixel on row y and column x is 0 if and only if the module y / scale - margin, x / scale - margin exists and the lowest bit of its byte is set, and 255 otherwise |
| QrRender.Render | hj/ai/qrcode.hpp:196-216 | the four loops write inside the buffer and leave exactly that picture, stated on the bytes of the matrix |
| QrRender.Encode | hj/ai/qrcode.hpp:139-219 | success exactly when the size fits, or the first failing check; on success every pixel as the bytes of the matrix say, and an untouched bitmap on failure |
| QrFile.EncodeFile | hj/ai/qrcode.hpp:221-246 | no file content without a picture; with one, the file ends in the picture the bytes of the matrix describe, and the parser gets back exactly that picture if and only if its side fits an int |
| QrFile.PictureSurvivesIff | hj/ai/qrcode.hpp:192-349 | a larger side is written as a negative number, which the parser refuses as out of range |
| Pgm.Input.ReadToken | hj/ai/qrcode.hpp:355-393 | returns the next token behind blanks and comment lines and consumes exactly one delimiter, or a whole comment |
| Pgm.BlankSkipped | hj/ai/qrcode.hpp:359-363 | each of the six blank characters in front of a token is skipped |
| Pgm.CommentSkipped | hj/ai/qrcode.hpp:364-369 | a comment in front of a token is skipped with its newline, or to the end of the file |
| Pgm.TokenIs | hj/ai/qrcode.hpp:371-390 | a token runs to the next blank or #; a blank is consumed with it, a # with its whole line |
| Pgm.StoiIs | hj/ai/qrcode.hpp:328-338 | what std::stoi makes of a sign, digits and anything behind them, int's range included |
| Pgm.StoiOfDigits | hj/ai/qrcode.hpp:328-338 | converting a printed number gives it back |
| Pgm.Parse | hj/ai/qrcode.hpp:303-351 | for every file: the picture, or the first failing check |
| Pgm.AcceptedIff | hj/ai/qrcode.hpp:303-351 | accepted are exactly a P5 header with sides of at least 1, a maximum from 1 to 255 and enough bytes behind it, and which picture that is |
| Pgm.RefusedBecause | hj/ai/qrcode.hpp:311-349 | what each error code says about the refused file |
| Pgm.ReadsBack | hj/ai/qrcode.hpp:378-390 | a token in front of one delimiter is read whole and nothing behind the delimiter is touched |
| Pgm.WriteParse | hj/ai/qrcode.hpp:233-349 | writing and parsing gives back width, height and bytes for every picture, also when its bytes start like blanks or comments and whatever follows in the file |
| Pgm.WrittenParses | hj/ai/qrcode.hpp:233-349 | what becomes of any written file, negative sizes and missing pixels included |
| Pgm.WrittenExample | hj/ai/qrcode.hpp:238-241 | one written file, byte for byte |

## Left out

- Floating point: costs and scores are exact reals; overflow, NaN, infinite scores and rounding in A\* sums are not modelled, except that an edge cost or heuristic value may be non-finite.
- Euclidean heuristic, `smooth`, custom grids that override the virtual `neighbors` and `cost`: not modelled.
- Hash containers are maps and sets; the cancel callback is a function of the number of times it has been asked.
- The level distribution of `_random_level`: the level is any value from 1 to 32.
- Memory of the skip list: raw allocation, iterators and `release` are not modelled; a removed node stays in the set of nodes the list may write, and spans are unbounded integers, with SpanSumWrapsBack for the one difference that wraps.
- The loop over the bytes is the same in the three checks and is one method over their steps here, CrcLoop.FoldBuffer.
- The walk that `insert`, `delete_node`, `get_rank` and the ranges repeat inline is one method here, and loops that would be one long method are split at their natural seams.
- Crc16Modbus.Crc16: buffers above 2^31 - 1 bytes are excluded, because the source counts with an `int`.
- Crc16Xmodem.Crc16: the same.
- SnowflakeEngine.Engine.constructor: the source throws on a worker id above 1023; here that is its precondition.
- SnowflakeEngine.Engine.NextId: one caller, so nothing happens during its sleep; interference is in the machine.
- The xorshift of the thread-local seed: the second word of a text is arbitrary.  Big-endian hosts.
- The cipher, keys, IVs and tags of AES: third-party code.  A block size is any number from 1 to 255, and whether a mode is authenticated is a parameter.
- AesPadding.Unpadded: a length beyond the text is reported as such; what the source's callers then read is outside the text and not modelled.
- AesPadding.UnpaddingBlock: iso_iec_7816_4 texts above 2^31 - 1 bytes are excluded, because the source searches with an `int`.
- The two sizing formulas of the Bloom filter: their results are constructor parameters.  The assertion that a string is not empty.
- QrRender.Encode: the module matrix comes from the QR library and is a parameter; `int` sums of margin and module number do not overflow, which they could only for images wider than an `int`.
- Decoding of QR pictures: third-party code.  File streams are byte sequences, and opening or writing a file does not fail.
- Wrappers around other libraries (gzip, hashes, base64, databases, speech and language models) have no algorithm of their own.
