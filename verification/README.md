# Verified models of the demo's hard parts

This project models three parts of the repository in Dafny and proves what they promise.

* **The zip tree of `ziptree.h`.** `ZipTree` holds the operations on tree values and the reference definitions;
  `ZipTreeHistory` the promises over whole runs; `ZipTreeHeap` the destructive code over linked entries, which is proved
  to perform exactly the value operations and to write only the entries on its path; `ZipRank` the rank computation.
* **The CRC engines of `crc.hpp`.** `CrcSpec` defines a CRC as the remainder of a polynomial division over GF(2) and
  proves that division unique, linear and equal to bit-at-a-time processing; `CrcWords` says how storage words carry
  registers; `CrcEngines` is `crc_basic`, the lookup table, `crc_optimal`, `crc` and `augmented_crc`; `CrcTheorems`,
  `CrcBursts` and `CrcRfc1952` state what they promise together; `Bits` and `HexWords` are about words and numerals.
* **The subscription handshake and the data push** of `north_data_communicate_stack.cpp`, with the node addresses of
  `opcua_tool.hpp`: `Handshake` (interleaved threads), `PushedData` (from messages to node values) and `NodeAddress`.

## How to read it

*Zip trees.* A tree value has items (identity, key, rank) in its nodes. `Canonical(s)` is the one shape that a sequence
of ranked items may take: its root is the leftmost item of highest rank. `Place` is stable sorted insertion into a
sequence and `Without` removal from one. Insert, remove and any run of both are proved equal to `Canonical` of the
sequence result. The trees of all runs that end with the same entries are therefore one tree exactly when no key
repeats (`OneTreeIff`): equal keys remember the order in which they came. On the heap, `Represents(n, t)` says that the
links under entry `n` form exactly the tree `t`, with no sharing and no cycle; every recursive method carries `t` as a
ghost argument, and its `modifies` clause names only the link fields of the entries it may relink. The comparison is the
order of integer keys: every statement is about finitely many entries, and a total preorder on finitely many keys embeds
in the integers. The comment above `enum ZIP_CMP` asks for EQ only on the same memory, while lines 20-21 and 153-154
allow repeated keys; the model follows the code and allows them.

*CRC.* Words are bit sequences, most significant bit first, and a byte is a word of eight bits. A storage word may be
wider than the CRC, as `uint_t<Bits>::least` and `::fast` are; whatever stands above the register never matters. `Steps`
is the register after some message bits, `LongDiv` schoolbook division. Statements hold for every width (also below 8
bits, where `crc_optimal` aligns the other way), polynomial, initial value, final mask and reflection setting, except
that `AugmentedCrc`, `AugmentedLow`, `TablesAgree` and `UpdateReverses` are about widths of at least 8 bits,
`AugmentedCheck`, `OwnChecksum` and `CheckOwnChecksum` about multiples of 8, and `PolynomialReversed`,
`GzipCrcIsCrc32`, `Crc32` and `KnownAnswer` about 32.

*An asymmetry found.* The checksums of every two messages of bytes that differ by a burst of up to n bits differ exactly
when `truncated_polynominal` is odd (`ChecksumsSeeBurstsIff`, `OddDivisorsSeeBursts`), a burst being counted in the
order in which the bits enter the division. The 0x8408 of `crc_xmodem_type` is even, and that predefined type gives the
messages 00 00 00 and 80 21 10 the same checksum although a burst of 16 bits tells them apart (`XmodemMissesABurst`).
The other three predefined types have odd polynomials.

*Handshake.* Every read and write of a shared flag is one step, and steps of the timer thread, the epoll thread and the
main thread interleave freely. Replies count whether or not a request was sent (`UnaskedReplyCounts`), so the claims
say that a reply with code 200 was received. The state carries the server's node values, which a pushed batch changes in
one step. `NorthStack` has the two handlers as the source writes them, proved to be the machine's timer thread and epoll
thread run without interruption.

*Push.* JSON values start as parsed scalars with their texts; the conversion to double and the result of stream
extraction on text that is not an in-range decimal numeral (which may differ between the two integer types) are
parameters, on which nothing depends.

## Model

| member | source | states |
|---|---|---|
| ZipTree.CanonicalForm | libs/x64/open62541/include/ziptree.h:111-127 | a tree's left children have smaller and its right children no larger ranks exactly when it is the one canonical tree of its in-order sequence |
| ZipTree.CanonicalIsRankOrdered | libs/x64/open62541/include/ziptree.h:111-127 | every sequence of ranked items has such a tree |
| ZipTree.InsertPlaces | libs/x64/open62541/include/ziptree.h:103-132 | insertion puts the element right after the last key not greater than it and moves nothing else |
| ZipTree.InsertRoot | libs/x64/open62541/include/ziptree.h:111-131 | what the recursion answers is the new element or the old root, so an answer other than the element may be dropped |
| ZipTree.InsertKeepsRankOrder | libs/x64/open62541/include/ziptree.h:112-127 | both tie rules keep the rank order |
| ZipTree.InsertIsCanonical | libs/x64/open62541/include/ziptree.h:103-139 | insertion gives exactly the canonical tree of the stably inserted sequence |
| ZipTree.PlaceKeepsSorted | libs/x64/open62541/include/ziptree.h:110-131 | stable insertion keeps the keys sorted and adds exactly the new element |
| ZipTree.ZipConcatenates | libs/x64/open62541/include/ziptree.h:141-151 | zipping concatenates in-order sequences, keeps the rank order, and surfaces the higher root, the left one on a tie |
| ZipTree.ZipIsCanonical | libs/x64/open62541/include/ziptree.h:141-151 | zipping two zip trees whose keys do not interleave gives the canonical tree of the concatenation |
| ZipTree.RemoveTakesOut | libs/x64/open62541/include/ziptree.h:155-184 | removal takes out exactly the given element under duplicate keys and keeps rank order and everybody else's place |
| ZipTree.SidesOf | libs/x64/open62541/include/ziptree.h:163-182 | the side that LESS or MORE skips cannot hold the element, and no element is on both sides |
| ZipTree.RemoveInside | libs/x64/open62541/include/ziptree.h:163-182 | skipping a side that does not hold the element gives what searching both gives, as EQ does |
| ZipTree.WithoutAt | libs/x64/open62541/include/ziptree.h:155-184 | taking out an element deletes one position of the sequence |
| ZipTreeHistory.RemoveIsCanonical | libs/x64/open62541/include/ziptree.h:155-189 | removal gives exactly the canonical tree of what is left, and removing an absent element changes nothing |
| ZipTreeHistory.RemoveUndoesInsert | libs/x64/open62541/include/ziptree.h:103-189 | inserting a fresh element of any rank and removing it gives back exactly the original tree |
| ZipTreeHistory.InsertUndoesRemove | libs/x64/open62541/include/ziptree.h:103-189 | removing an element and inserting it again gives back the tree exactly when no later element has its key |
| ZipTreeHistory.Run | libs/x64/open62541/include/ziptree.h:134-189 | every tree reachable by inserts and removes is sorted, rank-ordered and holds exactly the contents |
| ZipTreeHistory.RunIsCanonical | libs/x64/open62541/include/ziptree.h:134-189 | the tree after any run is the canonical tree of its contents |
| ZipTreeHistory.HistoryIndependence | libs/x64/open62541/include/ziptree.h:134-189 | two runs ending with the same entries and distinct keys build the same tree |
| ZipTreeHistory.OneTreeIff | libs/x64/open62541/include/ziptree.h:18-21 | whatever the entries and ranks, all runs that end with the same entries build one tree if and only if no key repeats |
| ZipTreeHistory.AddsBuild | libs/x64/open62541/include/ziptree.h:134-139 | entries added in key order end up in the order in which they came |
| ZipTreeHistory.ReachableIff | libs/x64/open62541/include/ziptree.h:134-189 | the trees that runs build are exactly the sorted, rank-ordered trees of distinct entries |
| ZipTreeHistory.FindTopmost | libs/x64/open62541/include/ziptree.h:191-208 | find answers nothing exactly when the key is absent, else the leftmost highest-ranked entry of the key, which has all others of the key below it |
| ZipTreeHistory.IterVisitsAll | libs/x64/open62541/include/ziptree.h:230-242 | iteration calls back once for every entry |
| ZipTreeHistory.IterIsBottomUp | libs/x64/open62541/include/ziptree.h:230-237 | the callbacks of a subtree are one block that its root ends |
| ZipTreeHeap.InsertRec | libs/x64/open62541/include/ziptree.h:103-132 | in-place insertion performs the value insertion, keeps a proper tree, and writes links on the search path only |
| ZipTreeHeap.SurfaceFromLeft | libs/x64/open62541/include/ziptree.h:115-117 | the new element becomes the parent of the root and hands over its right side |
| ZipTreeHeap.SurfaceFromRight | libs/x64/open62541/include/ziptree.h:125-127 | the new element becomes the parent of the root and hands over its left side |
| ZipTreeHeap.ZipRec | libs/x64/open62541/include/ziptree.h:141-151 | in-place zipping performs the value zip and writes the two inner spines only |
| ZipTreeHeap.RemoveRec | libs/x64/open62541/include/ziptree.h:155-184 | in-place removal performs the value removal, answers the root unless it is the element, and leaves the element's own links as they were |
| ZipTreeHeap.NotOnPath | libs/x64/open62541/include/ziptree.h:155-184 | the element is not among the entries that its removal may relink |
| ZipTreeHeap.RemoveFromBothSides | libs/x64/open62541/include/ziptree.h:177-182 | with an equal key both sides are probed and relinked |
| ZipTreeHeap.RemoveKeepsOthers | libs/x64/open62541/include/ziptree.h:155-184 | exactly the other entries stay linked |
| ZipTreeHeap.RepresentedLinks | libs/x64/open62541/include/ziptree.h:43-48 | the tree determines every link of the heap |
| ZipTreeHeap.FindRec | libs/x64/open62541/include/ziptree.h:191-203 | the read-only recursion answers the top of the value search |
| ZipTreeHeap.IterRec | libs/x64/open62541/include/ziptree.h:230-237 | the callbacks come in post-order even when each one overwrites its entry |
| ZipTreeHeap.LogCallsBack | libs/x64/open62541/include/ziptree.h:230-237 | in that log every entry of the tree occurs exactly once, after all entries below it, and left sides come before right sides |
| ZipTreeHeap.Head.constructor | libs/x64/open62541/include/ziptree.h:39-39 | an initialised head is a valid empty tree |
| ZipTreeHeap.Head.Insert | libs/x64/open62541/include/ziptree.h:134-139 | sets the rank, keeps the head valid, links exactly one more entry, gives the canonical tree of the stable insertion |
| ZipTreeHeap.Head.Remove | libs/x64/open62541/include/ziptree.h:186-189 | keeps the head valid, unlinks exactly the entry, gives the canonical tree of the rest, and leaves the entry's links as they were; no-op on an absent entry |
| ZipTreeHeap.Head.Find | libs/x64/open62541/include/ziptree.h:205-208 | answers null exactly when the key is absent, else the topmost entry of the key: every other one lies in the subtree under it |
| ZipTreeHeap.FoundAbove | libs/x64/open62541/include/ziptree.h:191-208 | the subtree whose root is found holds every entry of the key |
| ZipTreeHeap.Head.Min | libs/x64/open62541/include/ziptree.h:210-218 | answers the first entry in order, or null on an empty tree |
| ZipTreeHeap.Head.Max | libs/x64/open62541/include/ziptree.h:220-228 | answers the last entry in order, or null on an empty tree |
| ZipTreeHeap.Head.Iter | libs/x64/open62541/include/ziptree.h:239-242 | calls back on every entry exactly once, after all entries below it and with its left side before its right side |
| ZipTreeHeap.InsertThenRemove | libs/x64/open62541/include/ziptree.h:134-189 | restores the root and every link of the heap |
| ZipRank.Ffs32 | libs/x64/open62541/include/ziptree.h:84-99 | answers the one-based position of the lowest set bit, 0 for zero, and the probe never overflows |
| CrcSpec.LongDivIsTheRemainder | libs/arm/boost/include/boost/crc.hpp:730-751 | schoolbook division yields the only quotient and remainder with dividend = quotient * divisor + remainder |
| CrcSpec.LongDivLinear | libs/arm/boost/include/boost/crc.hpp:730-751 | the remainder of a sum is the sum of the remainders |
| CrcSpec.StepsDivide | libs/arm/boost/include/boost/crc.hpp:730-770 | processing bits one at a time divides the message met with the initial remainder |
| CrcSpec.ChunkStep | libs/arm/boost/include/boost/crc.hpp:958-964 | the register's top met with incoming bits selects a partial remainder and the rest shifts up, for chunks of any length |
| CrcWords.LowStep | libs/arm/boost/include/boost/crc.hpp:735-750 | the bit step on a wider storage word is the division step on its low bits |
| CrcWords.EngineByteStep | libs/arm/boost/include/boost/crc.hpp:564-619 | one table lookup moves the register by one byte, in either direction of storage and for any width |
| CrcWords.ReflectedByteStep | libs/arm/boost/include/boost/crc.hpp:572-582 | a reflected byte step is the plain step on reversed register and byte |
| CrcWords.MessageBitAt | libs/arm/boost/include/boost/crc.hpp:772-812 | bit i of a message is bit i % 8 of byte i / 8, from the byte's most significant bit or, reflected, from its least |
| CrcWords.OutputBitAt | libs/arm/boost/include/boost/crc.hpp:814-823 | under either setting each bit of the output is a register bit changed by its bit of the final mask |
| CrcWords.ChecksumBitAt | libs/arm/boost/include/boost/crc.hpp:1025-1040 | the same for the checksum of a message |
| CrcWords.FilledInOneRound | libs/arm/boost/include/boost/crc.hpp:504-533 | over all 256 rounds each slot is filled in one round and in no other |
| CrcWords.SlotOfTwice | libs/arm/boost/include/boost/crc.hpp:530-531 | bit reversal permutes the 256 slots and is its own inverse |
| CrcEngines.Reflect | libs/arm/boost/include/boost/crc.hpp:307-326 | the loop reverses the low bits and leaves nothing above them |
| CrcEngines.HelperReflect | libs/arm/boost/include/boost/crc.hpp:573-574 | reflects or passes through by the template flag |
| CrcEngines.CrcBasic.constructor | libs/arm/boost/include/boost/crc.hpp:630-644 | the register starts as the initial remainder |
| CrcEngines.CrcBasic.Reset | libs/arm/boost/include/boost/crc.hpp:706-715 | the register becomes the new remainder |
| CrcEngines.CrcBasic.ProcessBit | libs/arm/boost/include/boost/crc.hpp:727-751 | one bit is one division step |
| CrcEngines.CrcBasic.ProcessBits | libs/arm/boost/include/boost/crc.hpp:753-770 | the low bits of a byte are processed, upper ones first |
| CrcEngines.CrcBasic.ProcessByte | libs/arm/boost/include/boost/crc.hpp:772-782 | a byte is processed, reversed if input is reflected |
| CrcEngines.CrcBasic.ProcessBytes | libs/arm/boost/include/boost/crc.hpp:784-812 | a buffer is processed as the bits of its bytes |
| CrcEngines.CrcBasic.GetInterimRemainder | libs/arm/boost/include/boost/crc.hpp:696-704 | answers the register with zeros above |
| CrcEngines.CrcBasic.Checksum | libs/arm/boost/include/boost/crc.hpp:814-823 | answers the register, reversed if asked, under the final mask |
| CrcEngines.CrcTable.DivideByte | libs/arm/boost/include/boost/crc.hpp:507-528 | the inner loop computes the remainder of the dividend byte |
| CrcEngines.CrcTable.FillSlot | libs/arm/boost/include/boost/crc.hpp:530-531 | a round fills its own slot and leaves every other slot as it was |
| CrcEngines.CrcTable.InitTable | libs/arm/boost/include/boost/crc.hpp:488-536 | the wrapping counter ends after exactly 256 rounds, one for each slot, with every slot holding its byte's remainder; a second call changes nothing |
| CrcEngines.CrcOptimal.constructor | libs/arm/boost/include/boost/crc.hpp:836-843 | the register starts as the initial remainder, stored reversed in a reflected engine, and the table is ready |
| CrcEngines.CrcOptimal.Reset | libs/arm/boost/include/boost/crc.hpp:923-929 | the register becomes the new remainder |
| CrcEngines.CrcOptimal.ProcessByte | libs/arm/boost/include/boost/crc.hpp:958-964 | one lookup processes the eight bits of a byte |
| CrcEngines.CrcOptimal.ProcessBytes | libs/arm/boost/include/boost/crc.hpp:947-982 | a buffer is processed as the bits of its bytes |
| CrcEngines.CrcOptimal.GetInterimRemainder | libs/arm/boost/include/boost/crc.hpp:910-916 | answers the register the right way round |
| CrcEngines.CrcOptimal.Checksum | libs/arm/boost/include/boost/crc.hpp:989-995 | reflecting only on disagreement of the two settings still yields the register under the output settings |
| CrcEngines.Crc | libs/arm/boost/include/boost/crc.hpp:1025-1040 | computes the checksum of the whole buffer |
| CrcEngines.AugmentedCrc | libs/arm/boost/include/boost/crc.hpp:1045-1076 | divides the initial remainder followed by the message, with no room added |
| CrcEngines.AugmentedLow | libs/arm/boost/include/boost/crc.hpp:1069-1072 | the byte leaving at the top selects what its division leaves in the rest |
| CrcTheorems.RunBoth | libs/arm/boost/include/boost/crc.hpp:730-995 | the bitwise and the table-driven engine give the same interim remainder and checksum on every input and setting |
| CrcTheorems.RegisterIsTheRemainder | libs/arm/boost/include/boost/crc.hpp:730-823 | from zero, the register is the one polynomial remainder of the message times x^n |
| CrcTheorems.AugmentedRemainder | libs/arm/boost/include/boost/crc.hpp:1064-1075 | n further bits behind a message leave the difference of those bits and the message's CRC |
| CrcTheorems.AugmentedCheck | libs/arm/boost/include/boost/crc.hpp:1045-1076 | check bytes leave zero exactly when they are the plain CRC; zero bytes leave the CRC itself |
| CrcTheorems.OwnChecksum | libs/arm/boost/include/boost/crc.hpp:1025-1076 | a message with its plain checksum behind it divides without residue, for any width of the storage words |
| CrcTheorems.CheckOwnChecksum | libs/arm/boost/include/boost/crc.hpp:1025-1076 | message plus its checksum bytes always passes |
| CrcBursts.StepsDifference | libs/arm/boost/include/boost/crc.hpp:730-770 | registers of two messages differ by the remainder of their difference, whatever the initial remainder |
| CrcBursts.BurstIsSeen | libs/arm/boost/include/boost/crc.hpp:727-751 | with a constant term in the divisor every burst error of up to n bits changes the register |
| CrcBursts.DivisorIsMissed | libs/arm/boost/include/boost/crc.hpp:727-751 | without it the divisor itself, fed bit by bit, is such a burst and goes unseen |
| CrcBursts.BurstsAreSeenIff | libs/arm/boost/include/boost/crc.hpp:727-751 | fed bit by bit, all such bursts are seen if and only if the lowest bit of the polynomial is set |
| CrcBursts.MissedMessagesCollide | libs/arm/boost/include/boost/crc.hpp:784-823 | without it two messages of bytes, one burst apart, have the same checksum under all settings |
| CrcBursts.ChecksumsSeeBurstsIff | libs/arm/boost/include/boost/crc.hpp:784-823 | the checksums of all messages of bytes one burst apart differ if and only if the lowest bit of the polynomial is set |
| CrcBursts.OddDivisorsSeeBursts | libs/arm/boost/include/boost/crc.hpp:93-98 | the same, on the number given as the polynomial |
| CrcBursts.XmodemMissesABurst | libs/arm/boost/include/boost/crc.hpp:95-95 | under the parameters of `crc_xmodem_type` two messages of three bytes, one burst apart, have the same checksum |
| CrcRfc1952.TablesAgree | libs/arm/boost/include/boost/crc.hpp:504-533 | the table built by two bit reversals is the table of least-significant-first division with the reversed polynomial |
| CrcRfc1952.UpdateReverses | libs/arm/boost/include/boost/crc.hpp:947-966 | the byte loop of RFC 1952 section 8 keeps the reversed register |
| CrcRfc1952.PolynomialReversed | libs/arm/boost/include/boost/crc.hpp:97-98 | 0x04C11DB7 reversed is 0xEDB88320 |
| CrcRfc1952.OnesAreSet | libs/arm/boost/include/boost/crc.hpp:97-98 | the mask has every bit set and is one less than a power of two |
| CrcRfc1952.Complements | libs/arm/boost/include/boost/crc.hpp:814-823 | applying it changes every bit |
| CrcRfc1952.GzipCrcIsCrc32 | libs/arm/boost/include/boost/crc.hpp:97-98 | the checksum of `crc_32_type`, with initial remainder and final mask 0xFFFFFFFF, is the CRC of RFC 1952 section 8 on every message |
| CrcRfc1952.Crc32 | libs/arm/boost/include/boost/crc.hpp:97-98 | the table-driven engine with these parameters computes it, in storage words of any width |
| CrcRfc1952.KnownAnswer | libs/arm/boost/include/boost/crc.hpp:97-98 | on the message FF FF FF FF 80 it is 0x12477CDF |
| Handshake.RunKeepsInv | src/server/north_data_communicate_stack.cpp:289-423 | every state of every interleaving keeps the handshake's invariant |
| Handshake.FlagsAreMonotone | src/server/north_data_communicate_stack.cpp:289-423 | in every interleaving pending flags only go down and success only goes up |
| Handshake.FlagNeedsItsReply | src/server/north_data_communicate_stack.cpp:399-414 | a flag is down only after a 200 reply to its own request |
| Handshake.UnaskedReplyCounts | src/server/north_data_communicate_stack.cpp:399-414 | such a reply counts although nothing was sent |
| Handshake.SuccessNeedsAllReplies | src/server/north_data_communicate_stack.cpp:320-325 | success implies all three flags down, each by its own 200 reply |
| Handshake.NoDeliveryBeforeSuccess | src/server/north_data_communicate_stack.cpp:415-423 | a batch is written only with the server published, all three replies received and success set, and it is the last message that arrived |
| Handshake.NodesWaitForSuccess | src/server/north_data_communicate_stack.cpp:415-423 | in every interleaving every node keeps its first value until success is set |
| Handshake.WorksOnLastReceived | src/server/north_data_communicate_stack.cpp:370-423 | the epoll thread is always at work on the last message that arrived |
| Handshake.EpollNeverStuck | src/server/north_data_communicate_stack.cpp:399-423 | it can always finish that message |
| Handshake.RearmLeavesSuccessUnset | src/server/north_data_communicate_stack.cpp:327-330 | a tick that re-arms the timer leaves success unset |
| Handshake.SuccessIsLast | src/server/north_data_communicate_stack.cpp:320-325 | after the tick that sets success the timer thread never steps again |
| Handshake.GuardAlwaysHolds | src/server/north_data_communicate_stack.cpp:293-293 | the test at the head of a tick never finds success set |
| Handshake.ChainEnds | src/server/north_data_communicate_stack.cpp:272-332 | once all acknowledgements are handled the timer thread has at most twelve steps left |
| Handshake.OneTickLeft | src/server/north_data_communicate_stack.cpp:272-332 | and at most one further tick starts |
| Handshake.OneSendLeft | src/server/north_data_communicate_stack.cpp:296-318 | and exactly the request that the tick under way has already decided to send is still sent, so at most one |
| Handshake.LastTickIsSilent | src/server/north_data_communicate_stack.cpp:296-318 | a tick that starts after the last acknowledgement sends nothing |
| Handshake.TimerNeverStuck | src/server/north_data_communicate_stack.cpp:272-332 | short of its end the timer thread can step, and its end means success |
| Handshake.TickSendsPending | src/server/north_data_communicate_stack.cpp:293-330 | an undisturbed tick sends each pending request once and no other, SubItem first and Suspend last, and re-arms exactly when one is pending, else sets success |
| Handshake.MessageAlone | src/server/north_data_communicate_stack.cpp:399-423 | an undisturbed message lowers exactly the replied flag on code 200, and writes its batch exactly with a server and success |
| Handshake.NorthStack.constructor | src/server/north_data_communicate_stack.cpp:38-48 | the flags start as in the source |
| Handshake.NorthStack.RunSubItemFromFcs | src/server/north_data_communicate_stack.cpp:289-332 | the handler is the machine's timer thread run without interruption: it queues the requests whose flags are up, each once and in order, and either re-arms or sets success |
| Handshake.QueueGains | src/server/north_data_communicate_stack.cpp:296-318 | the requests queued are those whose flags are up, each once, SubItem before and Suspend after all others |
| Handshake.NorthStack.SendRequests | src/server/north_data_communicate_stack.cpp:296-318 | the three sends queue the pending requests behind what was queued before |
| Handshake.NorthStack.ParseNorthMsg | src/server/north_data_communicate_stack.cpp:399-423 | the handler is the machine's epoll thread run without interruption: it lowers exactly the replied flag on code 200, and with a server and success a push sets each node to its largest link's last value |
| Handshake.NorthStack.ParseReply | src/server/north_data_communicate_stack.cpp:399-414 | a reply with code 200 lowers its own flag, any other reply nothing |
| NodeAddress.GetNamespaceIdAndIdentifier | include/common/opcua_tool.hpp:33-68 | splits at the first colon and leaves both outputs untouched without one |
| NodeAddress.TransferNamespaceIdAndIdentifier | include/common/opcua_tool.hpp:70-74 | a numeral below 0x10000, or below 0x100000000, gives its value, and any other text what the library leaves |
| NodeAddress.FindNode | src/server/north_data_communicate_stack.cpp:354-362 | a text "a:b" names the values of a and b, and a text without a colon what the library makes of empty texts |
| NodeAddress.DigitValue | include/common/opcua_tool.hpp:21-26 | one character is a numeral when it is a digit, and its value is its distance from '0' |
| NodeAddress.NumeralAppend | include/common/opcua_tool.hpp:21-26 | a numeral is a text of digits only |
| NodeAddress.ValueOfAppend | include/common/opcua_tool.hpp:21-26 | the digits in front of a numeral count for the power of ten that its length gives |
| NodeAddress.NoLeadingZero | include/common/opcua_tool.hpp:21-26 | printed numbers have no leading zero |
| NodeAddress.DecimalRoundTrip | include/common/opcua_tool.hpp:21-26 | a decimal numeral parses back to its number |
| NodeAddress.AddressRoundTrip | include/common/opcua_tool.hpp:33-74 | every 16-bit namespace and 32-bit identifier survives printing and parsing |
| NodeAddress.LinkedAddress | src/server/item_mq_msg.cpp:54-54 | "2:6005" names node 6005 of namespace 2 |
| PushedData.LastMentionWins | src/server/north_data_communicate_stack.cpp:437-474 | an id is in the batch exactly when mentioned, with the text of its last mention |
| PushedData.BatchReads | src/server/north_data_communicate_stack.cpp:437-474 | an id has a value exactly when mentioned, namely what the kind of its last mention reads as: "1", "0" or its own text |
| PushedData.LessAtDifference | src/server/north_data_communicate_stack.cpp:345-346 | the loop visits ids by their first difference |
| PushedData.LessThanExtension | src/server/north_data_communicate_stack.cpp:345-346 | and a proper prefix before its extensions |
| PushedData.DoubleLinks | src/server/north_data_communicate_stack.cpp:351-353 | exactly links to texts typed "Double" write, namely the node at the address of their text |
| PushedData.FirstLink | src/server/item_mq_msg.cpp:54-60 | id 0x80000000 of the repository's own tables writes node 2:6005 |
| PushedData.WinnerExists | src/server/north_data_communicate_stack.cpp:344-365 | every written node has a largest id that writes it |
| PushedData.WrittenStep | src/server/north_data_communicate_stack.cpp:344-365 | writing ids in ascending order makes each the winner of its node |
| PushedData.WrittenExists | src/server/north_data_communicate_stack.cpp:334-366 | the writes of a batch have a result, whatever the batch and the links |
| PushedData.PushMeaning | src/server/north_data_communicate_stack.cpp:415-423 | a handled push sets a node to the last mention of the largest id that writes it |
| PushedData.PushOnMaps | src/server/north_data_communicate_stack.cpp:334-366 | after a push every node shows what the last mention of its largest link reads as, by kind, or is kept when no mentioned id is linked to it |
| PushedData.DataShare.StoreMembers | src/server/north_data_communicate_stack.cpp:441-473 | one object's members override the collected values: true gives "1", false and null "0", every other kind its own text |
| PushedData.DataShare.ParseNorthMsgItemVal | src/server/north_data_communicate_stack.cpp:426-475 | the collected values are those of this message alone, by the kinds of the last mentions |
| PushedData.DataShare.WriteItem | src/server/north_data_communicate_stack.cpp:348-364 | one id writes the node at the address of its link's text if that is typed "Double", else none, and inserted defaults change no lookup |
| PushedData.DataShare.WriteItemValToOpcUaServerNode | src/server/north_data_communicate_stack.cpp:334-366 | every node gets its winner's value, all others keep theirs, and no later lookup changes |
| PushedData.DataShare.HandlePush | src/server/north_data_communicate_stack.cpp:415-423 | every node shows what the last mention of its largest "Double" link reads as, or is kept |

## Left out

- `libs/arm/open62541/include/ziptree.h` is a copy of the x64 file and is modelled once.
- Expected depth of zip trees: ranks are given, so no probability and no depth bound is claimed.
- The comparison callback of the zip tree is the order of integer keys; a callback that is not a total preorder is not modelled.
- The width limits of `crc.hpp` and its compiler workarounds (lines 25-58 and 583-597), and its getters and call operators, which only forward.
- `augmented_crc` below 8 bits, where its shift by `Bits - CHAR_BIT` is undefined.
- The flags of the handshake are read and written atomically and in program order; a data race without a lock has no defined meaning in the source, and none is modelled.
- Handshake.NoDeliveryBeforeSuccess: a batch is written in one step of the interleaving; only the epoll thread writes nodes in the model.
- PushedData.DataShare.WriteItemValToOpcUaServerNode: a node write is a map update, because the server's code is not part of this model.
- Message queues may lose or refuse messages: a request counts as sent when it is handed to the queue, and no delivery is claimed.
- The timer's five-second period, its error code, and the start-up of queues and threads.
- JSON parsing, JSON values that have no text, and the texts of numbers, which are the JSON library's.
- Stream extraction on text that is not a decimal numeral in range, conversion to double and node writes that the server refuses: parameters, or a map update.
- `libs/x64/open62541/include` other than `ziptree.h`, the OPC UA client and server calls, and the generated node set.
