# OCServer, verified

A Dafny model of the parts of OCServer whose correctness rests on an argument rather than on a
glance: its own wire code (the stream framer, the XXTEA cipher, the tagged serializer) and the
data structures and protocols of the libuv 1.20.3 sources it is built on (red-black tree, splay
tree, binary heap, circular queues, io watchers, thread pool, async wakeup, inotify lists, stat
polling, IPv6 text). `dafny verify dfyconfig.toml` verifies everything.

How the modules are cut:

* **Code that changes things in place is imperative here.** Pointer structures are classes with
  the source's links (`RedBlackTree.dfy`, `SplayTree.dfy`, `Heap.dfy`, `Queue.dfy`, `Walk.dfy`),
  buffers are arrays (`PacketSync.dfy`, `Xxtea.dfy`, `Inet.dfy`, `IoWatchers.dfy`), streams are
  fields (`Proto.dfy`). Each method is tied to a value-level specification, and what the source
  promises is proved about that value: `Frames` for the framer, `RedBlackModel`/`Insert`/`Remove`
  and `SplayModel`/`SplayLinks`/`SplayCost` for the trees, `XxteaSpec`/`XxteaMixing` for the
  cipher, `InetText`/`Inet6Text`/`Inet6Grammar`/`Inet6Canonical` for addresses,
  `ProtoWire`/`ProtoRoundTrip`/`ProtoOrder`/`ProtoBytes` for the serializer.
* **Protocols are state machines** whose events are critical sections, compare-and-swaps or
  callbacks, taken in any order (`ThreadPoolModel`, `AsyncModel`, `InotifyModel`, `FsPollModel`,
  `IoWatchersModel`). The theorems are about every run. Beside each machine a class has the
  source's functions on its fields, cut at the points where other code may come in between, with
  `View() == Next(old(View()), event)` as contract. Its `Valid()` is the machine's invariant, so
  that each method also says what the theorems promise its caller.
* **A specification function is pinned down apart from its body**: by position on the buffer
  (`NetBase`, `ProtoBytes`, `Xxtea`), by bits (`XxteaMixing`), by an independent grammar
  (`Inet6Grammar`, `Inet6Canonical`) or by what earlier events of a run say (`ReportedIff`,
  `WantsWhatWasStarted`, `FirstComeFirstServed`).
* A pointer structure is looked at as a value: `View()` is a map from nodes to cells. A method
  says how that value changes, lemmas say what the change keeps. The mirror image of a case of
  the red-black tree is proved from the case by reflecting the whole tree.

The framer's meaning is a one-pass scan of the whole byte string; every way of cutting the stream
into calls gives the same frames. The red-black tree is read off its root pointer into an ordinary
tree value, so that "search tree", "no red under red", "equal black counts" and the height bound
are the textbook statements. The serializer does not give back every value (a negative int that
fits a byte comes back zero-extended, a string of 128 bytes is refused, an entry with a bool for
its key is dropped); the model keeps the code as it is, gives those inputs, and proves exactly
which values come back, for all types.

Where code and comment disagree, the code is followed: `heap_remove`'s comment calls the last node
of the bottom row the "left-most"; the last case of the IPv4 test in `inet_ntop6` (a run of seven)
can never decide; `uv__io_stop` queues a watcher even if the kernel already knows its events.

## Model

| member | source | states |
|---|---|---|
| NetBase.HeaderRoundTrip | src/net_base.h:79-110 | the eight header bytes and the header determine each other: parsing what was written gives the header back, and eight bytes that parse to a header are the ones written for it |
| NetBase.NetPacketToChar | src/net_base.h:79-92 | version, header, tail and kind stand in the first four bytes, the payload length in the next four, most significant byte first, and nothing behind them changes |
| NetBase.CharToNetPacket | src/net_base.h:94-110 | the header read at any offset has the four bytes there as its fields and the next four, most significant first, as its length |
| Frames.ScanSplit | src/PacketSync.cpp:33-133 | incrementality: the frames of `a + b` are those of `a`, then those of what `a` left waiting followed by `b`, for all byte strings |
| Frames.ScanRest | src/PacketSync.cpp:47-63 | what is left waiting contains no frame, and scanning it again changes nothing |
| Frames.ScanExplains | src/PacketSync.cpp:98-131 | the stream is exactly discarded bytes, encoded frames and the waiting rest in order: no byte lost, duplicated or moved, and each delivered frame carries the receiver's marks and its own length |
| Frames.NothingMissed | src/PacketSync.cpp:98-116 | no discarded byte is the start of a frame that the string has in full: after a bad header or tail only that HEAD byte is given up |
| Frames.WaitsForMore | src/PacketSync.cpp:52-72 | what is kept waiting begins with HEAD and is either shorter than a header or a header with the receiver's marks and too few bytes behind it |
| Frames.ScanEncodedAll | src/PacketSync.cpp:147-158 | any prefix without HEAD followed by any list of encoded packets scans to exactly that list, whatever bytes the payloads hold |
| Frames.DeliveredIffFits | src/PacketSync.cpp:64-72 | a packet sent alone is delivered as itself if and only if it carries the receiver's marks and its declared length is its payload's length, within the countable range |
| PacketSyncs.PacketSync.Recvdata | src/PacketSync.cpp:33-133 | terminates; whatever was received before in whatever chunks, afterwards the frames found are those of the scan of the whole stream, and the callback was called for exactly the new ones, in order |
| PacketSyncs.PacketSync.ReceivesWhatWasSent | src/PacketSync.cpp:33-158 | if the stream so far is junk without HEAD and encoded packets, the frames found are that list, and nothing deliverable is kept |
| PacketSyncs.PacketSync.StartPacket | src/PacketSync.cpp:73-83 | a header found in the read buffer starts a packet: the packet buffer, grown if need be, holds a copy of what followed the header, and no content is lost |
| PacketSyncs.PacketSync.Rebuild | src/PacketSync.cpp:105-113 | on a bad tail the content is put back without its HEAD byte, in a read buffer grown if need be |
| PacketSyncs.PacketSync.Deliver | src/PacketSync.cpp:118-131 | exactly the frame's bytes leave the content, the frame is recorded and the callback gets it if one is set |
| PacketSyncs.PacketData | src/PacketSync.cpp:147-158 | HEAD, the header byte by byte, the payload and TAIL stand at their places, in the encoded form that the scan recognises |
| HeapOrder.SwapDown | External/libuv-1.20.3/src/heap-inl.h:220-229 | swapping a too great key with its least child moves the only violation down one level |
| HeapOrder.SwapUp | External/libuv-1.20.3/src/heap-inl.h:146-147 | swapping a too small key with its parent moves the only violation up one level |
| HeapOrder.RootIsLeast | External/libuv-1.20.3/src/heap-inl.h:33-39 | edge-wise order makes the first key a least one |
| HeapOrder.PathTo | External/libuv-1.20.3/src/heap-inl.h:122-124 | the computed bits, walked from the root low bit first, lead to the breadth-first position |
| Heaps.Heap.NodeSwap | External/libuv-1.20.3/src/heap-inl.h:72-104 | relinking two whole nodes and their neighbours exchanges them in breadth-first order and leaves a well linked complete tree |
| Heaps.Heap.Insert | External/libuv-1.20.3/src/heap-inl.h:106-148 | a complete, ordered, mutually linked tree stays one; its node set gains the new node |
| Heaps.Heap.Remove | External/libuv-1.20.3/src/heap-inl.h:150-237 | the same for the removal of any member node; its node set loses that node, and an empty heap is left alone |
| Heaps.Heap.Min | External/libuv-1.20.3/src/heap-inl.h:67-69 | null exactly for the empty heap, else a node with a least key |
| Heaps.Heap.Dequeue | External/libuv-1.20.3/src/heap-inl.h:239-241 | the node removed had a least key |
| RedBlackModel.RotLShape | External/libuv-1.20.3/include/tree.h:342-360 | a left rotation keeps the linked shape and the order of the nodes |
| RedBlackModel.RotRShape | External/libuv-1.20.3/include/tree.h:362-380 | a right rotation does, by reflection |
| RedBlackInsert.RecolorCase | External/libuv-1.20.3/include/tree.h:414-421 | with a red uncle, recolouring moves the one possible red-red pair to the grandparent |
| RedBlackInsert.InnerCase | External/libuv-1.20.3/include/tree.h:422-427 | the first rotation makes an inner grandchild an outer one and keeps everything else |
| RedBlackInsert.OuterCase | External/libuv-1.20.3/include/tree.h:428-429 | recolouring and the second rotation remove the red-red pair |
| RedBlackRemove.RedSibling | External/libuv-1.20.3/include/tree.h:459-464 | a red sibling is rotated up: the missing black stays where it is, under a red parent |
| RedBlackRemove.BlackNephews | External/libuv-1.20.3/include/tree.h:465-471 | with black nephews the missing black moves to the parent |
| RedBlackRemove.InnerNephew | External/libuv-1.20.3/include/tree.h:473-482 | an inner red nephew becomes an outer one |
| RedBlackRemove.OuterNephew | External/libuv-1.20.3/include/tree.h:483-489 | an outer red nephew repays the missing black |
| RedBlackRemove.SpliceBlack | External/libuv-1.20.3/include/tree.h:568-582 | taking a black node with at most one child out leaves at most one black missing, at that child |
| RedBlackRemove.InnerRemoval | External/libuv-1.20.3/include/tree.h:549-589 | a node with two children is replaced by its successor, in its place and colour, so that what is missing is missing where the successor was |
| RedBlackTrees.RBTree.InsertColor | External/libuv-1.20.3/include/tree.h:407-449 | terminates; from a tree wrong at one red pair at most it makes a valid red-black tree of the same nodes in the same order |
| RedBlackTrees.RBTree.Insert | External/libuv-1.20.3/include/tree.h:597-626 | a valid tree stays valid; either the node is added to the set, and no node had its key, or the node with that key is returned and nothing changes, as for a node that is in the tree already |
| RedBlackTrees.RBTree.RemoveColor | External/libuv-1.20.3/include/tree.h:451-528 | terminates; from a tree with one black missing at most it makes a valid red-black tree of the same nodes in the same order |
| RedBlackTrees.RBTree.Remove | External/libuv-1.20.3/include/tree.h:530-595 | for any node of a valid tree: the tree is valid again and its set has lost exactly that node |
| RedBlackTrees.RBTree.Find | External/libuv-1.20.3/include/tree.h:628-644 | the node with the key, or null exactly if there is none |
| RedBlackTrees.RBTree.NFind | External/libuv-1.20.3/include/tree.h:646-665 | the first node in order whose key is not less, or null if all keys are less |
| RedBlackTrees.RBTree.MinMax | External/libuv-1.20.3/include/tree.h:711-724 | the first or the last node in order, or null for the empty tree |
| RedBlackTrees.RBTree.Next | External/libuv-1.20.3/include/tree.h:667-687 | the node that follows in order, or null for the last |
| RedBlackTrees.RBTree.Foreach | External/libuv-1.20.3/include/tree.h:738-741 | the loop ends having visited every node once, in ascending key order |
| RedBlackReading.ValidMeansRedBlack | External/libuv-1.20.3/include/tree.h:60-61 | a valid tree, read from its root pointer, has its nodes' keys strictly increasing in order, a black root, no red under red, equal black counts on all paths, and a height of at most 2*log2(n+1) |
| SplayModel.SplayOrder | External/libuv-1.20.3/include/tree.h:209-242 | splaying keeps the in-order sequence of the whole tree |
| SplayModel.SplayRoot | External/libuv-1.20.3/include/tree.h:157-163 | the key sought is at the root if it is in the tree, else an in-order neighbour of its place: everything left of the root is below it, everything right above |
| SplayModel.InsertIs | External/libuv-1.20.3/include/tree.h:164-186 | insertion puts the node between the smaller and the greater keys of the sorted sequence, or changes nothing if the key is there |
| SplayModel.RemoveIs | External/libuv-1.20.3/include/tree.h:188-207 | removal takes exactly the node of that key out of the sequence, or changes nothing |
| SplayLinks.AssembleLinked | External/libuv-1.20.3/include/tree.h:112-117 | the four writes join the two spines hanging on the dummy node and the tree in hand into one tree |
| SplayLinks.RotateRightLinked | External/libuv-1.20.3/include/tree.h:88-92 | the writes of a rotation rotate the tree in hand and leave both spines as they are |
| SplayTrees.SplayHead.SplayTo | External/libuv-1.20.3/include/tree.h:209-242 | terminates; the linked tree becomes the splayed one, on the same nodes, in the counted number of turns |
| SplayTrees.SplayHead.Insert | External/libuv-1.20.3/include/tree.h:164-186 | a search tree stays one; the node set gains the node, or the node with its key is returned and the set is unchanged; its turns are those of the cost theorems |
| SplayTrees.SplayHead.Remove | External/libuv-1.20.3/include/tree.h:188-207 | a search tree stays one; the node set loses exactly the node of that key, if there is one |
| SplayTrees.SplayHead.Find | External/libuv-1.20.3/include/tree.h:128-137 | the node with the key, now at the root, or null exactly if there is none |
| SplayCost.SplayIsSplit | External/libuv-1.20.3/include/tree.h:209-242 | the top-down loop builds the tree that plain recursion on the part it goes on with gives |
| SplayCost.SplayCosts | External/libuv-1.20.3/include/tree.h:209-242 | one splay takes at most 5 log2(n) + 2 turns, less twice the growth of the sum of all subtrees' ranks |
| SplayCost.BalanceTheorem | External/libuv-1.20.3/include/tree.h:50-52 | on an initially empty tree m finds, insertions and removals, n of them insertions, take at most m (10 log2(n) + 4) turns of the splay loop |
| XxteaSpec.StepInverse | Core/src/xxtea.cpp:84-84 | a word's mask depends only on other words, so subtracting it undoes adding it and the other way round |
| XxteaSpec.SweepInverse | Core/src/xxtea.cpp:178-186 | the backward sweep undoes the forward sweep over any prefix, and conversely |
| XxteaSpec.WordsInverse | Core/src/xxtea.cpp:167-215 | for every key and every number of words, decryption and encryption are inverse permutations |
| XxteaSpec.SumNeverZero | Core/src/xxtea.cpp:192-212 | a multiple of DELTA by 1 to 63 is not 0 modulo 2^32, so `while (sum != 0)` counts the rounds |
| XxteaMixing.MixingBits | Core/src/xxtea.cpp:84-84 | bit by bit: of the words before and behind, which bits reach which bit of the two sums (right 5 and left 2, right 3 and left 4), and how these make the mask |
| XxteaMixing.EveryKeyCounts | Core/src/xxtea.cpp:84-84 | different key words give different masks, and so do different running sums |
| XxteaMixing.KeySchedule | Core/src/xxtea.cpp:84-84 | which key word a position uses, from the low bits of the position and of the sum |
| XxteaMixing.DeltaIsGolden | Core/src/xxtea.cpp:85-85 | DELTA is 2^32 divided by the golden ratio, rounded down |
| XxteaMixing.CipherEquations | Core/src/xxtea.cpp:167-190 | six rounds and 52 divided by the number of words; in the r-th, with r times DELTA as sum, each word gains the mask of its new predecessor and its old successor |
| Xxtea.UintEncrypt | Core/src/xxtea.cpp:167-190 | the array is encrypted in place, each position using its already changed predecessor |
| Xxtea.UintDecrypt | Core/src/xxtea.cpp:192-215 | the array is decrypted in place and the loop on the running sum terminates |
| Xxtea.ToUintArray | Core/src/xxtea.cpp:95-129 | byte i is the (i mod 4)-th lowest of word i / 4, the rest is zero, and the byte count is the last word if asked for |
| Xxtea.ToUbyteArray | Core/src/xxtea.cpp:131-165 | byte i is the (i mod 4)-th lowest of word i / 4, with a NUL behind the last; null exactly if the length word does not fit the words before it, including the wrap-around of the 64-bit size |
| Xxtea.FixedKey | Core/src/xxtea.cpp:87-92 | sixteen bytes, everything behind the first NUL cleared |
| Xxtea.Encrypt | Core/src/xxtea.cpp:281-285 | null exactly for empty input, else the ciphertext with a NUL behind it |
| Xxtea.EncryptedIs | Core/src/xxtea.cpp:217-252 | the ciphertext from first principles: the first block holds the plaintext and its length, each round sweeps the block before, the last block is the ciphertext, low byte first |
| Xxtea.Decrypt | Core/src/xxtea.cpp:287-291 | null exactly for empty input or a length word that does not fit, else the plaintext with a NUL behind it |
| Xxtea.DecryptEncrypted | Core/src/xxtea.cpp:217-291 | for every key and every non-empty input below 2^32 bytes, decrypting the encryption gives the input back, of a ciphertext four bytes longer than the padded input |
| Xxtea.EncryptDecrypted | Core/src/xxtea.cpp:217-291 | re-encrypting what was decrypted gives a whole-word ciphertext back if and only if its plaintext was zero-padded |
| Xxtea.SameKey | Core/src/xxtea.cpp:87-92 | keys that agree up to their first NUL, or in sixteen bytes, are the same key |
| ProtoRoundTrip.HeadTrip | Core/src/proto.cpp:160-177 | type and tag come back from a head if and only if the tag is not negative |
| ProtoRoundTrip.NumTrip | Core/src/proto.cpp:278-384 | a number comes back with its tag and its bytes used up if and only if it is not negative in a form narrower than its type, and not unsigned in a form wider than its reader takes |
| ProtoRoundTrip.StrTrip | Core/src/proto.cpp:439-480 | a string comes back exactly unless its length is 128 to 255, which its reader refuses |
| ProtoRoundTrip.BytesTrip | Core/src/proto.cpp:507-526 | a byte vector of up to 255 bytes comes back; a longer one never does |
| ProtoRoundTrip.RoundTrip | Core/src/proto.h:122-171 | for all types of nested lists and maps over scalars, strings and byte vectors, keys included, a value whose parts come back comes back itself, with its tag and leaving any suffix untouched |
| ProtoRoundTrip.RoundTripIff | Core/src/proto.h:122-171 | for all types and values, maps included: if and only if; a map with entries needs a key type whose reader returns the tag, which those of bool and of lists do not |
| ProtoOrder.LostInAnyOrder | Core/src/proto.h:122-171 | a value that does not come back is read, if at all, as one of fewer parts or of a greater sum of numbers, so that no reordering of map entries at any depth makes it the same |
| ProtoOrder.MapLostInAnyOrder | Core/src/proto.h:152-171 | the entries read for a map that does not come back are not the entries written in another order |
| ProtoBytes.FirstBytes | Core/src/proto.h:16-30 | every value begins with the code of its type and its tag, in one byte or, for tags from 15, in two |
| ProtoBytes.NumberBytes | Core/src/proto.cpp:528-617 | behind its head a number has none, one, two, four or eight bytes, the most significant first |
| ProtoBytes.StringBytes | Core/src/proto.cpp:650-669 | behind its head a string has its length, in one byte or four, and its characters |
| ProtoBytes.NumberAsText | Core/src/proto.cpp:454-475 | a number read as a string is its decimal digits, or the character for one byte |
| ProtoRoundTrip.StreamTrip | Core/src/proto.cpp:528-684 | values written one behind the other are read back one after the other |
| ProtoRoundTrip.NegativeIntLost | Core/src/proto.cpp:327-344 | the int -1 is read as 255 |
| ProtoRoundTrip.UnsignedShortLost | Core/src/proto.cpp:293-308 | the unsigned short 40000 is refused by its own reader |
| ProtoRoundTrip.MapKeyLost | Core/src/proto.h:152-171 | a map with the int key -1 is read with the key 255 |
| ProtoRoundTrip.BoolKeyLost | Core/src/proto.h:164-165 | the entry of a map with a bool key does not come back |
| ProtoRoundTrip.StringLost | Core/src/proto.cpp:446-449 | a string of 128 bytes is refused |
| Proto.ProtoOut.WriteLong | Core/src/proto.cpp:606-617 | the cascade of overloads appends the shortest signed form that holds the number |
| Proto.ProtoOut.WriteString | Core/src/proto.cpp:650-669 | appends the tagged string, or nothing if it is too long |
| Proto.ProtoOut.Write | Core/src/proto.h:199-222 | succeeds exactly if no string in the value is too long, and then appends the value's encoding |
| Proto.ProtoIn.ReadNumber | Core/src/proto.cpp:278-384 | reads what the integer overload of that width reads, and fails on wider heads |
| Proto.ProtoIn.Read | Core/src/proto.h:122-171 | reads what the decoding function says, entry by entry and element by element, and leaves the rest |
| InetText.Parse4Iff | External/libuv-1.20.3/src/inet.c:186-222 | inet_pton4 accepts exactly the texts that inet_ntop4 prints, and reads them back |
| Inet6Text.BestRunIs | External/libuv-1.20.3/src/inet.c:91-112 | the run written `::` is the first of the longest runs of at least two zero words, and there is none exactly if no two zero words are adjacent |
| InetText.HexIs | External/libuv-1.20.3/src/inet.c:139-139 | a group is printed in lower case without leading zeros |
| InetText.DecIs | External/libuv-1.20.3/src/inet.c:53-60 | an octet is printed in decimal without leading zeros |
| Inet6Canonical.CanonicalForm | External/libuv-1.20.3/src/inet.c:91-148 | the printed text means the address and has the form that RFC 5952 recommends: plain groups, `::` for the first longest run of two or more zero words and only then, a dotted quad exactly for IPv4-compatible and IPv4-mapped bytes |
| Inet6Canonical.CanonicalText | External/libuv-1.20.3/src/inet.c:113-148 | as characters: lower-case digits, colons and dots only; a dot exactly for those bytes, two colons in a row exactly if two adjacent words are zero |
| Inet6Text.TwoSides | External/libuv-1.20.3/src/inet.c:289-304 | any text with one `::` reads as the groups on both sides with zeros between, whichever run was left out |
| Inet6Grammar.Parse6Iff | External/libuv-1.20.3/src/inet.c:225-309 | inet_pton6 accepts exactly the texts of up to eight groups of one to four digits in either case, the last two possibly a canonical dotted quad, one or more of them left out at one `::`, and reads them as what they mean |
| Inet6Text.EightGroups | External/libuv-1.20.3/src/inet.c:244-288 | any text of eight groups reads as their bytes |
| Inet6Text.RoundTrip6 | External/libuv-1.20.3/src/inet.c:68-154 | for all sixteen bytes, inet_pton6 reads the canonical text back as them, the IPv4 forms included |
| Inet.FindRun | External/libuv-1.20.3/src/inet.c:91-112 | the loop over current and best run finds that run |
| Inet.Ntop6 | External/libuv-1.20.3/src/inet.c:68-154 | prints the canonical text and a NUL, or answers UV_ENOSPC and leaves the destination alone; the text always fits 46 characters |
| Inet.Ntop4 | External/libuv-1.20.3/src/inet.c:53-65 | prints the dotted quad padded with NULs, or answers UV_ENOSPC exactly if it does not fit |
| Inet.Pton4 | External/libuv-1.20.3/src/inet.c:186-222 | stores the four bytes or answers UV_EINVAL and leaves the destination alone |
| Inet.ShiftToEnd | External/libuv-1.20.3/src/inet.c:289-304 | the shift by hand over overlapping ranges moves the tail to the end and leaves zeros |
| Inet.Pton6 | External/libuv-1.20.3/src/inet.c:225-309 | stores the sixteen bytes or answers UV_EINVAL and leaves the destination alone |
| Inet.UvInetPton6 | External/libuv-1.20.3/src/inet.c:163-178 | a scope identifier is cut off; what is before it must fit the buffer |
| Inet.PrintedReadsBack | External/libuv-1.20.3/src/inet.c:157-183 | every printed address reads back as itself, also with any scope identifier behind it |
| Inet.TextFits | External/libuv-1.20.3/src/inet.c:80-80 | every text fits the temporary buffer with its NUL |
| ThreadPoolSafety.NextInv | External/libuv-1.20.3/src/threadpool.c:51-253 | every event keeps each request in exactly one place, with the function pointer and queue link that go with it |
| ThreadPoolSafety.DoneOnce | External/libuv-1.20.3/src/threadpool.c:233-253 | in every interleaving: workers call only the caller's function, never uv__cancelled, each at most once; each request is done at most once, and with UV_ECANCELED exactly if its function was never called |
| ThreadPoolSafety.CancelVerdict | External/libuv-1.20.3/src/threadpool.c:213-221 | uv_cancel succeeds if and only if no worker has taken the request |
| ThreadPoolSafety.CancelledStays | External/libuv-1.20.3/src/threadpool.c:207-230 | after a cancellation that succeeded the request is never run, and is done, if at all, with UV_ECANCELED, whatever follows |
| ThreadPoolSafety.NoCancelNoStatus | External/libuv-1.20.3/src/threadpool.c:250-251 | a request never cancelled is never done with UV_ECANCELED |
| ThreadPoolSafety.FirstComeFirstServed | External/libuv-1.20.3/src/threadpool.c:69-83 | no worker takes a request while one submitted before it is still queued |
| ThreadPoolSafety.ToldInOrder | External/libuv-1.20.3/src/threadpool.c:233-253 | a loop is told of its requests in the order in which they came back to it |
| ThreadPoolWakeup.NoLostWakeup | External/libuv-1.20.3/src/threadpool.c:58-101 | whenever something is queued and a worker is alive, some live worker is not in an unsignalled wait, although post signals only if idle_threads is positive |
| ThreadPoolWakeup.ExitComesLast | External/libuv-1.20.3/src/threadpool.c:70-83 | once the exit message was posted, no worker has left before every request queued earlier is off the queue |
| ThreadPoolDrain.RunsEnd | External/libuv-1.20.3/src/threadpool.c:57-91 | the pool's own steps come to an end from every reachable state |
| ThreadPoolDrain.StuckMeansDone | External/libuv-1.20.3/src/threadpool.c:104-125 | where no step is possible the queue is empty, or the exit message is at its head and every worker has left; all requests are done but those queued behind it |
| ThreadPoolDrain.EveryRequestDone | External/libuv-1.20.3/src/threadpool.c:233-253 | without an exit message every submitted request is done exactly once by then |
| ThreadPoolLocks.LocksAreSafe | External/libuv-1.20.3/src/threadpool.c:48-50 | in no interleaving of the functions' lock actions does a cycle of lock waits arise, and some thread can always go on |
| ThreadPools.ThreadPool.WorkerTake | External/libuv-1.20.3/src/threadpool.c:58-83 | keeps the invariants; the worker falls asleep only if nothing is queued, leaves only at the exit message, which stays for the others, and else holds a request that nobody called and that cannot be cancelled any more; somebody is awake for what is still queued |
| ThreadPools.ThreadPool.WorkerRun | External/libuv-1.20.3/src/threadpool.c:83-83 | what is called is the caller's function, for the first time |
| ThreadPools.ThreadPool.WorkCancel | External/libuv-1.20.3/src/threadpool.c:207-221 | keeps the invariants; answers 0 if and only if no worker has taken the request, and the request is then out of every worker's reach |
| ThreadPools.ThreadPool.WorkDoneTurn | External/libuv-1.20.3/src/threadpool.c:245-252 | keeps the invariants; the request at the head was not done before, and its status is UV_ECANCELED if and only if its function was never called |
| ThreadPools.ThreadPool.WorkSubmit | External/libuv-1.20.3/src/threadpool.c:195-204 | keeps the invariants; as long as a worker lives, one is awake for what is now queued |
| AsyncModel.NextInv | External/libuv-1.20.3/src/unix/async.c:59-120 | every step keeps it: a pending open handle has unread data, or a sender about to write, or is still to be scanned; a handle sent to is pending or has a sender about to mark it |
| AsyncModel.NoSendLost | External/libuv-1.20.3/src/unix/async.c:59-120 | in every run no pending handle is forgotten and callbacks do not outnumber sends |
| AsyncModel.EverySendDelivered | External/libuv-1.20.3/src/unix/async.c:100-119 | once nothing more is sent the protocol comes to rest, and then every send to a handle still open was followed by the start of its callback |
| Async.AsyncLoop.SendCompareExchange | External/libuv-1.20.3/src/unix/async.c:64-67 | keeps the invariant; a sender that leaves early leaves an open handle that is not forgotten, and the other has the handle waiting for its write |
| Async.AsyncLoop.ScanTurn | External/libuv-1.20.3/src/unix/async.c:100-119 | keeps the invariant; the handle is not pending any more and, unless a sender is about to mark it, is owed no callback that was not called; every other pending open handle stays pending and is not forgotten |
| Async.AsyncLoop.IoEnd | External/libuv-1.20.3/src/unix/async.c:100-120 | when the scan ends each pending open handle has data to read again or a sender about to write |
| Queues.InsertTail | External/libuv-1.20.3/src/queue.h:92-99 | on linked circular lists: the sequence gains the node at its end |
| Queues.InsertHead | External/libuv-1.20.3/src/queue.h:83-90 | at its beginning |
| Queues.Remove | External/libuv-1.20.3/src/queue.h:101-106 | it loses the node, wherever it is |
| Queues.Add | External/libuv-1.20.3/src/queue.h:52-59 | the two sequences are concatenated, also if one is empty |
| Queues.Split | External/libuv-1.20.3/src/queue.h:61-70 | the sequence is cut at the node, which starts the new list |
| Queues.Move | External/libuv-1.20.3/src/queue.h:72-81 | everything goes to the new header and the old one is empty |
| Walk.UvWalk | External/libuv-1.20.3/src/uv-common.c:347-363 | each original handle that is not internal is visited once, in order, and the queue ends up with the original handles each followed by what its callback appended |
| Walk.OrderKept | External/libuv-1.20.3/src/uv-common.c:347-363 | among the original handles the order is what it was |
| InotifyModel.ListLifetime | External/libuv-1.20.3/src/unix/linux-inotify.c:184-192 | in every run the list being iterated is never freed; between events a list exists exactly if an active handle watches it; stopping always finds its list |
| InotifyModel.EveryWatcherCalled | External/libuv-1.20.3/src/unix/linux-inotify.c:230-264 | for an event, exactly the watchers present at its beginning and not stopped before their turn are called, once each and in order, and none added meanwhile |
| InotifyModel.GoneIsStopped | External/libuv-1.20.3/src/unix/linux-inotify.c:330-347 | only a stop before its turn keeps a watcher from being called |
| InotifyModel.OrderKept | External/libuv-1.20.3/src/unix/linux-inotify.c:249-258 | watchers of one list keep their order, during events and from one to the next, unless one is stopped |
| InotifyModel.OrderOfCalls | External/libuv-1.20.3/src/unix/linux-inotify.c:249-258 | an event calls them in that order, and a watcher started between events comes last |
| Inotify.InotifyLoop.FsEventStop | External/libuv-1.20.3/src/unix/linux-inotify.c:330-347 | the handle leaves whichever queue it is in, and its list is freed if that is allowed |
| Inotify.InotifyLoop.FsEventStart | External/libuv-1.20.3/src/unix/linux-inotify.c:276-327 | the handle joins the list of its descriptor, made if need be; an active handle is refused |
| FsPollModel.ContextLifetime | External/libuv-1.20.3/src/fs-poll.c:56-125 | in every run each context is freed at most once, and a live one not stopped has exactly one of stat and timer outstanding, except inside its own callback |
| FsPollModel.FreedAtRest | External/libuv-1.20.3/src/fs-poll.c:222-224 | what is freed has no stat in flight and no active timer, and belongs to no handle |
| FsPollModel.EveryStoppedFreed | External/libuv-1.20.3/src/fs-poll.c:172-224 | no context leaks: from every reachable state the callbacks come to an end, and every context stopped before is freed then |
| FsPollModel.AssertionsHold | External/libuv-1.20.3/src/fs-poll.c:104-169 | the source's assertions hold, and a timer is neither closed twice nor started while closing |
| FsPollModel.StoppedForGood | External/libuv-1.20.3/src/fs-poll.c:172-182 | a stopped context's user callback is never called again, whatever happens |
| FsPollModel.CallsOnlyActive | External/libuv-1.20.3/src/fs-poll.c:184-203 | a user callback runs only for a context that its handle still has, and only for a new error or a change |
| FsPollModel.ReportedIff | External/libuv-1.20.3/src/fs-poll.c:184-206 | in every run a stat of a context not stopped is reported if and only if it is an error other than the previous result, a success after an error, or a success that found something else than the one before; the first success is silent, and the user gets the old and the new result |
| FsPollModel.StartedAsAsked | External/libuv-1.20.3/src/fs-poll.c:56-101 | a started context polls at the interval asked for, 1 for 0, as long as it lives |
| FsPollModel.GridStart | External/libuv-1.20.3/src/fs-poll.c:159-169 | the grid of the polls begins when a stat begins and moves at no other time |
| FsPollModel.RearmGrid | External/libuv-1.20.3/src/fs-poll.c:213-218 | the timer is due at the first start + k * interval after now |
| FsPoll.Poller.PollCb | External/libuv-1.20.3/src/fs-poll.c:172-203 | the nested tests take the step of the state machine for which ReportedIff is proved, and the invariant is kept |
| FsPoll.Poller.PollStop | External/libuv-1.20.3/src/fs-poll.c:104-125 | the context loses its parent, and its timer is closed if it is active |
| Bits.NextPowerOfTwo | External/libuv-1.20.3/src/unix/core.c:785-794 | smearing the bits gives the least power of two not below the argument, and 0 where 32 bits do not hold it |
| IoWatchersModel.WatchersConsistent | External/libuv-1.20.3/src/unix/core.c:831-915 | in every run nfds counts the table's entries; a watcher is in the table exactly if it wants events; it is queued if the kernel is to be told; queued watchers satisfy the poll's assertions; an empty table means an empty queue; the kernel's epoll set holds what the watchers take it to hold |
| IoWatchersModel.FlushTells | External/libuv-1.20.3/src/unix/linux-core.c:217-255 | after the flush the epoll set has for every watcher's descriptor just the events it wants, and the queue is empty |
| IoWatchersModel.WantsWhatWasStarted | External/libuv-1.20.3/src/unix/core.c:848-905 | in every run a watcher wants an event if and only if the last start or stop that names it was a start, and it was not closed since |
| IoWatchersModel.KernelReports | External/libuv-1.20.3/src/unix/linux-core.c:217-255 | after a flush the kernel reports for a descriptor exactly those events |
| IoWatchersModel.OpSucceeds | External/libuv-1.20.3/src/unix/linux-core.c:233-252 | EPOLL_CTL_MOD is only used on known descriptors; EPOLL_CTL_ADD fails exactly for one that was watched before, and EPOLL_CTL_MOD succeeds then, so that neither abort() is reached and the assertion holds |
| IoWatchers.IoLoop.MaybeResize | External/libuv-1.20.3/src/unix/core.c:796-828 | the table grows to the least power of two minus 2 that is enough, with its entries and the two fakes behind it preserved |
| IoWatchers.IoLoop.IoStart | External/libuv-1.20.3/src/unix/core.c:848-873 | the watcher wants what it wanted and all of the mask, no other watcher changes, and it is registered and queued unless the kernel knows its events |
| IoWatchers.IoLoop.IoStop | External/libuv-1.20.3/src/unix/core.c:876-905 | the watcher wants what it wanted without the mask, no other watcher changes, and it leaves table and queue if nothing is left; its assertions hold |
| IoWatchers.IoLoop.PollFlush | External/libuv-1.20.3/src/unix/linux-core.c:217-255 | the loop over the queue, with its system calls and their error path, does the flush, its assertions holding for every watcher |
| IoWatchers.IoLoop.IoClose | External/libuv-1.20.3/src/unix/core.c:908-915 | the watcher is out of table, queue and epoll set |

## Left out

- PacketSyncs.PacketSync.Recvdata: does not model a header that declares a payload above 2147483646 bytes, where the casts to `int` at src/PacketSync.cpp:78-79 overflow; its precondition is that the scan reaches no such header.
- PacketSyncs.PacketSync.SetHaT: does not model a change of the marks after bytes were received.
- PacketSyncs.PacketSync.Deliver: does not model a packet callback that calls the framer itself.
- Xxtea.Encrypt: does not model inputs of 2^32 bytes and more, whose length word would be truncated.
- Proto.ProtoIn.Read: does not model what the reader makes of a stream that ends inside a value, where uninitialised variables are used, nor the text form of a float read as a string; both are failures here.
- ProtoRoundTrip.RoundTripIff: compares maps by their entries in the order of assignment, where a std::map sorts them; that a map is not lost into another order of its entries is stated for values whose reader takes just their bytes (ProtoOrder.MapLostInAnyOrder), and not for byte vectors of more than 255 bytes in a map, whose left-over bytes may be read as entries.
- Proto.ProtoOut.WriteString: does not model strings of 2^31 bytes and more, whose length wraps in an `int` and may pass the length test.
- IoWatchers.IoLoop.IoStart: does not model descriptors above 2147483645, for which the table size wraps to zero.
- Serializer: floats, structs, skipping of fields and the display class.
- Framer and loop plumbing: sockets, TLS and the event dispatch that feed bytes to the framer.
- Comparison functions of the trees and the heap are comparisons of integer keys; the 32-bit wrap of the heap's element count is not modelled.
- RB_PREV, the safe and reverse iteration macros, SPLAY_NEXT and SPLAY_MINMAX: the mirror image or a part of what is proved.
- Thread pool: creation of the threads, the fork handler and joining; several requests sharing one struct; a cancellation after the request is done.
- Async: creation of the descriptor, the fork handler, and a send to a handle that is closed.
- Inotify: the parsing of the kernel's event records and the fork handler; the tree of lists is a map, the tree itself being proved separately.
- Stat polling: failure to allocate or to start a stat, and which fields the comparison of two stat results looks at: a result stands for them.
- The epoll wait loop behind the flush, and the invalidation of events already fetched.
- Memory exhaustion and weak memory orders: allocation succeeds, locked regions and compare-and-swaps are atomic.
