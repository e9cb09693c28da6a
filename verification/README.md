# Verified models of got's portable algorithms

This project models the self-contained algorithms that got (Game of Trees) carries in `compat/` and two state
machines of `got/got.c`, and proves what they are for. The code is imperative, and so is the model: heap nodes whose
link records are rewritten, arrays that are sorted and filled in place, contexts and queues whose fields change, and
loops with invariants. Every such method is proved against a specification function or an abstract value, and the
promises are theorems about that.

| modules | what they model |
|---|---|
| `TreeShape`, `TreeOrder`, `RedBlackLinks`, `RedBlackBalance`, `RedBlackTree`, `RedBlackWalk` | the red-black trees of `compat/tree.h` on heap nodes with parent links |
| `SplayLinks`, `SplayTree` | the top-down splay trees of the same header |
| `StableOrder`, `MergeSort`, `MergeSortRuns`, `MergeSortSetup` | the natural merge sort of `compat/merge.c` |
| `ImsgWire`, `IbufOps`, `Imsg`, `ImsgNet`, `ImsgChannel` | the imsg message protocol |
| `BlockFold`, `SipHash`, `SipHashExample`, `Sha256Bits`, `Sha256Transform`, `Sha256Constants`, `Sha256`, `Sha256Context` | the two streaming hashes |
| `Base64`, `Base64Codec` | `b64_ntop` and `b64_pton` |
| `Rebase`, `Histedit`, `HisteditScript` | replaying a branch across interruptions; histedit scripts |
| `FmtScaled`, `ScanScaled`, `ScanRoundTrip` | scaled numbers such as `12.3K` |
| `Common` | optional values, white space and joining pieces |

The main results are these.

- A red-black tree, taken as heap nodes with left, right, parent and colour, stays a red-black tree under every
  sequence of inserts and removes. Its contents are those of a sorted list treated likewise, and its height is at
  most 2 lg(n + 1). Walking with a saved successor visits every node once while nodes are removed.
- Splaying keeps the in-order sequence and brings the sought node, or a neighbour of the key, to the root.
- The merge sort returns the one sorted and stable rearrangement of its input, for every length and every total
  preorder, whichever way its searches go.
- Every run of an imsg channel, with any partial writes and reads, is a run of a pure machine on message bytes. The
  messages composed are exactly those of its steps that fit, the messages obtained are a prefix of them, and all of
  them once nothing is under way. Every descriptor handed to the sender is held or closed by it, and every one that
  arrived at the receiver is held, closed or handed out, exactly once.
- SHA-256 and SipHash give the same result for every split of the message, namely the one of their published
  definitions; both forms of the SHA-256 transform and the interleaved SipRound compute the published functions.
- Base64 text decodes exactly if it is, white space aside, the encoding of bytes that fit.
- A rebase that is stopped and continued in any way merges every first-parent commit after the common ancestor once,
  oldest first, each against its first parent.

What the models share with their specifications is pinned by laws of its own: the bit functions, constants and padding
of the hashes, the alphabet of Base64, the fields of a message header, the commands and lines of a script, recorded
parents, and the letters of units.

Where the code falls short of what a reader might expect, the model keeps the code's behaviour and states exactly
when the expectation holds:

- `imsgbuf_flush` is sure to end if no batch of the queue is without bytes (`Imsg.Imsgbuf.Flush`), and only then:
  otherwise writes that take a byte whenever one is offered can go on forever (`IbufOps.NeverEnds`). A queue is of the
  first kind if and only if no position is blocked (`IbufOps.SendsIff`); an empty ibuf at its end, or before one with
  a descriptor, is blocked (`IbufOps.EmptyBlocks`), and `imsg_compose_ibuf` with an empty ibuf makes such a queue.
- A stream is read back if and only if every message fits the receiver's limit (`ImsgWire.ParseAll`).
- `b64_pton` without a target accepts text whose last letter has bits left over (`Base64.LooseIsWeaker`). It accepts
  exactly the text that is an encoding once these bits are cleared (`Base64.LooseCanonical`), and decoding into a target
  accepts such text if and only if the letter's value is a multiple of 16 before two pads, or of 4 before one
  (`Base64.StrictIff`).
- `collect_commits` is not called for a branch whose head has no parent, so nothing is collected there. For any
  other branch it fails exactly if the stop commit is not on the first-parent chain or a change leaves the path
  prefix (`Rebase.CollectCommits`).
- `scan_scaled` drops a tenth above six of a positive number in the largest unit, so what `fmt_scaled` shows there reads
  back to within 0.06 unit if and only if the number is negative or its tenth is below seven. The arithmetic overflows
  exactly for a positive 8.0E and for a negative number whose tenth is nine (`ScanRoundTrip.ScanLargest`).
- A histedit script can pass the check although a fold in it is lost: exactly if only folds and drops follow it, the
  last a drop (`Histedit.FoldLost`, `Histedit.FoldLostExample`).
- `SPLAY_REMOVE` returns its argument, not the node it took out; the two differ when the caller passes a key.

## Model

| member | source | states |
|---|---|---|
| `RedBlackLinks.RotateLeftRep` | compat/tree.h:335-353 | after the link updates of a left rotation, the links of the whole heap tree represent the rotated tree in the same place |
| `RedBlackLinks.RotateRightRep` | compat/tree.h:355-373 | the same for a right rotation |
| `RedBlackLinks.RotatedLeftFacts` | compat/tree.h:335-353 | a left rotation keeps the in-order sequence and the node set |
| `RedBlackTree.Head.RotateLeft` | compat/tree.h:335-353 | the field assignments, including the parent's link or the root, turn the heap tree into the rotated one |
| `RedBlackTree.Head.RotateRight` | compat/tree.h:355-373 | the same for the right rotation |
| `RedBlackBalance.PlugRedBlack` | compat/tree.h:46-51 | the colour and black-count conditions of a tree split into those of a subtree and of the rest around it, both ways |
| `RedBlackBalance.GrownRecolour` | compat/tree.h:408-414 | with a red uncle, recolouring moves the one possible red pair two levels up |
| `RedBlackBalance.GrownOuter` | compat/tree.h:421-422 | with a black uncle, one rotation and two colours end the insertion |
| `RedBlackBalance.SiblingExists` | compat/tree.h:448-456 | while a path is one black node short, the sibling is never null |
| `RedBlackBalance.ShortFarNephew` | compat/tree.h:474-480 | with a red far nephew, the final rotation restores every condition |
| `RedBlackTree.Head.InsertColor` | compat/tree.h:400-442 | from any tree that violates at most "no red below red" at the new node, the loop ends with a red-black tree of the same in-order sequence |
| `RedBlackTree.Head.Insert` | compat/tree.h:587-616 | returns an equal node and changes nothing at all, or the key was absent and the valid tree holds the sorted sequence with exactly this node put in |
| `RedBlackTree.Head.RemoveColor` | compat/tree.h:444-518 | from any tree one black node short at one place, the loop ends with a red-black tree of the same in-order sequence |
| `RedBlackTree.Head.Relink` | compat/tree.h:529-568 | the successor is cut out of the right subtree and takes over the links and colour of the removed node; parent and child handed to the rebalancing are those of the cut |
| `RedBlackTree.Head.RemoveInner` | compat/tree.h:529-585 | removing a node with two children gives a valid tree without exactly that node |
| `RedBlackTree.Head.RemoveOuter` | compat/tree.h:569-585 | the same for a node with at most one child |
| `RedBlackTree.Head.Remove` | compat/tree.h:520-585 | any node of a valid tree: a valid tree whose sequence and node set are the old ones without that node, and the node itself is returned |
| `RedBlackWalk.Find` | compat/tree.h:618-634 | a node with the key, or null exactly if no node has it |
| `RedBlackWalk.NFind` | compat/tree.h:636-655 | the first node in order whose key is not below the sought one, or null |
| `RedBlackWalk.Min` | compat/tree.h:701-714 | the first node in order, null for an empty tree |
| `RedBlackWalk.Max` | compat/tree.h:701-714 | the last node in order, null for an empty tree |
| `RedBlackWalk.Next` | compat/tree.h:657-677 | the node after the given one in order, or null |
| `RedBlackWalk.Prev` | compat/tree.h:679-699 | the node before the given one in order, or null |
| `RedBlackWalk.ForEach` | compat/tree.h:728-731 | visits exactly the in-order sequence |
| `RedBlackWalk.ForEachReverse` | compat/tree.h:738-741 | visits exactly the reverse of it |
| `RedBlackWalk.ForEachSafe` | compat/tree.h:733-736 | visits every node once in order although any set of the current nodes is removed, and what remains is the rest |
| `RedBlackWalk.Run` | compat/tree.h:46-54 | after every sequence of inserts and removes the tree is valid, its contents are those of the sorted list treated likewise, and 2^height is at most (n + 1)^2 |
| `RedBlackWalk.HeightBound` | compat/tree.h:53-54 | a red-black tree of n nodes has height at most 2 lg(n + 1) |
| `SplayLinks.MiddleRotateRight` | compat/tree.h:81-85 | the link updates of SPLAY_ROTATE_RIGHT rotate the middle tree and leave the two side trees alone |
| `SplayLinks.MiddleRotateLeft` | compat/tree.h:87-91 | the same for SPLAY_ROTATE_LEFT |
| `SplayTree.SplayHead.LinkLeft` | compat/tree.h:93-97 | the root and its right subtree move to the end of the right tree, and the left child becomes the root |
| `SplayTree.SplayHead.LinkRight` | compat/tree.h:99-103 | the mirror image |
| `SplayTree.SplayHead.Assemble` | compat/tree.h:105-110 | the middle tree gets the left and the right tree as its subtrees |
| `SplayTree.SplayHead.Splay` | compat/tree.h:202-235 | for every comparison whose sign falls along the order, the in-order sequence stays, the loop ends, and the root compares equal or is the neighbour of the sought key on one side |
| `SplayTree.SplayHead.MinMax` | compat/tree.h:237-271 | the first or the last node comes to the root, the sequence stays |
| `SplayTree.SplayHead.Find` | compat/tree.h:121-130 | a node with the key, or null exactly if there is none; the sequence stays |
| `SplayTree.SplayHead.Insert` | compat/tree.h:157-179 | acts as sorted-set insertion, or returns the equal node and keeps the sequence |
| `SplayTree.SplayHead.Remove` | compat/tree.h:181-200 | returns null and keeps the sequence exactly if the key is absent; otherwise the sequence loses exactly the node with that key |
| `StableOrder.StableUnique` | compat/merge.c:96-230 | two sorted rearrangements that keep the order of equal elements are equal |
| `StableOrder.StableSortCorrect` | compat/merge.c:96-230 | the reference insertion sort is sorted, stable and a permutation |
| `StableOrder.StablePermutes` | compat/merge.c:96-230 | keeping every class of equal elements in order makes a permutation |
| `MergeSort.FindEnd` | compat/merge.c:149-187 | from either entry and for either value of `big`, the result is the first position with cmp(q, b) <= sense, or the end of the run |
| `MergeSort.Exponential` | compat/merge.c:152-187 | the doubling, binary and fast-case searches find the same position |
| `MergeSort.Stretch` | compat/merge.c:139-187 | the elements up to that position and then q are exactly how the merge of the two runs goes on |
| `MergeSort.MergePair` | compat/merge.c:134-217 | the target range receives the merge of the two runs and nothing else changes |
| `MergeSort.MergeSorted` | compat/merge.c:139-216 | the merge of two sorted runs is sorted |
| `MergeSort.MergeStable` | compat/merge.c:139-216 | and keeps the order of equal elements of their concatenation |
| `MergeSortRuns.Pass` | compat/merge.c:129-223 | a pass keeps a chain of sorted runs that covers the array, is stable, and leaves at most half the runs, rounded up |
| `MergeSortSetup.InsertionSort` | compat/merge.c:329-343 | sorts its segment, stably, and touches nothing else |
| `MergeSortSetup.Reverse` | compat/merge.c:240-249 | reverses a segment in place |
| `MergeSortSetup.ReverseStable` | compat/merge.c:302-308 | reversing a strictly descending run sorts it and is stable |
| `MergeSortSetup.CloseRun` | compat/merge.c:302-308 | a run of one sense becomes ascending, stably, and nothing else changes |
| `MergeSortSetup.Pairwise` | compat/merge.c:291-296 | a section of short pairs becomes a chain of sorted pairs, stably |
| `MergeSortSetup.Natural` | compat/merge.c:297-314 | a longer section becomes a chain of sorted runs, the last of which may go on into the sorted tail |
| `MergeSortSetup.Setup` | compat/merge.c:257-323 | the first pass leaves a chain of ascending runs that covers the array, stably |
| `MergeSortSetup.Sort` | compat/merge.c:96-230 | refuses too small elements and changes nothing; otherwise the array is the stable sort of what it was |
| `ImsgWire.PutGetHdr` | compat/imsg.c:299-322 | a header reads back from its sixteen bytes |
| `ImsgWire.GetPutHdr` | compat/imsg.c:353-361 | and sixteen bytes are those of the header they read as |
| `ImsgWire.DecodeEncode` | compat/imsg.c:112-132 | a message decodes from its encoding with equal type, id, pid, mark and data |
| `ImsgWire.EncodeLayout` | compat/imsg.h:51-56 | on the wire: type, length with the mark in its top bit, id and pid, four little-endian bytes each, then the data |
| `ImsgWire.DecodeLayout` | compat/imsg.c:112-132 | the same places are read |
| `ImsgWire.MsgLenIs` | compat/imsg.c:364 | the length of a message is its second field without the mark |
| `ImsgWire.ParseContinue` | compat/imsg-buffer.c:753-802 | parsing two pieces is parsing the first and going on from its tail |
| `ImsgWire.ChunkingIndependent` | compat/imsg-buffer.c:753-833 | reading in any chunks ends as reading the concatenation |
| `ImsgWire.ParseAll` | compat/imsg.c:353-378 | the stream of some messages parses to exactly these if and only if each fits the receiver's limit |
| `ImsgWire.ParsePrefix` | compat/imsg-buffer.c:753-802 | every prefix of such a stream parses to a prefix of the messages and a rest of one message |
| `IbufOps.Add` | compat/imsg-buffer.c:98-144 | fails exactly on a stack buffer or past the maximum, otherwise appends to the data and keeps the rest |
| `IbufOps.Set` | compat/imsg-buffer.c:241-264 | fails exactly outside the data, otherwise replaces these bytes only |
| `IbufOps.Get` | compat/imsg-buffer.c:407-418 | fails exactly if there are too few bytes, otherwise splits them off |
| `IbufOps.PendingDrained` | compat/imsg-buffer.c:939-955 | draining n bytes drops exactly the first n pending bytes |
| `IbufOps.FdsDrained` | compat/imsg-buffer.c:939-955 | the descriptors of the queue are those of the ibufs taken off, then those left |
| `IbufOps.DrainedAll` | compat/imsg-buffer.c:939-955 | draining everything leaves exactly the empty ibufs at the end |
| `IbufOps.FlushEmpties` | compat/imsg-buffer.c:939-955 | it leaves nothing if and only if the last ibuf is not empty |
| `IbufOps.NoneEmptySends` | compat/imsg-buffer.c:701-711 | a queue without empty ibufs has no batch without bytes |
| `IbufOps.NeverEnds` | compat/imsg.c:88-96 | if some batch has no bytes, the queue is not empty after any number of writes that take a byte whenever one is offered |
| `IbufOps.SendsIff` | compat/imsg-buffer.c:701-711 | every batch has bytes if and only if at no position all ibufs that can travel together are empty |
| `IbufOps.EmptyBlocks` | compat/imsg-buffer.c:701-711 | an empty ibuf at the end of the queue, or before one with a descriptor, makes a batch without bytes |
| `Imsg.Imsgbuf.Drain` | compat/imsg-buffer.c:939-955 | the queue becomes the drained one, the dropped descriptors are closed in order, `queued` stays the length of the list |
| `Imsg.Imsgbuf.MsgbufWrite` | compat/imsg-buffer.c:684-751 | the bytes sent are the first pending ones and the queue is what is left of it; the descriptor sent and closed is that of the first buffer, before any byte of it was sent, and no other; when no byte is offered, nothing leaves the queue and nothing will be offered next time |
| `Imsg.Imsgbuf.Flush` | compat/imsg.c:88-96 | if every write takes a byte and no batch is without bytes, it ends with all bytes sent in order; a queue of fewer than 2^32 buffers is then empty |
| `Imsg.Imsgbuf.Close` | compat/imsg.c:335-345 | patches the length and the mark in place and queues exactly the encoding |
| `Imsg.Imsgbuf.Compose` | compat/imsg.c:188-204 | refuses a message past the limit, also where the size wraps, and changes nothing; otherwise appends one buffer with its encoding and holds its descriptor |
| `Imsg.Imsgbuf.ComposeV` | compat/imsg.c:206-228 | the same for data in pieces |
| `Imsg.Imsgbuf.ComposeIbuf` | compat/imsg.c:234-268 | the same for a header and the caller's ibuf in two buffers; on failure the ibuf's descriptor is closed; an empty ibuf leaves a queue that a flush need not finish |
| `Imsg.Imsgbuf.ParseHdr` | compat/imsg.c:353-378 | refuses a length out of range, otherwise opens a buffer of that size and takes the descriptor exactly if the header is marked |
| `Imsg.Imsgbuf.Absorb` | compat/imsg-buffer.c:773-786 | the message in progress takes what it needs, is queued when complete, and the two calls that must not fail do not |
| `Imsg.Imsgbuf.ReadProcess` | compat/imsg-buffer.c:753-802 | afterwards the queued messages and the tail are those of parsing everything received; less than a header is left, nothing while a message is in progress; a descriptor not taken is closed |
| `Imsg.Imsgbuf.Read` | compat/imsg-buffer.c:804-833 | the same in terms of the tail before the read and the new bytes; an empty read is the end of file |
| `Imsg.Imsgbuf.Receive` | compat/imsg.c:111-132 | hands out the oldest complete message, decoded, with its descriptor |
| `ImsgNet.RunSent` | compat/imsg.c:188-268 | the messages composed in a run are those of its steps that fit the sender's limit, in order |
| `ImsgNet.ItemsWritten` | compat/imsg-buffer.c:684-751 | a write does to the ibufs what dropping bytes and the first descriptor does to the data |
| `ImsgChannel.Channel.Delivery` | compat/imsg.c:111-132 | in every reachable state the messages obtained are a prefix of those composed, and equal them once nothing is under way |
| `ImsgChannel.Channel.StepWrite` | compat/imsg-buffer.c:684-751 | a write is a step of the machine, and the descriptors that leave are exactly those closed |
| `ImsgChannel.Channel.StepRead` | compat/imsg-buffer.c:753-833 | a read is a step of the machine, and the receiver holds in addition exactly the descriptor that arrived |
| `ImsgChannel.Channel.StepReceive` | compat/imsg.c:111-132 | getting is a step of the machine, and hands out exactly the descriptor of the message |
| `ImsgChannel.Channel.Run` | compat/imsg-buffer.c:651-802 | after any steps the state is that of the machine; what was composed is what the steps composed, what was obtained is a prefix of it; the sender holds or closed what the steps gave it, the receiver holds, closed or handed out what arrived |
| `BlockFold.Fill` | compat/sha2.c:535-557 | a piece that completes a block is hashed with the bytes that waited before it |
| `BlockFold.Wait` | compat/sha2.c:542-562 | a piece that does not complete a block leaves the chaining value and waits |
| `SipHash.Context.Rounds` | compat/siphash.c:157-179 | the interleaved steps are the SipRounds of the paper |
| `SipHash.Context.CRounds` | compat/siphash.c:181-189 | one message word is compressed as in the paper |
| `SipHash.Counter` | compat/siphash.c:81-82 | the wrapping of the 32-bit counter shows neither modulo 8 nor modulo 256 |
| `SipHash.PaddedBytes` | compat/siphash.c:124-127 | after the message come zeros and, in the last byte of a word, its length modulo 256 |
| `SipHashExample.PaperExample` | compat/siphash.c:145-189 | SipHash-2-4 of the bytes 0 to 14 under the key of the bytes 0 to 15 is 0xa129ca6149be45e5, as in appendix A of the paper |
| `SipHash.Context.Update` | compat/siphash.c:72-107 | the context stands for the message so far with the new piece |
| `SipHash.Context.End` | compat/siphash.c:118-143 | the result is the hash of the message by its definition |
| `SipHash.HashPieces` | compat/siphash.c:145-153 | any split of a message into updates gives the hash of the whole, for every key and all round counts |
| `Sha256Bits.ChChooses` | compat/sha2.c:170 | Ch has the bits of y where x has ones and those of z where it has zeros |
| `Sha256Bits.MajAgreesXY` | compat/sha2.c:171 | Maj agrees with x and y where they agree |
| `Sha256Bits.MajAgreesXZ` | compat/sha2.c:171 | and with x and z |
| `Sha256Bits.MajAgreesYZ` | compat/sha2.c:171 | and with y and z |
| `Sha256Bits.SigmasRotate` | compat/sha2.c:163-177 | the sigmas are the sums of rotations and shifts of section 4.1.2 of FIPS 180-4 |
| `Sha256Bits.SigmasOneBit` | compat/sha2.c:163-177 | where each of them takes a single bit |
| `Sha256Transform.WordBits` | compat/sha2.c:170-177 | the functions on words are those on bits |
| `Sha256Transform.AddWraps` | compat/sha2.c:369-371 | sums wrap at 2^32 and not before |
| `Sha256Constants.InitialRoots` | compat/sha2.c:208-217 | the initial hash value is the fractions of the square roots of the first eight primes |
| `Sha256Constants.RoundRoots0` | compat/sha2.c:188-205 | with RoundRoots1 to RoundRoots15: the round constants are the fractions of the cube roots of the first 64 primes |
| `Sha256Transform.WindowNext` | compat/sha2.c:375-385 | the sum over the 16-word window is the next word of the 64-word schedule |
| `Sha256Transform.TransformLoop` | compat/sha2.c:445-516 | the plain loop computes the compression function of section 6.2.2 of FIPS 180-4 |
| `Sha256Transform.RotatedRound` | compat/sha2.c:366-385 | a round that changes two registers in place is a round of the standard after renaming the registers |
| `Sha256Transform.TransformUnrolled` | compat/sha2.c:387-441 | the unrolled form computes the same function |
| `Sha256.PaddedWhole` | compat/sha2.c:568-609 | the padded message is whole blocks, begins with the message, and ends with its length in bits if it is below 2^61 bytes |
| `Sha256.PaddedBytes` | compat/sha2.c:568-609 | after the message come 0x80, as few zeros as fill the block, and the length |
| `Sha256.LoadStore` | compat/sha2.c:111-114 | a word is loaded from its big-endian bytes |
| `Sha256.DigestWords` | compat/sha2.c:620-622 | the digest is the eight words of the hash value in order |
| `Sha256.EightBytes` | compat/sha2.c:123-132 | BE_64_TO_8 writes the big-endian bytes |
| `Sha256.BigEndianWraps` | compat/sha2.c:600-602 | only the low bits of the length show |
| `Sha256Context.Context.Update` | compat/sha2.c:521-565 | the context stands for the message so far with the new piece |
| `Sha256Context.Context.Pad` | compat/sha2.c:568-609 | in each of its branches, the state becomes the hash value of the message padded as in section 5.1.1 of FIPS 180-4 |
| `Sha256Context.Context.Final` | compat/sha2.c:612-627 | the digest is the big-endian bytes of that value |
| `Sha256Context.DigestPieces` | compat/sha2.c:352-627 | any split of a message into updates gives the digest of the whole |
| `Base64.Alphabet0` | compat/base64.c:60-61 | table 1 of RFC 4648, values 0 to 15 |
| `Base64.Alphabet1` | compat/base64.c:60-61 | values 16 to 31 |
| `Base64.Alphabet2` | compat/base64.c:60-61 | values 32 to 47 |
| `Base64.Alphabet3` | compat/base64.c:60-61 | values 48 to 63 |
| `Common.SpaceIs` | compat/base64.c:205-206 | white space is the space and the five control characters from tab to carriage return |
| `Base64.EncodedGroups` | compat/base64.c:64-125 | section 4 of RFC 4648: each 24-bit group reads as four six-bit groups, and exactly the letters without input bits are pads |
| `Base64.Canonical` | compat/base64.c:191-317 | text decodes to some bytes if and only if it is their encoding, white space aside |
| `Base64.EncodeStripped` | compat/base64.c:127-183 | an encoding decodes to what was encoded |
| `Base64.EncodeInjective` | compat/base64.c:127-183 | no two byte sequences share an encoding |
| `Base64.StrictIff` | compat/base64.c:303-305 | with the check text decodes if and only if it does without and its last letter has no bits left over, and to the same bytes |
| `Base64.LooseCanonical` | compat/base64.c:191-317 | without the check text decodes to some bytes if and only if it is their encoding with white space taken out and leftover bits cleared |
| `Base64.LooseIsWeaker` | compat/base64.c:303-305 | there is text that only the check refuses |
| `Base64Codec.Ntop` | compat/base64.c:127-183 | writes the encoding and a terminator, or returns -1 exactly if they do not fit; nothing beyond is written |
| `Base64Codec.Take` | compat/base64.c:215-261 | one letter in each of the four states, and failure exactly if more bytes would be needed than fit |
| `Base64Codec.Tail` | compat/base64.c:269-295 | what may follow the first pad |
| `Base64Codec.Pton` | compat/base64.c:191-317 | with a target: success exactly if the text is, white space aside, the encoding of bytes that fit, and these are then in the target; without one: exactly if it is that of some bytes once leftover bits are cleared, and their number is returned |
| `Rebase.CollectCommits` | got/got.c:11144-11194 | the list is the first-parent commits after the stop commit, oldest first; each error exactly when its cause occurs |
| `Rebase.ChainIff` | got/got.c:11156-11167 | a commit is on the chain if and only if a path leads to it on which each commit is followed by the first of its recorded parents |
| `Rebase.ChainOfPath` | got/got.c:11165-11190 | the list is that path without its end, oldest first |
| `Rebase.InsideIff` | got/got.c:11178-11181 | all is inside the prefix if and only if every step of such paths up to the stop commit is |
| `Rebase.MergedParents` | got/got.c:11978-11985 | every commit of the list is merged against the first of its recorded parents |
| `Rebase.BetweenAt` | got/got.c:11975-11980 | the first recorded parent of each commit of the list is its predecessor, or the stop commit |
| `Rebase.Rebasing.Replay` | got/got.c:11975-12035 | merges go on in order until the first that leaves something to resolve; the branch changes only when all are committed |
| `Rebase.Rebasing.Start` | got/got.c:11922-12035 | fails and changes nothing exactly if the commits cannot be collected; otherwise stops at the first commit whose merge needs attention, or completes |
| `Rebase.Rebasing.Continue` | got/got.c:11789-11809 | commits what was resolved, collects again from there, never fails to, and goes on to the next such commit or to completion |
| `Rebase.Run` | got/got.c:11789-12035 | over the first call and any continuations, what was committed is the list up to the commit at which the last call stopped, every merge is of the next commit against its first parent, it is complete exactly if a call reached the end, and as many continuations as commits complete it |
| `Histedit.LineRoundTrip` | got/got.c:12106-12136 | a written line parses to the same command and commit |
| `Histedit.RoundTrip` | got/got.c:12607-12636 | saving any script and parsing it gives the same script |
| `Histedit.ParseList` | got/got.c:12366-12439 | the loops read the script that the text stands for, or report the first bad line |
| `HisteditScript.LineIs` | got/got.c:12390-12423 | a line of two words is the command that the first names, in full or by its letter, with the commit that the second resolves to, or bad |
| `HisteditScript.OneWordIs` | got/got.c:12396-12411 | a line of one word is bad |
| `HisteditScript.SkippedLine` | got/got.c:12389-12394 | a blank line or a comment, anywhere, adds nothing and counts as a line |
| `HisteditScript.ParsePieces` | got/got.c:12379-12434 | text in pieces of whole lines parses to the entries of the pieces, one after the other |
| `HisteditScript.BadLine` | got/got.c:12408-12423 | a bad line after good ones is reported by its number |
| `HisteditScript.FirstBadLine` | got/got.c:12408-12423 | a reported line is bad and everything before it parses |
| `HisteditScript.ShortLogIs` | got/got.c:10925-10965 | the log message shown is as much of the first line as fits, without leading white space |
| `Histedit.WriteCommitList` | got/got.c:12138-12166 | writes the generated script, or fails for no commits |
| `Histedit.GeneratedCommands` | got/got.c:12150-12160 | which command each flag gives, and that folding leaves the last commit |
| `Histedit.CheckScript` | got/got.c:12441-12497 | each complaint exactly when it is the first that applies |
| `Histedit.GeneratedPasses` | got/got.c:12138-12166 | the script written for distinct commits, with any flags, parses back and passes the check |
| `Histedit.GetFolded` | got/got.c:12259-12273 | the first fold that an entry gathers |
| `Histedit.Gather` | got/got.c:12291-12306 | exactly the folds before the entry with nothing used between, each once and in order |
| `Histedit.FoldOwner` | got/got.c:12259-12306 | a fold is gathered by a used entry if and only if that is the first used entry after it |
| `Histedit.FoldLost` | got/got.c:12441-12497 | in a script that passes the check, no entry gathers a fold if and only if only folds and drops follow it, the last a drop |
| `Histedit.FoldLostExample` | got/got.c:12491-12494 | there is such a script |
| `FmtScaled.Format` | compat/fmt_scaled.c:186-241 | fails for the smallest number only; otherwise shows sign, unit and the nearest tenth, or whole units from 100 on |
| `FmtScaled.Close` | compat/fmt_scaled.c:203-232 | the shown value is exact in bytes, within 0.06 unit with a point, and within 0.55 unit without |
| `FmtScaled.Monotone` | compat/fmt_scaled.c:186-241 | a larger number is never shown smaller, also across units |
| `FmtScaled.RenderFits` | compat/fmt_scaled.c:225-238 | a sign, four characters of number and the unit |
| `ScanRoundTrip.RenderLetter` | compat/fmt_scaled.c:52 | the text ends with the letter of its unit: B, K, M, G, T, P or E |
| `ScanRoundTrip.RenderPoint` | compat/fmt_scaled.c:236-238 | before it come a sign if negative, the digits of the whole, a point and the digit of the tenth |
| `ScanRoundTrip.RenderWhole` | compat/fmt_scaled.c:225-235 | or a sign and digits |
| `ScanScaled.Read` | compat/fmt_scaled.c:69-180 | the loops compute what the text is read as |
| `ScanScaled.EveryText` | compat/fmt_scaled.c:77-180 | every text is white space, at most one sign, digits with at most one point, and a rest, and is read as what these mean: malformed exactly for a second sign or point, more than twenty whole digits, an unknown unit, or something alphanumeric after the unit |
| `ScanScaled.UnitLetters` | compat/fmt_scaled.c:51-61 | which unit each upper-case letter is |
| `ScanScaled.UnitLowerLetters` | compat/fmt_scaled.c:148-149 | and each lower-case letter |
| `ScanScaled.NoUnit` | compat/fmt_scaled.c:145-179 | and that nothing else is one |
| `ScanScaled.Factors` | compat/fmt_scaled.c:53-61 | the factors are the powers of 1024 |
| `ScanScaled.LimitIs` | compat/fmt_scaled.c:164 | the limit for a fraction is the largest that does not overflow |
| `ScanScaled.DigitValues` | compat/fmt_scaled.c:115 | what each digit stands for |
| `ScanScaled.Classes` | compat/fmt_scaled.c:105-152 | which characters are digits and which alphanumeric |
| `ScanScaled.ReadsUnit` | compat/fmt_scaled.c:145-175 | digits and a letter are read as the number times what the letter multiplies by |
| `ScanScaled.ReadsKilo` | compat/fmt_scaled.c:145-175 | digits and K or k as 1024 times the number |
| `ScanScaled.ScaledIs` | compat/fmt_scaled.c:156-174 | a fraction that is small enough is scaled exactly and rounded toward zero |
| `ScanScaled.ShrinkIs` | compat/fmt_scaled.c:161-167 | a larger one loses as few digits at its end as make it small enough |
| `ScanRoundTrip.ScanBack` | compat/fmt_scaled.c:69-180 | below the largest unit, what is shown reads back without overflow, exactly in bytes, to within 0.06 unit with a point and 0.55 unit without |
| `ScanRoundTrip.ScanLargest` | compat/fmt_scaled.c:161-174 | what reads back in the largest unit for both signs, exactly when that is within 0.06 unit, and exactly when the arithmetic stays in range |

## Left out

- Comparison functions of the trees: nodes are compared by an integer key that does not change. Any total preorder on
  finitely many nodes is that of such keys.
- RB_AUGMENT, which does nothing here, SPLAY_NEXT, SPLAY_FOREACH and the amortised cost of splaying.
- Memory layout in the merge sort: element size, word and byte copies, and the run links that the original overlays
  on the scratch array are a separate array of indices. The source of a pass is read as a value, and the
  pairwise-only variant without NATURAL is not modelled.
- System calls: sendmsg and recvmsg are byte counts and a descriptor chosen by the caller of the model; EINTR retries
  and fatal errors, malloc failure and the reclaiming of memory are not modelled.
- Ibufs are values: two references to one ibuf are not modelled. The length field of a header that is not closed yet is zero.
- imsg byte order is little-endian; imsg_forward, imsg_get_ibuf, the fixed-width ibuf_add, ibuf_set and ibuf_get
  variants and the plain ibuf_write of an end without descriptor passing would only add easy members.
- Imsg.Imsgbuf.Flush: of a queue of 2^32 or more buffers, how many are left is not stated beyond a multiple of 2^32,
  because the counter that ends the loop wraps.
- ImsgChannel.Channel.Run: which message a received descriptor belongs to is not claimed, because one that arrives in
  a read that completes no marked header is closed. Descriptors that a receiver without descriptor passing never takes
  stay between the ends.
- SHA-224, SHA-384 and SHA-512, which are disabled in the source, and the clearing of contexts after use.
- Base64Codec.Pton: the result is an unbounded integer; text and buffers above the range of int are not modelled.
- Base64 letters are given by their ranges of character codes instead of a table.
- The work tree of a rebase is the commit at which it stopped, and what was merged and committed; files, fetching,
  backups, aborting, and how the common ancestor is found are not modelled. A commit that turns out to change nothing
  counts as committed.
- Rebase.Rebasing.Start: the common ancestor is given, and is the head itself if the head has no parent.
- Running a histedit script and editing of messages. What a string resolves to as an object id is given.
- ScanScaled.Read: integers are unbounded; `InRange` says when scaling stays within a long long, and digit strings whose
  number exceeds one are not modelled.
- All other commands, options, printing, system-call wrappers and string helpers of the repository.
