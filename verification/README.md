# Verified models of MentOS

This project models the parts of MentOS, a small 32-bit teaching operating system, whose behaviour is
hard to see from their code, and proves what they promise. Each module follows one source file:

- `ListHead.dfy`, `Rings.dfy`, `ListSort.dfy`, `ListRuns.dfy`, `VmAreas.dfy`: the kernel's intrusive
  circular list, its in-place sort, and the list of virtual memory areas that is kept with them.
- `RbTree.dfy`, `RbShape.dfy`, `RbInsert.dfy`, `RbRemove.dfy`, `RbOperations.dfy`: the red-black tree of the kernel,
  with its top-down insertion and removal on nodes in memory.
- `Sha256Spec.dfy`, `Sha256Vector.dfy`, `Sha256.dfy`: the Secure Hash Standard (FIPS 180-4, sections 4.1.2 to
  6.2.2), its example, and the streaming implementation of it.
- `Rand.dfy`: the linear congruential generator and its period.
- `Paths.dfy`, `RealPath.dfy`: path names as stacks of components and the path canonicaliser.
- `Calendar.dfy`: the Gregorian calendar, `localtime` and Zeller's congruence.
- `Strtol.dfy`, `Vsprintf.dfy`, `PrintParse.dfy`: reading and printing integers, and the round trip.
- `Timers.dfy`: the wheel of dynamic timers, against an agenda of timers and the turns in which they are due.
- `RingBuffer.dfy`, `Environ.dfy`, `BootPaging.dfy`, `Strtok.dfy`: a bounded queue, the environment
  block, the boot page tables and the two tokenisers, each against the simple thing it stands for.

`Machine.dfy` holds what several modules share: 32-bit words, powers of two and optional values.

Code that changes things in place is modelled in place: list nodes are objects with `prev` and `next`,
contexts and buffers are classes and arrays, and loops are loops. A method's contract ties the new state
to a specification function of the old one; the lemmas then say what that function means.

How the lists are specified. A set of nodes is well linked when its links stay inside it and `prev` undoes
`next`. The `next` links of such a set are a permutation, and every operation is specified by the
permutation it makes of the whole set: unlinking and linking redirect links, and a swap conjugates by a
transposition. One equation thus covers every ring and every case of aliasing. `Rings.dfy` reads the same
equations as statements about rings, that is, about sequences of nodes.

How the red-black tree is specified. Memory is a map from nodes to their fields, and a position in the tree is
a path and the subtree at its end. A rotation only replaces that subtree. What the loops keep is stated about
path and subtree: the order of the keys, the colours and the black height, where the pointers of the source
point, and which of them are stale. Values are integers compared by their order.

Conventions. `long` and `unsigned` are 32 bits wide and wrap-around is written out where the code relies on
it; masks by `RAND_MAX` and shifts by 12 are remainders and quotients. A C string is a `string` without its
terminator, or a buffer with an explicit NUL. List pointers are not null, and `compare` is a pure function.
The current directory, `malloc` and `realloc` are inputs: `getcwd` is a parameter and allocation succeeds.

Where the code and its comments disagree, the model follows the code:

- `list_head_append` is documented to append the second list to the first; with an empty first list it does
  nothing, and a list with entries appended to itself is left broken (`Append`).
- `list_head_swap` with an unlinked second entry does not exchange the two; `Swap` gives the exact condition.
- `rbtree_tree_insert` and `rbtree_tree_remove` are documented to return 0 when nothing was inserted or removed;
  they return 1 always, and the size is changed even then (`CountExactlyWhen`).
- `vm_area_compare` is to tell whether an area lies after another, but areas that touch compare as unordered;
  `AddressOrder` and `AddArea` say exactly when sorting gives address order. The search for free space is
  right on a sorted list if and only if that list is in address order (`TrustedExactly`); `TouchingRun` and
  `SpotOnTop` are its two ways to fail, with and without wrap-around. A forked process searches a list in the
  opposite order, which no one sorts (`CloneAreas`, `DescendingSearch`).
- `is_valid_vm_area` accepts an area that lies over another one and shares an end with it, and `sys_mmap` takes
  its answer for an area that does not end after it starts, which is -1, for a yes (`IsValid`).
- The timers are to reach 2^32 - 1 ticks ahead; a timer started more than 2^31 ticks ahead counts as late and
  runs in the next turn, which for `alarm` means more than 1,800,070 seconds (`OnTimeExactly`, `AlarmOnTime`).
- `time.h` documents months from 0, years since 1900 and weekdays from 0; `localtime` stores months from 1,
  full years and weekdays from 1 (Monday). It sets neither `tm_yday` nor `tm_isdst`.
- The boot code is to map all of low memory to itself; it leaves out the last page (`IdentityMapping`).
- `setenv` reports success for a new variable after `unsetenv` has removed one, but the variable is not found
  again (`IdealExactlyWhen`, `LostVariable`); and `getenv` does not find a variable with an empty value
  (`SetThenGet`).
- `realpath` refuses a buffer that the result would fit exactly, since it first puts a slash behind it
  (`ExactFitIsRefused`). What counts is the most that is in the buffer at any time, not the length of the
  result: "/b/aaaaaaaa/.." is refused by a buffer of ten bytes although "/b" needs three (`Detour`).

## Model

| member | source | states |
|---|---|---|
| ListHead.Init | libc/inc/sys/list_head.h:66-69 | a node is made a ring of its own |
| ListHead.NextIsPermutation | libc/inc/sys/list_head.h:94-138 | when `prev` undoes `next`, the `next` links of a set of nodes are a permutation of the set |
| ListHead.InsertAfter | libc/inc/sys/list_head.h:94-106 | if and only if the entry is new or unlinked the links are right again; then it is the successor of the location and every other link of every ring stays |
| ListHead.InsertBefore | libc/inc/sys/list_head.h:111-123 | if and only if the entry is new or unlinked the links are right again; then it is the predecessor of the location and every other link of every ring stays |
| ListHead.Remove | libc/inc/sys/list_head.h:127-138 | the entry leaves its ring, is left alone, and its neighbours are joined; a lone entry stays as it is |
| ListHead.Pop | libc/inc/sys/list_head.h:144-156 | null and no change on an empty list, else the first entry, unlinked |
| ListHead.Append | libc/inc/sys/list_head.h:161-178 | the entries of the second list follow those of the first and the second is emptied, exactly when both have entries; nothing changes otherwise; the links are wrong afterwards if and only if a list with entries is appended to itself |
| ListHead.Replace | libc/inc/sys/list_head.h:183-194 | the second entry is taken off its ring and gets the place of the first, which is left alone; also when they are neighbours or the same |
| ListHead.TakePlace | libc/inc/sys/list_head.h:187-193 | an unlinked entry and a linked one exchange places |
| ListHead.Swap | libc/inc/sys/list_head.h:199-207 | the two entries exchange places on whatever rings they are, in both adjacent orders and for an entry with itself, if and only if they are the same or the second is linked; the effect in the remaining case |
| ListHead.SwapFactors | libc/inc/sys/list_head.h:199-207 | replacing and linking back behind the old predecessor is the exchange, if and only if the second entry was not alone |
| Rings.RingUnlinked | libc/inc/sys/list_head.h:127-138 | removing takes one element out of the ring's sequence |
| Rings.RingLinkedAfter | libc/inc/sys/list_head.h:94-106 | inserting after puts the entry behind the location in the ring's sequence |
| Rings.RingLinkedBefore | libc/inc/sys/list_head.h:111-123 | inserting before puts the entry in front of the location in the ring's sequence |
| Rings.RingExchanged | libc/inc/sys/list_head.h:199-207 | a swap renames the two entries on every ring, be they on one ring or on two |
| Rings.RingReplaced | libc/inc/sys/list_head.h:183-194 | replacing an entry by one of another ring puts that one in its place in the sequence |
| Rings.RingReplacedWithin | libc/inc/sys/list_head.h:183-194 | replacing an entry by another one of the same ring takes that one out of the sequence and puts it in its place |
| Rings.RingAppended | libc/inc/sys/list_head.h:161-178 | appending concatenates the sequences of entries and leaves the second head alone |
| Rings.OtherRings | libc/inc/sys/list_head.h:94-207 | rings that hold none of the arguments keep their sequence under every operation |
| Rings.RingThrough | libc/inc/sys/list_head.h:66-207 | every node of a well-linked set is on a ring |
| ListRuns.EffectIsPermutation | libc/inc/sys/list_head.h:66-207 | every operation turns a permutation of the nodes into a permutation of the same nodes |
| ListRuns.Perform | libc/inc/sys/list_head.h:66-207 | each operation keeps the nodes well linked, has its effect on the permutation and returns the entry it should |
| ListRuns.Execute | libc/inc/sys/list_head.h:66-207 | every run of operations keeps `prev` and `next` inverse to each other on all rings, has the composed effect and returns the popped entries |
| ListRuns.RunKeepsRings | libc/inc/sys/list_head.h:66-207 | after every run the nodes are the same and each of them is on a ring |
| ListRuns.PopsInOrder | libc/inc/sys/list_head.h:144-156 | popping again and again returns the entries of a list in their order, each once, and then null |
| ListSort.RankDrops | libc/inc/sys/list_head_algorithm.h:34-37 | for a strict partial order, a node that is after another has more nodes below it |
| ListSort.SwapLowersWeight | libc/inc/sys/list_head_algorithm.h:31-38 | exchanging a larger earlier weight with a smaller later one lowers the position-weighted sum |
| ListSort.SwapLowersDisorder | libc/inc/sys/list_head_algorithm.h:34-37 | every swap the sort makes lowers the measure that makes the sort terminate |
| ListSort.SwapOnRing | libc/inc/sys/list_head.h:199-207 | swapping two nodes of one ring exchanges their positions and keeps the nodes |
| ListSort.SwapEntries | libc/inc/sys/list_head_algorithm.h:34-37 | the swap in the loop exchanges `current` and `index` on the ring, lowers the measure and leaves other nodes alone |
| ListSort.Scan | libc/inc/sys/list_head_algorithm.h:31-38 | the inner loop terminates although a swap moves its cursor; it either lowers the measure, or it changes nothing and no later node is below `current` |
| ListSort.Sort | libc/inc/sys/list_head_algorithm.h:17-47 | for every strict partial order the sort terminates and leaves a ring with the same head and a permutation of the nodes in which no entry is after a later one; the head is never compared; the links of all other nodes stay; the run is a sequence of swaps of an entry with the first later one that it is after |
| ListSort.SortedStays | libc/inc/sys/list_head_algorithm.h:17-47 | a list in which no entry is after a later one is left as it is |
| VmAreas.CompareIsStrictOrder | mentos/inc/mem/paging.h:144-149 | the comparison is a strict partial order if and only if no area ends before it starts |
| VmAreas.SortAreas | mentos/src/mem/paging.c:119-120 | sorting a list of areas, overlapping ones too, ends, keeps the entries and leaves no area in front of one it is after; the links of all other nodes stay |
| VmAreas.AddressOrder | mentos/src/mem/paging.c:119-120 | sorting puts disjoint areas in address order from every order they may be listed in, if and only if no two of them touch |
| VmAreas.SwappedOrder | mentos/src/mem/paging.c:119-120 | for every set of areas two of which touch, an order that sorting leaves as it is and that is not address order |
| VmAreas.PassesOneByOne | libc/inc/sys/list_head_algorithm.h:31-38 | sorting a new area into a list in address order moves it past one area at a time and moves no other |
| VmAreas.AddArea | mentos/src/mem/paging.c:116-120 | an area put first and sorted into any list leaves no area in front of one it is after; in a list of disjoint areas in address order it comes behind exactly the areas that end before it starts, and the list is in address order again if and only if no area ends where the new one starts |
| VmAreas.IsValid | mentos/src/mem/paging.c:228-253 | -1 if and only if the area does not end after it starts, else 1 if and only if it is apart from every area on the list or covers it and shares one of its ends |
| VmAreas.FindFree | mentos/src/mem/paging.c:255-277 | on every list: the pair nearest the end of the list whose difference, in 32 bits, is wide enough is chosen, and failure means no pair is; the spot is free if and only if it fits between the chosen area and the highest end below it; on a list in address order it is free and ends where the chosen area starts |
| VmAreas.FreeExactly | mentos/src/mem/paging.c:266-272 | the spot below an area on any list of disjoint areas is within 32 bits and free of all of them if and only if its length is no more than the distance to the highest end below |
| VmAreas.SpotIsFree | mentos/src/mem/paging.c:266-272 | in address order a wide enough gap, computed in 32 bits, has room for the spot free of all areas |
| VmAreas.TrustedExactly | mentos/src/mem/paging.c:119-277 | on a list as sorting leaves it, the spots found for all lengths are free if and only if the list is in address order |
| VmAreas.BadLength | mentos/src/mem/paging.c:255-277 | for every such list that is not in address order, a length for which the spot that is found is not free |
| VmAreas.DescendingSearch | mentos/src/mem/paging.c:724-787 | on a list in descending order the last pair is chosen whenever its wrapped difference allows, and the spot is free if and only if it fits below the lowest area |
| VmAreas.CloneAreas | mentos/src/mem/paging.c:166-167 | the copies, put first one after the other, end in the opposite order of the list that is copied |
| VmAreas.ClonedDescends | mentos/src/mem/paging.c:724-729 | the copies of disjoint areas in address order are disjoint areas in descending order |
| VmAreas.SpotOnTop | mentos/src/mem/paging.c:255-277 | three disjoint areas, listed as sorting leaves them, for which the spot found overlaps the first without any wrap-around |
| VmAreas.TouchingRun | mentos/src/mem/paging.c:116-120 | three areas added to an empty map, one starting where another ends, stay out of order, and the spot then found lies on top of the third |
| RbTree.RotatedHolds | mentos/src/klib/rbtree.c:84-95 | a rotation in memory is a rotation of the tree: the same nodes, nothing else touched |
| RbTree.RotatedTwiceHolds | mentos/src/klib/rbtree.c:97-105 | the same for a double rotation |
| RbTree.Relink | mentos/src/klib/rbtree.c:261-261 | linking a rearranged subtree to the node above it puts it in the place of the old one |
| RbTree.Rotate | mentos/src/klib/rbtree.c:84-95 | the assignments of the rotation make that change of memory |
| RbTree.Rotate2 | mentos/src/klib/rbtree.c:97-105 | the assignments of the double rotation make that change of memory |
| RbShape.RotatedKeys | mentos/src/klib/rbtree.c:84-95 | a rotation keeps the keys in order |
| RbShape.RotatedTwiceKeys | mentos/src/klib/rbtree.c:97-105 | a double rotation keeps the keys in order |
| RbShape.SingleRepair | mentos/src/klib/rbtree.c:260-261 | with a black uncle a rotation turns a red node below a red one on the outer side into a subtree of the same black height without any |
| RbShape.DoubleRepair | mentos/src/klib/rbtree.c:262-263 | the same on the inner side with a double rotation |
| RbInsert.ChangeFits | mentos/src/klib/rbtree.c:246-255 | when a node is linked or colours are flipped no pointer is stale, and if the parent is red there is a grandparent and the uncle is black |
| RbInsert.WhichLinks | mentos/src/klib/rbtree.c:259-260 | the tests on links find the directions the pass took, since no node has two parents |
| RbInsert.RepairRed | mentos/src/klib/rbtree.c:257-265 | the rotation under the great-grandparent replaces the grandparent's subtree by its repair and touches no other node |
| RbInsert.PlainStep | mentos/src/klib/rbtree.c:273-282 | a step without a change keeps the invariant, and makes stale pointers right again |
| RbInsert.SingleStep | mentos/src/klib/rbtree.c:273-282 | the step after a rotation leaves only the topmost pointer stale, at a node that needs no change |
| RbInsert.DoubleStep | mentos/src/klib/rbtree.c:273-282 | the step after a double rotation leaves two pointers stale, and the next two nodes of the way need no change |
| RbInsert.NewKey | mentos/src/klib/rbtree.c:246-248 | at a null link the value is new and is put where the order wants it |
| RbInsert.Pass | mentos/src/klib/rbtree.c:234-286 | the pass ends with a red-black tree in memory, up to the colour of the root, with the value added if and only if it was not there, and touches no node outside the tree |
| RbRemove.RotateDown | mentos/src/klib/rbtree.c:333-335 | rotating a red child up keeps the tree red-black and makes the node reached red |
| RbRemove.FlipDown | mentos/src/klib/rbtree.c:339-344 | the colour flip keeps the tree red-black, also below a black root |
| RbRemove.SinkDown | mentos/src/klib/rbtree.c:345-357 | rotation and colours keep the tree red-black, for both positions of the red nephew |
| RbRemove.PushRotate | mentos/src/klib/rbtree.c:333-335 | the assignments do that in memory |
| RbRemove.PushFlip | mentos/src/klib/rbtree.c:339-344 | the assignments do that in memory |
| RbRemove.PushSink | mentos/src/klib/rbtree.c:345-357 | the assignments do that in memory |
| RbRemove.Push | mentos/src/klib/rbtree.c:332-360 | after the work on a node it is red, or the next one is, or it is the root with two black children |
| RbRemove.LastNode | mentos/src/klib/rbtree.c:363-369 | the pass ends at a red node without children, or at the root on its own |
| RbRemove.GoneAbove | mentos/src/klib/rbtree.c:364-369 | moving the last node's value up and unlinking it removes exactly the value looked for and keeps the order |
| RbRemove.NotThere | mentos/src/klib/rbtree.c:326-330 | if the value was not met on the way it is not in the tree |
| RbRemove.Unlink | mentos/src/klib/rbtree.c:364-369 | the exchange of values and the unlinking in memory |
| RbRemove.Pass | mentos/src/klib/rbtree.c:305-378 | the pass ends with a red-black tree in memory, up to the colour of the root, without the value and with all others, and touches no node outside the tree |
| RbOperations.RedBlackTree.constructor | mentos/src/klib/rbtree.c:134-142 | an empty tree and a count of zero |
| RbOperations.RedBlackTree.Insert | mentos/src/klib/rbtree.c:222-295 | the tree stays ordered and red-black, its values gain the one inserted, the count grows by one in any case, and 1 is returned |
| RbOperations.RedBlackTree.Remove | mentos/src/klib/rbtree.c:300-398 | the tree stays ordered and red-black, its values lose the one removed, the count shrinks by one unless the tree was empty, and 1 is returned |
| RbOperations.RedBlackTree.Find | mentos/src/klib/rbtree.c:178-197 | the value itself if it is there, else 0, the null pointer of the source |
| RbOperations.TellsExactly | mentos/src/klib/rbtree.c:178-197 | the answer tells whether the value is there for every tree if and only if the value is not 0 |
| RbOperations.HeightBound | mentos/src/klib/rbtree.c:178-197 | the height is at most twice the logarithm of the number of nodes and one |
| RbOperations.Execute | mentos/src/klib/rbtree.c:178-398 | every run of insertions, removals and searches keeps a red-black tree and leaves the folded count; a search for a value is answered by it if the last call before that inserted or removed it was an insertion, or if there was none and it was there at the start, and by 0 otherwise; all other calls are answered by 1 |
| RbOperations.LastChangeDecides | mentos/src/klib/rbtree.c:178-398 | in every run over a set the reply to a search is decided by the last insertion or removal of its value |
| RbOperations.CountStep | mentos/src/klib/rbtree.c:289-291 | a right count goes wrong if and only if a value is inserted that is there, or one is removed that is not from a tree that is not empty |
| RbOperations.CountExactlyWhen | mentos/src/klib/rbtree.c:385-385 | the count is the number of values throughout a run if and only if the run has no such call |
| RbOperations.WrongCounts | mentos/src/klib/rbtree.c:289-291 | the smallest run with a wrong count: the same value inserted twice leaves one value and a count of two |
| Sha256Spec.ZeroCountIsLeast | libc/src/crypt/sha256.c:143-156 | the padding has the smallest number of zero bytes that fills the block up to the length field |
| Sha256Spec.WordAtIsBigEndian | libc/src/crypt/sha256.c:67-70 | as a number, a word of a block is its four bytes with the first one the most significant |
| Sha256Spec.WordByteIsBigEndian | libc/src/crypt/sha256.c:173-182 | as a number, a word is the four bytes put out for it with the first one the most significant |
| Sha256Spec.ChChooses | libc/src/crypt/sha256.c:22-22 | bit by bit, the first argument chooses between the other two |
| Sha256Spec.MajVotes | libc/src/crypt/sha256.c:23-23 | bit by bit, what the first two agree on, and the third where they do not |
| Sha256Vector.AbcSchedule | libc/src/crypt/sha256.c:66-74 | all 64 words of the message schedule of "abc" |
| Sha256Vector.AbcRounds | libc/src/crypt/sha256.c:76-96 | the working variables after the 64 rounds on "abc" |
| Sha256Vector.Abc | libc/src/crypt/sha256.c:62-183 | the hash of "abc" is the one published with the standard, ba7816bf 8f01cfea 414140de 5dae2223 b00361a3 96177a9c b410ff61 f20015ad |
| Sha256.Ep0 | libc/src/crypt/sha256.c:25-25 | the shift-and-or macro is the rotation form of the standard |
| Sha256.Ep1 | libc/src/crypt/sha256.c:26-26 | the shift-and-or macro is the rotation form of the standard |
| Sha256.Sig0 | libc/src/crypt/sha256.c:27-27 | the shift-and-or macro is the rotation form of the standard |
| Sha256.Sig1 | libc/src/crypt/sha256.c:28-28 | the shift-and-or macro is the rotation form of the standard |
| Sha256.NextWordExtends | libc/src/crypt/sha256.c:72-74 | the source's message schedule step is that of the standard |
| Sha256.TempsAgree | libc/src/crypt/sha256.c:86-87 | the source's two temporaries are those of the standard |
| Sha256.Context.Init | libc/src/crypt/sha256.c:108-120 | the context stands for the empty message |
| Sha256.Context.Transform | libc/src/crypt/sha256.c:62-106 | the state becomes the compression function of section 6.2.2 applied to the old state and the block |
| Sha256.Context.Expand | libc/src/crypt/sha256.c:66-74 | the message schedule of the block in the buffer |
| Sha256.Context.Work | libc/src/crypt/sha256.c:76-96 | the working variables after 64 rounds of the standard |
| Sha256.Context.AddUp | libc/src/crypt/sha256.c:98-105 | each working variable is added to its word of the state |
| Sha256.Context.PutByte | libc/src/crypt/sha256.c:126-134 | one byte extends the message; buffer, length, bit count and state stay those of the message |
| Sha256.Context.Update | libc/src/crypt/sha256.c:122-135 | the bytes extend the message; buffer, length, bit count and state stay those of the message |
| Sha256.Context.PadBuffer | libc/src/crypt/sha256.c:143-156 | in both branches the buffer lacks only the length field to be the last block of the padded message and all blocks before it are compressed |
| Sha256.Context.StoreLength | libc/src/crypt/sha256.c:158-167 | the last eight bytes are the length in bits, the most significant byte first |
| Sha256.Context.Emit | libc/src/crypt/sha256.c:173-182 | the digest is the state with the most significant byte of each word first |
| Sha256.Context.Final | libc/src/crypt/sha256.c:137-183 | the output is the SHA-256 hash of the whole message |
| Sha256.HashChunks | libc/src/crypt/sha256.c:108-183 | for every message and every way of cutting it into update calls the digest is the hash of the message |
| Sha256.PaddedBlocks | libc/src/crypt/sha256.c:143-168 | the hash of the padded message in terms of its last one or two blocks, for every tail length |
| Sha256.OneMoreByte | libc/src/crypt/sha256.c:126-134 | a byte either stays in the buffer or completes a block |
| Rand.FirstNumbers | libc/src/stdlib.c:118-121 | the first number is 12345 from seed 0 and 1103527590 from seed 1, which fixes both constants |
| Rand.StepIsAffine | libc/src/stdlib.c:118-121 | one step, computed in 32 bits and masked, is the affine map modulo 2^31 |
| Rand.PowerSumDivisible | libc/src/stdlib.c:118-121 | 2^k divides the sum of the first n powers of the multiplier if and only if it divides n |
| Rand.IterateIsUnreduced | libc/src/stdlib.c:118-121 | the n-th state is the n-th term of the recurrence over the integers, modulo 2^31 |
| Rand.UnreducedClosed | libc/src/stdlib.c:118-121 | closed form of that recurrence |
| Rand.LowBitsPeriod | libc/src/stdlib.c:118-121 | from every seed and for every k up to 31 the low k bits return after n calls if and only if 2^k divides n |
| Rand.StatePeriod | libc/src/stdlib.c:118-121 | between any two calls the state repeats if and only if a multiple of 2^31 calls lies between them |
| Rand.EveryValueOnce | libc/src/stdlib.c:118-121 | from every seed each value from 0 to RAND_MAX is returned by exactly one of the first 2^31 calls |
| Rand.Generator.constructor | libc/src/stdlib.c:111-111 | the generator starts from seed 0 |
| Rand.Generator.Srand | libc/src/stdlib.c:113-116 | seeding starts a new run |
| Rand.Generator.Rand | libc/src/stdlib.c:118-121 | the n-th call returns the n-th iterate, at most RAND_MAX |
| Rand.Generator.RandUint | libc/src/stdlib.c:133-136 | the result is the next iterate reduced into the bounds |
| Rand.Generator.RandInt | libc/src/stdlib.c:128-131 | the result lies in the bounds and is congruent to the next iterate modulo the span, and what it is with the bounds the wrong way round |
| Rand.UintReaches | libc/src/stdlib.c:133-136 | randuint returns a value of its range at some call if and only if the value is at most RAND_MAX above the lower bound |
| Paths.CanonicalIsCanonical | libc/src/libgen.c:91-123 | a canonical path is the root or names with one slash in front of each, none of them empty, "." or "..", without a slash at the end, and is its own canonical path |
| Paths.CanonicalLaws | libc/src/libgen.c:94-109 | laws on strings alone: an empty component and "." change nothing anywhere in a path, a name cancels with the ".." behind it, and ".." at the root changes nothing |
| Paths.CanonicalName | libc/src/libgen.c:110-115 | a name at the end of a path is put behind the canonical path of what comes before it |
| Paths.CanonicalBelow | libc/src/libgen.c:91-123 | whatever follows a slash is entered, component by component, on top of the directory in front of it |
| Paths.EnterRendered | libc/src/libgen.c:91-123 | reading a rendered stack of names gives the stack back |
| Paths.CanonicalNeedsNoMoreRoom | libc/src/libgen.c:111-114 | a canonical path never needs more buffer than the path it came from |
| Paths.RoomAtMost | libc/src/libgen.c:111-114 | the room an absolute path needs is at most its length and one |
| Paths.Detour | libc/src/libgen.c:100-114 | into a directory and out again has the same canonical path but needs the room of that directory |
| Paths.CanonicalIsNoLonger | libc/src/libgen.c:91-123 | canonicalising does not lengthen an absolute path |
| RealPath.Back | libc/src/libgen.c:101-106 | the rewinding loop drops the last name from the buffer, and nothing at the root |
| RealPath.CopyStep | libc/src/libgen.c:110-115 | copying a character keeps the meaning of the work left and accounts for the room needed |
| RealPath.SkipStep | libc/src/libgen.c:94-109 | stepping over a double slash, "/../" or "/./" keeps the meaning of the work left |
| RealPath.Canonicalise | libc/src/libgen.c:91-123 | the character loop terminates, never writes at or past the length, and for every path that ends in a slash refines the stack of components: failure if and only if the room is too small |
| RealPath.RealPath | libc/src/libgen.c:58-124 | for every path that fits the working copy, NULL if and only if the buffer is not longer than the most the work ever puts in it; else, NUL-terminated, the canonical path of an absolute path, or the path that the components of a relative one lead to from the current directory; nothing past the buffer changes for any path |
| RealPath.BelowCwd | libc/src/libgen.c:66-81 | for every relative path the result is that of entering its components on top of the current directory |
| RealPath.ShortPaths | libc/src/libgen.c:66-81 | "" and "." give the current directory, ".." its parent, and a name what lies below it |
| RealPath.RealPathIsIdempotent | libc/src/libgen.c:58-124 | a returned path is absolute, fits, succeeds again with the same length and is returned unchanged |
| RealPath.ExactFitIsRefused | libc/src/libgen.c:87-89 | except for the root, a buffer of exactly the size of the result is refused |
| Calendar.DayNumberOrdersDates | libc/src/time.c:70-88 | a date is earlier than another if and only if its day number is smaller |
| Calendar.DayNumberFromMarch | libc/src/time.c:77-84 | the day number as years from March with leap days, months from March and day |
| Calendar.WeekdayIsDayNumber | libc/src/time.c:36-52 | Zeller's congruence gives (day number + 3) mod 7 + 1 on every date |
| Calendar.CenturyCorrection | libc/src/time.c:71-72 | the first constants correct for the missing leap day of 2100 |
| Calendar.FourYearCycle | libc/src/time.c:73-74 | the second constants split days into years with a leap day every four |
| Calendar.MonthAndDay | libc/src/time.c:75-76 | the third constants split the day of a year from March into month and day |
| Calendar.DaysAddUp | libc/src/time.c:71-74 | the year and day found add up to the day number, and the leap day is only found in leap years |
| Calendar.YearAndDay | libc/src/time.c:71-74 | the 32-bit computation does not wrap and finds that year and day |
| Calendar.DateOfDay | libc/src/time.c:71-88 | for every day of 32-bit time the date is valid and has that day number |
| Calendar.LocalTime | libc/src/time.c:54-92 | for every time_t a valid date, time of day and weekday whose seconds since the epoch are the time given |
| Calendar.SecondsOrderTimes | libc/src/time.c:54-92 | broken-down times are ordered as their seconds, and equal if and only if their seconds are: localtime is strictly monotone and injective |
| Calendar.KnownTimes | libc/src/time.c:54-92 | the epoch is Thursday 1 January 1970, second 2^31 - 1 is in Tuesday 19 January 2038, 03:14:07, and the last one in Sunday 7 February 2106, 06:28:15 |
| Strtol.CutoffTest | libc/src/stdio.c:137-139 | comparing with quotient and remainder of the limit tells exactly whether one more digit goes past the limit |
| Strtol.Limits | libc/src/stdio.c:137-146 | cutoff and cutlim of both signs under division that rounds towards zero |
| Strtol.StepTest | libc/src/stdio.c:161-181 | for both signs the overflow test and the step are right in terms of the value read |
| Strtol.OneDigit | libc/src/stdio.c:158-181 | one more digit: the value so far with its sign, or the limit and the error from the digit that passes it on |
| Strtol.SkipBlanks | libc/src/stdio.c:101-103 | the first loop stops at the first character that is not a blank |
| Strtol.Digits | libc/src/stdio.c:137-186 | the value of the longest digit run, clamped; a range error if and only if clamped; the whole run is consumed even after overflow |
| Strtol.Strtol | libc/src/stdio.c:91-187 | sign, prefix, base, clamped value, end and range error are those of the string's reading, which Reads and ReadsNothing give for every string |
| Vsprintf.LayoutLength | libc/src/vsprintf.c:67-139 | the length is the maximum of width and sign, prefix and the larger of precision and digits |
| Vsprintf.NaturalLayout | libc/src/vsprintf.c:67-138 | without a width: '-' before a negative number, '+' before ' ' before another one as the flags ask, no sign without the sign flag, then the prefix, the zeros of the precision and the numeral |
| Vsprintf.WidthFills | libc/src/vsprintf.c:105-138 | a larger width adds blanks behind, zeros behind sign and prefix, or blanks in front, as the flags ask, and nothing else; a smaller one changes nothing |
| Vsprintf.DigitCount | libc/src/vsprintf.c:100-103 | a number below 2^k has at most k digits in every base, so the buffer of 66 is large enough |
| Vsprintf.FillDigits | libc/src/vsprintf.c:96-104 | the buffer holds the numeral backwards |
| Vsprintf.SetSign | libc/src/vsprintf.c:72-85 | the sign the flags ask for, the number without it, and the width less one if there is a sign |
| Vsprintf.WriteHead | libc/src/vsprintf.c:109-129 | blanks, sign, prefix and padding zeros, and what is left of the shared counter |
| Vsprintf.Number | libc/src/vsprintf.c:52-140 | for every base from 2 to 36, width, precision and flags the output is the layout, which NaturalLayout and WidthFills give without it; failure if and only if the base is outside |
| PrintParse.ValueOfDigits | libc/src/vsprintf.c:100-103 | reading the digits of a number gives the number |
| PrintParse.NumeralIs | libc/src/vsprintf.c:56-104 | the numeral has a digit, reads back as the number, has no zero in front of another digit, and beside '0' to '9' only small letters, or only capital ones if asked for |
| PrintParse.DigitNumeral | libc/src/vsprintf.c:56-104 | the numeral of a single digit, as a character code |
| PrintParse.LayoutParts | libc/src/vsprintf.c:105-138 | the layout is blanks, sign, prefix, one run of digits and blanks |
| PrintParse.RunIsMagnitude | libc/src/vsprintf.c:105-135 | that run, padding zeros included, reads as the magnitude printed |
| PrintParse.Reads | libc/src/stdio.c:91-187 | for every string with a number: blanks, a sign, a prefix 0x, all digits that follow in base 8, 10 or 16 for base 0 or in the base given, and nothing of the rest are read; the value if it fits a long, else the nearest long with a range error |
| PrintParse.ReadsNothing | libc/src/stdio.c:91-187 | without a digit the value is 0 and the end is the start of the string, also behind a sign or a prefix |
| PrintParse.RoundTrip | libc/src/vsprintf.c:52-140 | parsing what was printed, LONG_MIN included, gives the number back if and only if the sign flag is set or the number is not negative, and ends right after the last digit |
| Timers.TargetPlaces | mentos/src/hardware/timer.c:201-222 | the list chosen by 32-bit arithmetic on the ticks is one that may hold the timer: in it the timer is due at its tick, or in this turn if that has passed, and it is not yet to be cascaded |
| Timers.LeftIs | mentos/src/hardware/timer.c:203-204 | the signed difference of two wrapped ticks is the distance of every two turns less than 2^31 apart |
| Timers.SlotOfWord | mentos/src/hardware/timer.c:212-221 | the bits that select a list are the same in a turn and in its low 32 bits |
| Timers.CascadeStep | mentos/src/hardware/timer.c:237-245 | a timer on the list that is cascaded keeps the turn in which it is due, and lies ahead in the list it goes to or stays in |
| Timers.OnlyThatList | mentos/src/hardware/timer.c:262-270 | every timer whose stretch of ticks starts now is on the one list of its vector that is cascaded |
| Timers.NextTurn | mentos/src/hardware/timer.c:468-499 | once the list of this tick is empty and all others lie ahead, every timer is in place for the next turn |
| Timers.NoneMissed | mentos/src/hardware/timer.c:467-500 | no timer is pending for a turn that has been made |
| Timers.Wheel.constructor | mentos/src/hardware/timer.c:177-194 | no timer is pending and the first turn is the current tick |
| Timers.Wheel.AddTimer | mentos/src/hardware/timer.c:321-334 | the timer is pending for its tick, or for the next turn if that has passed; nothing else changes |
| Timers.Wheel.RemoveTimer | mentos/src/hardware/timer.c:336-345 | exactly that timer is no longer pending |
| Timers.Wheel.CascadeVector | mentos/src/hardware/timer.c:225-253 | what is pending stays the same, timer by timer and turn by turn, and all timers of the vector and of those above it lie ahead |
| Timers.Wheel.CascadeBase | mentos/src/hardware/timer.c:262-270 | cascading loses, doubles and delays no timer, and afterwards all timers lie ahead |
| Timers.Wheel.RunList | mentos/src/hardware/timer.c:476-497 | the timers on the list of the tick run in order, are all due in this turn and are removed; what their functions start again is added |
| Timers.Wheel.Restart | mentos/src/hardware/timer.c:571-591 | the function of an interval timer adds one entry, due one interval after the current tick, and never on the list that is being run; that of another timer adds nothing |
| Timers.Wheel.Turn | mentos/src/hardware/timer.c:467-500 | a turn runs exactly the timers that are due in it, and leaves none that is due |
| Timers.Wheel.Run | mentos/src/hardware/timer.c:457-500 | every turn up to the clock is made; each timer runs once, in the turn in which it is due, in the order of the turns, and what is left is due later |
| Timers.Wheel.Execute | mentos/src/hardware/timer.c:321-500 | in every run of starts, stops and clock ticks, what was pending or started has run when it was due, was stopped, or is pending for a later turn, once each; a timer started once and not stopped runs in its first turn and, with an interval p, in that turn plus p, 2p and so on up to the clock and in no other, and the next of these is all that is pending for it |
| Timers.Series | mentos/src/hardware/timer.c:457-591 | the turns of one timer follow from the accounts of the whole run |
| Timers.Recurs | mentos/src/hardware/timer.c:571-591 | when every entry of a timer that ran comes back p ticks later, its turns are the first one plus the multiples of p, and one entry is left |
| Timers.OnTimeExactly | mentos/src/hardware/timer.c:203-208 | a timer started with a delay is due after exactly that many ticks if and only if the delay is at most 2^31 |
| Timers.LateRunsNext | mentos/src/hardware/timer.c:205-208 | a timer whose tick has passed is due in the next turn |
| Timers.AlarmOnTime | mentos/src/hardware/timer.c:648-652 | an alarm is due after its seconds if and only if these are at most 1,800,070 |
| RingBuffer.WindowSize | libc/inc/ring_buffer.h:22-36 | the indices tell exactly when the buffer is full and when it is empty |
| RingBuffer.WindowDrop | libc/inc/ring_buffer.h:40-43 | advancing the read index drops the oldest item, also around the end |
| RingBuffer.WindowPut | libc/inc/ring_buffer.h:30-31 | writing a slot and advancing the write index appends an item, also around the end; with a single slot the item is never seen |
| RingBuffer.FixedRingBuffer.constructor | libc/inc/ring_buffer.h:14-21 | the buffer starts empty |
| RingBuffer.FixedRingBuffer.PushFront | libc/inc/ring_buffer.h:26-32 | the item is appended and the oldest one dropped when length - 1 items are held |
| RingBuffer.FixedRingBuffer.IsEmptyNow | libc/inc/ring_buffer.h:33-36 | empty if and only if the queue is |
| RingBuffer.FixedRingBuffer.PopBack | libc/inc/ring_buffer.h:37-45 | the oldest item is taken and returned, or the initial value when there is none |
| RingBuffer.FixedRingBuffer.PopFront | libc/inc/ring_buffer.h:46-52 | the newest item is taken and returned, or the initial value when there is none |
| RingBuffer.FixedRingBuffer.Back | libc/inc/ring_buffer.h:59-64 | the oldest item is returned, or the initial value |
| RingBuffer.FixedRingBuffer.Front | libc/inc/ring_buffer.h:65-70 | the newest item is returned, or the initial value |
| RingBuffer.FixedRingBuffer.Execute | libc/inc/ring_buffer.h:9-70 | every run of calls gives the replies of the bounded queue and ends in its state |
| RingBuffer.PushesKeepLatest | libc/inc/ring_buffer.h:26-32 | however much is pushed, exactly the latest length - 1 items are kept, in order |
| RingBuffer.PushThenPop | libc/inc/ring_buffer.h:26-52 | after any pushes, pops at the back return the items kept in the order they went in, pops at the front against it, and then the initial value |
| Environ.ReplaceEntry | libc/src/setenv.c:102-113 | replacing the first entry of a name changes that variable and no other |
| Environ.AppendEntry | libc/src/setenv.c:84-113 | adding an entry for a new name defines that variable and changes no other |
| Environ.RemoveEntries | libc/src/setenv.c:130-142 | removing every match undefines that variable and changes no other |
| Environ.Environment.FindEntry | libc/src/setenv.c:22-33 | the index of the first match, or -1 if and only if there is none |
| Environ.Environment.Get | libc/src/setenv.c:147-159 | the value of the first match, when it is not empty |
| Environ.Environment.CloneEnviron | libc/src/setenv.c:36-55 | a fresh block with the same entries, and a recorded size of two more |
| Environ.Environment.Grow | libc/src/setenv.c:85-101 | one more slot, holding a null pointer |
| Environ.Environment.Set | libc/src/setenv.c:57-116 | 0 if and only if the name is good and is new or to be replaced, else -1; the entries for every name, value and replace flag, including the entry lost after a removal; the recorded size stays entries plus two if and only if it was |
| Environ.Environment.SetCopied | libc/src/setenv.c:70-115 | the same for the part of setenv that works on the copy |
| Environ.Environment.ShiftDown | libc/src/setenv.c:134-137 | the pointers behind an entry move back by one, up to the null pointer |
| Environ.Environment.Unset | libc/src/setenv.c:118-145 | every match goes and the rest keeps its order; the recorded size stays entries plus two if and only if nothing was removed |
| Environ.LiveAfterSet | libc/src/setenv.c:85-113 | which entries are live after writing one slot: replaced, appended or lost |
| Environ.SetThenGet | libc/src/setenv.c:57-159 | a replacing setenv is seen by getenv if and only if the value is not empty and either no removal left a gap or the variable existed |
| Environ.SetIsMapUpdate | libc/src/setenv.c:57-116 | setenv is an update of one variable of the first-match map, or none when the name is new and a removal has left a gap |
| Environ.UnsetIsMapRemoval | libc/src/setenv.c:118-145 | unsetenv removes one name from the first-match map, and leaves a gap if and only if the name was defined |
| Environ.Execute | libc/src/setenv.c:22-159 | every run of setenv, unsetenv and getenv on any block has the entries, the gap and the replies that folding the calls gives |
| Environ.RunRefinesMap | libc/src/setenv.c:22-159 | over every run the block is a map from names to values with a gap flag: all variables, the gap and all replies, for every name looked up without '=' |
| Environ.NoNewNames | libc/src/setenv.c:84-86 | once a variable has been removed no new name is ever visible again |
| Environ.IdealExactlyWhen | libc/src/setenv.c:57-145 | throughout a run the block agrees with a map that loses nothing, if and only if the run sets no undefined name after it has removed a defined one |
| Environ.LostVariable | libc/src/setenv.c:84-142 | from "A=1", removing A and setting B succeed and B is not found |
| BootPaging.Paging.constructor | mentos/src/boot.c:40-42 | the tables start out without a present page |
| BootPaging.Paging.FillTable | mentos/src/boot.c:99-107 | the inner loop maps pages to consecutive frames up to the end of the table |
| BootPaging.Paging.SetupPages | mentos/src/boot.c:91-114 | page virt + k is mapped to frame phys + k for every k below the count, present, writable, not user, across tables and dropped at the end of the address space; exactly the touched directory entries are marked; nothing else changes |
| BootPaging.TablesTouched | mentos/src/boot.c:97-97 | the tables the outer loop visits are those with a page in the range |
| BootPaging.SetupBootPaging | mentos/src/boot.c:119-131 | the translation of every 32-bit address under the tables built from empty ones, and every page present is writable, not global and not for users |
| BootPaging.TwoRanges | mentos/src/boot.c:127-130 | the two ranges do not disturb each other |
| BootPaging.IdentityMapping | mentos/src/boot.c:124-128 | a low memory address is mapped to itself if and only if it is not on the last page; there it faults |
| BootPaging.PhysicalStart | mentos/src/boot.c:245-256 | where the kernel is placed, for aligned and unaligned kernels |
| BootPaging.KernelOffset | mentos/src/boot.c:245-256 | kernel addresses translate by the difference of the kernel's virtual and physical start if and only if the lowest virtual address is a multiple of half a page |
| BootPaging.AlignedAddresses | mentos/src/boot.c:245-267 | with an aligned kernel, low memory has the same offset as the kernel at both ends |
| BootPaging.KernelAndLowmem | mentos/src/boot.c:245-275 | with an aligned kernel, every kernel and low memory address translates by one constant offset |
| Strtok.TokensAreRuns | libc/src/string.c:361-418 | the tokens are maximal non-empty runs without delimiters, in order and apart |
| Strtok.TokensCover | libc/src/string.c:361-418 | a character is in a token if and only if it is no delimiter |
| Strtok.AddedHas | libc/src/string.c:374-377 | setting a bit of the table adds that character and no other |
| Strtok.BuildMap | libc/src/string.c:369-377 | the table holds exactly the delimiters and NUL |
| Strtok.StrtokR | libc/src/string.c:361-418 | one call returns the next token or NULL, ends it with a NUL, saves the position behind it and changes nothing else |
| Strtok.Scan | libc/src/string.c:542-546 | the scan of the delimiter string finds exactly the delimiters, and NUL where it is tried too |
| Strtok.SkipDelimiters | libc/src/string.c:540-546 | the first part of strtok stops behind the first character that is no delimiter |
| Strtok.FindEnd | libc/src/string.c:555-571 | the second part of strtok stops behind the delimiter or terminator that ends the token |
| Strtok.Tokenizer.Next | libc/src/string.c:530-572 | one call of strtok returns the same token and makes the same cut as strtok_r; at the end of the text it returns NULL from then on and changes nothing |
| Strtok.CutToken | libc/src/string.c:361-418 | in the buffer left behind, the C string at the start of each token is that token |
| Strtok.CutAt | libc/src/string.c:400-409 | the buffer left behind differs from the original only by the NULs at the ends of the tokens |
| Strtok.SplitR | libc/src/string.c:361-418 | repeated strtok_r returns all tokens in order, then NULL at the end of the text, where it stays |
| Strtok.Split | libc/src/string.c:530-572 | repeated strtok returns the same tokens and leaves the same buffer |

## Left out

- The buddy system: its function bodies are blank in this repository, so there is nothing to model.
- Slab and zone allocators, the scheduler, wait queues, the VFS, EXT2, processes and system calls: mostly hardware, device or file effects around thin logic.
- The hash map and the n-ary tree of `mentos/src/klib`, and of its red-black tree the iterators, the search with a comparison of its own, the callbacks on removed nodes and null arguments.
- The rest of `mentos/src/mem/paging.c`: page directory updates depend on the allocators.
- The PIT, the clock interrupt and its locks, the profiling and virtual timers, and the conversions of `setitimer`: `timer_get_ticks` is a parameter.
- Floating point: IEEE doubles and x87 assembly do not fit Dafny's reals.
- The format dispatcher of `vsprintf` and `skip_atoi`: `number` is modelled with its base and flags as parameters.
- `list_head_empty` and `list_head_size`: one test, which the operations above contain, and a count of the ring.
- `sha256_bytes_to_hex`, `dirname`, `basename`, `atoi`, `memmove`, `strspn`, `strcspn`, `strpbrk`: single scans of a buffer that no modelled function calls.
- The `get` of the ring buffer, which reads a slot by its index whether in use or not, and the ring buffer of dynamic size, which has the same push and pop.
- The lowest and highest kernel address and the relocation of the kernel image in `boot.c`: ELF headers are not part of this model.
- The eight stores of the length and the unrolled copy of the digest in `sha256_final` are written as loops.
- ListRuns.Execute: a run inserts only unlinked entries and appends no list to itself, since the links are wrong after that.
- RbOperations.RedBlackTree.Insert: values are integers under their own order, as the default comparison of pointers has it; an own comparison of the caller is not modelled, nor is a failing allocation.
- Timers.Wheel.Run: at tick 2^32 - 1, which is excluded, the source makes turns for ever, since every 32-bit turn is then no later than the clock; an interval of 2^31 ticks or more is excluded too, since such a timer would be put on the list that is being run.
- Timers.Wheel.RemoveTimer: the place of a timer, which its links give in the source, is a parameter.
- RealPath.RealPath: for paths that are cut off in the working copy of PATH_MAX bytes it states only that nothing past the buffer changes and that the loop ends.
- Rand.Generator.RandUint: bounds that span all 2^32 values are excluded, since the source then divides by zero.
- Rand.Generator.RandInt: spans and sums that overflow an int and spans of zero are excluded, since the source computes them in an int and divides by the span.
- Strtol.Strtol: negative bases are excluded; `errno` is the flag returned.
- Vsprintf.Number: width and precision are unbounded integers; the 32-bit counter does not wrap in the model.
- Strtok.StrtokR: characters above 127 are excluded, since the source indexes its table with a signed char.
- Environ.Environment.Set: failing allocation is not modelled, and a value is not null.
- BootPaging.SetupBootPaging: the kernel must be placed below the end of low memory and linked above it, and the tables start out empty.
- Calendar.LocalTime: the static result is returned as a value, so a second call overwriting the first is not modelled.
