# Aphrodite, modelled in Dafny

The project models the parts of the Aphrodite kernel whose correctness is hardest to see from the code, and proves
what they are for. Functions and lemmas stand for expressions and recursion; classes, arrays and loops stand for code
that changes things step by step, and each such method is proved against a specification.

| files | subject |
|---|---|
| Words, Arith, Counting | 32-bit words, powers of two and alignment, sequences without repetition |
| FdtFormat, FdtBlob, FdtEvents, FdtExample | the flattened device tree as bytes, tokens and events (Devicetree Specification, chapter 5), and one overlay byte by byte |
| FdtWriter, FdtFinish, FdtReserve, FdtRoundTrip | the sequential writer: when it succeeds, and that what it writes is read back and passes the full check |
| FdtNav, FdtTree, FdtPrune, FdtEdit | node walks on well-nested blocks, deleting and blanking nodes in place |
| FdtLookup, FdtSetProp, FdtSetGet | looking properties up, setting them with splices inside the blob, and reading back |
| FdtCheck | fdt_check_full accepts exactly the well-formed blobs |
| FdtPhandle, FdtRaise, FdtFind, FdtFixups, FdtOverlay | the renumbering passes of overlay application |
| FdtMirror | which cells the fixups name, and when both passes succeed, said without the walk |
| FdtListing, FdtPlain, FdtRenumber | which listing the second pass reads, and what a successful run leaves of phandles and references |
| AvlShape, AvlHeights, AvlTree, AvlDelete | the AVL tree with parent links, at the level of its fields, and what becomes of heights and balance |
| Slab, SlabAlloc, SlabRun | the slab allocator, its free chains and whole runs |
| EarlyRegions, Early, EarlyRun | the page allocator of early boot and whole runs |
| ZoneSplit | splitting memory sections at zone boundaries |
| BuddyLists, Buddy | the split path of the buddy allocator |
| TicketLock | the ticket spinlock, over all interleavings of its atomic steps |
| AddrSpace | the hole search of an address space |
| HashMap, HashMapRun | the chained hashmap, as a refinement of a mathematical map, and whole runs |
| WordBits, Bitmap | words and their bits; range setting and the search for a clear bit over bytes |
| Calendar | broken-down time from a timestamp |
| ConvertSpec, ConvertGrammar, Convert | printing and parsing of integers, and the texts that are numbers as a grammar |

How to read the models:

- A device tree blob is its buffer plus the header fields, which are fields of the class `Fdt`. `Layout(s, ts)` says
  that bytes encode tokens; padding is never constrained. `ReadEvents` is what a reader sees: nodes, properties with
  their names resolved, ends and NOPs.
- Positions in trees are zippers: `Path` and `Shape` in the AVL files, `Forest` and token numbers for device trees.
- Ghost parameters carry the abstract value that the heap holds; they have no counterpart in the code.
- Allocation, page and memory failures are parameters of the operations.

Where the code does not do what its name or comments suggest, the code is followed:

- An overlay phandle of 0 is raised to the largest base phandle and so clashes with it (`FdtRenumber.ZeroCollides`);
  all others end up above the base (`FdtRenumber.AboveBase`).
- A fixup property called `phandle` is itself raised by the first pass; the cell that the second pass then finds listed
  lies outside its four-byte property, so the code stores outside it (`FdtListing.PhandleFixupLost`).
  `FdtListing.ListedRaised` says exactly when the listing survives, and `FdtPlain.OriginalList` that it does in every
  run whose listed cells lie inside their properties.
- A reference listed twice is raised twice; `FdtRenumber.FollowsExactly` says exactly when it still names its node.
- On 31 December of a leap year the calendar yields day 0 of the next January (`Calendar.LastDayOf1972`), and on no
  other day (`Calendar.EndOfLeapYear`).
- The signed parser accepts no negative number except -0 (`ConvertSpec.NegativeOnlyZero`).
- A try on the ticket lock that sleeps through exactly 2^32 acquisitions gets in beside the holder, in a run from the
  start (`TicketLock.LongSleep`); `TicketLock.ExchangeExactly` says when an exchange is sound.
- A slab of one object is never released, because its free count is compared with 1 first (`SlabRun.OneObjectStays`,
  `SlabRun.SingleStays`); `SlabAlloc.Allocator.Release` says exactly when a slab goes.
- fdt_check_full lets a header of INT_MAX bytes pass, but then refuses the blob as soon as it holds a node or a property
  (`FdtRoundTrip.LargestRefused`, `FdtCheck.CheckFull`).
- hashmap_resize that runs out of memory half way puts the old table back but leaves the map without its hash function
  (`HashMapRun.ResizeSpoils`); `HashMap.Resize` says exactly when.
- The hole search looks left in the tree only below areas that start past the range, so a hole with room can be missed
  (`AddrSpace.HoleMissed`); `AddrSpace.SearchComplete` says when none is. Behind the last area it does not ask whether
  the new one ends inside the range (`AddrSpace.EndOverruns`).
- A double rotation, and a single one on an evenly heavy child, leave wrong heights in the AVL tree
  (`AvlHeights.HeightTooHigh`); `AvlHeights.Settles` says exactly when the heights stay right.
- An octal number printed with a zero alone as prefix has that zero stored one place too early, so that its text begins
  with whatever the buffer held (`Convert.BareZeroLost`, `Convert.Print`).

## Model

| member | source | states |
|---|---|---|
| FdtBlob.OffsetPtr | kernel/src/fdt/fdt.c:141-161 | the wrapping 32-bit bounds checks accept exactly the ranges inside the structure block |
| FdtBlob.ReadTag | kernel/src/fdt/fdt.c:163-222 | the byte loop of fdt_next_tag computes the tag scanner NextTag of the block, error codes included |
| FdtFormat.NextTagReads | kernel/src/fdt/fdt.c:163-222 | the scanner reads back every encoded token and lands just behind its padding, whatever the padding holds |
| FdtFormat.DecodeLayout | kernel/src/fdt/fdt.c:163-222 | decoding with the scanner undoes the encoding of any token sequence |
| FdtExample.BeginWord | kernel/src/fdt/fdt.c:163-222 | the tag word 1 steps over a name and its NUL, padded |
| FdtExample.PropWord | kernel/src/fdt/fdt.c:163-222 | the tag word 3 steps over 12 bytes and the value, padded, and is read as length, name offset and value in this order |
| FdtExample.OtherWords | kernel/src/fdt/fdt.c:163-222 | the tag words 2, 4 and 9 step over four bytes, every other word is refused |
| FdtExample.BlockDecodes | kernel/src/fdt/fdt.h:53-58 | a literal block with nodes, properties and a NOP decodes to the expected tokens |
| FdtExample.OverlayReads | kernel/src/fdt/fdt_ro.c:35-98 | with a literal strings block it reads as the expected nodes and properties, names in letters |
| FdtExample.OverlayListed | kernel/src/fdt/fdt_overlay.c:202-307 | its fixups list exactly the reference they are for |
| FdtExample.OverlayPhandle | kernel/src/fdt/fdt_ro.c:514-529 | the phandle of its root is the number in it |
| FdtExample.EntryBytes | kernel/src/fdt/fdt_sw.c:201-202 | a reservation at literal numbers, byte by byte: address, then size |
| FdtExample.TwiceNeeds | kernel/src/fdt/fdt_sw.c:252-338 | the bytes the writer needs for a literal document, with and without shared names |
| FdtBlob.FindString | kernel/src/fdt/fdt.c:318-328 | the result is the least place where the terminated name occurs, or none exists |
| FdtBlob.GetString | kernel/src/fdt/fdt_ro.c:35-99 | a string offset yields the terminated string inside the strings block, or an error exactly when there is none |
| FdtWriter.GrabSpace | kernel/src/fdt/fdt_sw.c:95-108 | space is granted exactly when it fits between the structure block and the string table |
| FdtWriter.WriteBeginNode | kernel/src/fdt/fdt_sw.c:220-236 | the written document gains exactly a node start, or the state error or NOSPACE is returned and nothing changes |
| FdtWriter.WriteEndNode | kernel/src/fdt/fdt_sw.c:238-250 | the written document gains exactly a node end, or an error and no change |
| FdtWriter.AddString | kernel/src/fdt/fdt_sw.c:252-267 | the table grows downwards by the terminated name and the structure block keeps its bytes, or there is no room |
| FdtWriter.NameOffset | kernel/src/fdt/fdt_sw.c:278-293 | the returned negative offset names the string; the name is added unless deduplication is on and it occurs |
| FdtWriter.DelLastString | kernel/src/fdt/fdt_sw.c:270-276 | the name added last is gone and the table is what it was |
| FdtWriter.WriteProperty | kernel/src/fdt/fdt_sw.c:295-338 | the written document gains exactly this property; without room NOSPACE is returned and the name added on the way is rolled back |
| FdtFinish.Create | kernel/src/fdt/fdt_sw.c:110-142 | creation leaves an empty blob in the reservation state, or reports a short buffer or bad flags |
| FdtFinish.AddReservation | kernel/src/fdt/fdt_sw.c:189-207 | the reservation map gains exactly this entry, or an error and no change |
| FdtFinish.FinishReservations | kernel/src/fdt/fdt_sw.c:209-218 | the map is closed by a zero entry and the blob enters the structure state with an empty document |
| FdtFinish.PatchNames | kernel/src/fdt/fdt_sw.c:362-375 | the loop over all tags turns every negative name offset into the offset from the start of the table and changes nothing else |
| FdtFinish.Finish | kernel/src/fdt/fdt_sw.c:340-387 | a reader of the finished blob sees exactly the events that were written, in order |
| FdtFinish.WriteEvents | kernel/src/fdt/fdt_sw.c:220-338 | the calls for a sequence of events succeed exactly when structure and deduplicated names fit; then the blob holds exactly these events and names |
| FdtFinish.BuildBlob | kernel/src/fdt/fdt_sw.c:110-387 | for every run of the writer: it succeeds exactly when header, reservations, structure and shared names fit the buffer, and then the blob has that size and reads back as the written events and reservation map |
| FdtReserve.Be64Reads | kernel/src/fdt/fdt_sw.c:201-202 | reading eight big-endian bytes undoes writing them |
| FdtReserve.MapReads | kernel/src/fdt/fdt_sw.c:189-218 | every entry of a written map reads back as its address and size, and a zero entry closes it |
| FdtReserve.CountIs | kernel/src/fdt/fdt_ro.c:190-200 | the count of a written map goes up to its first entry of size 0, all of them if there is none |
| FdtReserve.GetMemRsv | kernel/src/fdt/fdt_ro.c:161-188 | the address and size at the place of the entry, or an error exactly when it lies outside the blob |
| FdtReserve.BuildThenReserved | kernel/src/fdt/fdt_ro.c:161-200 | after every successful run of the writer entry n reads back as the n-th reservation, and the count is the number of reservations if none has size 0 |
| FdtNav.CheckNodeOffset | kernel/src/fdt/fdt.c:224-234 | an offset is accepted exactly when it is aligned and a node starts there |
| FdtNav.NextNodeLoop | kernel/src/fdt/fdt.c:248-288 | the loop of fdt_next_node with its depth counter refines the recursive walk NextNode, for every offset and depth |
| FdtNav.FirstSubnodeLoop | kernel/src/fdt/fdt.c:290-299 | fdt_first_subnode refines its recursive form |
| FdtNav.NextSubnodeLoop | kernel/src/fdt/fdt.c:301-316 | the loop of fdt_next_subnode refines its recursive form |
| FdtNav.NodeEndLoop | kernel/src/fdt/fdt_wip.c:74-82 | the loop of fdt_node_end_offset_ refines its recursive form |
| FdtTree.FirstSubnodeFinds | kernel/src/fdt/fdt.c:290-299 | on a well-nested block it is the first direct child, or NOTFOUND when there is none |
| FdtTree.NextSubnodeFinds | kernel/src/fdt/fdt.c:301-316 | on a well-nested block it skips the subtree and finds the next sibling, or NOTFOUND |
| FdtTree.NodeEndFinds | kernel/src/fdt/fdt_wip.c:74-82 | it is the offset just past the matching END_NODE |
| FdtTree.EachSubnode | kernel/src/fdt/fdt.c:290-316 | the iteration visits exactly the direct children, in order |
| FdtEdit.Shift | kernel/src/fdt/fdt_rw.c:55-71 | the memmove keeps everything before the splice point and moves everything behind it |
| FdtEdit.SpliceCheck | kernel/src/fdt/fdt_rw.c:55-71 | the checks before the memmove: BADOFFSET, NOSPACE or success, exactly by where the data ends |
| FdtEdit.SpliceStruct | kernel/src/fdt/fdt_rw.c:87-99 | room is made in the structure block; both sides of the splice, the strings and the front keep their bytes, or NOSPACE and no change |
| FdtEdit.DelNode | kernel/src/fdt/fdt_rw.c:389-401 | the block becomes that of the tree without the subtree; strings and reservation map stay; the error is that of the probe |
| FdtEdit.NopRegion | kernel/src/fdt/fdt_wip.c:52-58 | exactly the region becomes NOP words |
| FdtEdit.NopNode | kernel/src/fdt/fdt_wip.c:84-95 | the node becomes as many NOPs as it had words, so no other offset moves |
| FdtPrune.BlankTokens | kernel/src/fdt/fdt_wip.c:84-95 | blanking a node replaces exactly its tokens by NOPs |
| FdtPrune.RemoveIsCut | kernel/src/fdt/fdt_rw.c:389-401 | removing a node is blanking it with no NOPs at all |
| FdtPrune.BlankIsRemoved | kernel/src/fdt/fdt_wip.c:84-95 | NOPs ignored, blanking and deleting a node leave the same tree |
| FdtPrune.PathTo | kernel/src/fdt/fdt_rw.c:389-401 | every node of a tree, at any depth, is one that can be deleted or blanked |
| FdtLookup.StringEq | kernel/src/fdt/fdt_ro.c:106-113 | true exactly when the stored string is the given name |
| FdtLookup.NextProp | kernel/src/fdt/fdt_ro.c:202-224 | NOPs are skipped; the next property, NOTFOUND at a node tag, BADSTRUCTURE at the end |
| FdtLookup.SearchProps | kernel/src/fdt/fdt_ro.c:398-426 | the search finds the first own property of that name, or the exact error |
| FdtLookup.GetProperty | kernel/src/fdt/fdt_ro.c:447-453 | offset and length of the first own property of that name, or the exact error |
| FdtLookup.GetProp | kernel/src/fdt/fdt_ro.c:455-472 | the bytes returned are the value of the first own property of that name |
| FdtSetProp.SetThenGet | kernel/src/fdt/fdt_rw.c:263-294 | after setting a property a lookup yields the new value |
| FdtSetProp.SetKeepsOthers | kernel/src/fdt/fdt_rw.c:263-294 | every other property of every node keeps its value, and no other appears |
| FdtSetProp.ResizeValue | kernel/src/fdt/fdt_rw.c:188-205 | the property has the new length and value, all other tokens stay; NOSPACE exactly when the data would not fit |
| FdtSetProp.FindAddString | kernel/src/fdt/fdt_rw.c:131-157 | the index names the string; it is appended exactly when it did not occur |
| FdtSetProp.DropString | kernel/src/fdt/fdt_rw.c:102-107 | the appended name is gone and the strings are what they were |
| FdtSetProp.AddProperty | kernel/src/fdt/fdt_rw.c:207-238 | the document gains exactly this property at the front of the node; on NOSPACE structure and strings are restored |
| FdtSetProp.SetProp | kernel/src/fdt/fdt_rw.c:263-294 | the result code is foretold from the blob; on success the document reads as before with exactly that property set, on failure it is unchanged |
| FdtSetGet.OffOfEvent | kernel/src/fdt/fdt.c:163-222 | the offset of every token follows from the events alone |
| FdtSetGet.SetThenRead | kernel/src/fdt/fdt_ro.c:455-472 | on the blob after a successful fdt_setprop, fdt_getprop at the same offset returns the new value |
| FdtSetGet.SetThenReadOther | kernel/src/fdt/fdt_ro.c:455-472 | and for every other node or name, at the offset moved by the growth of the value or the new property, exactly the value or the error code it returned before |
| FdtSetGet.SetFits | kernel/src/fdt/fdt_rw.c:201-294 | setting a property succeeds on a node exactly when there is room for the document to grow to its new size, and for the name if it is new |
| FdtSetGet.OtherMoved | kernel/src/fdt/fdt_rw.c:263-294 | where every other node is after the change |
| FdtCheck.CheckBlock | kernel/src/fdt/fdt.c:58-68 | the wrapping sum accepts exactly the blocks inside the blob |
| FdtCheck.CheckHeader | kernel/src/fdt/fdt.c:90-139 | 0 exactly when magic, versions and the three block ranges are sound |
| FdtCheck.NumMemRsv | kernel/src/fdt/fdt_ro.c:161-200 | the number of entries before the closing one, TRUNCATED when the map does not end in the blob |
| FdtCheck.GetNodeName | kernel/src/fdt/fdt_ro.c:304-340 | the length of the node's name |
| FdtCheck.GetPropByOffset | kernel/src/fdt/fdt_ro.c:474-506 | an error exactly when the name does not resolve |
| FdtCheck.LevelForest | kernel/src/fdt/fdt_check.c:49-94 | the tags accepted inside a node are a well-nested forest up to the matching END_NODE |
| FdtCheck.AcceptsPast | kernel/src/fdt/fdt_check.c:49-94 | behind a well-nested forest the depth counter is back where it was |
| FdtCheck.BytesAreTokens | kernel/src/fdt/fdt_check.c:38-95 | the pass over the bytes accepts exactly when they decode, the pass over the tokens accepts and, if the read probe fails, none of them carries a name |
| FdtCheck.AcceptsExactly | kernel/src/fdt/fdt_check.c:38-95 | the pass with a depth counter accepts exactly the well-nested blocks with at most one root, nameless, all names resolving and readable |
| FdtCheck.CheckTag | kernel/src/fdt/fdt_check.c:49-94 | one turn of the loop: the verdict on the rest is the verdict on the whole |
| FdtCheck.ScanTurn | kernel/src/fdt/fdt_check.c:38-95 | a turn ends with the verdict on what is left, or moves on with the same verdict |
| FdtCheck.ScanStructure | kernel/src/fdt/fdt_check.c:38-95 | the scanning loop ends, and accepts exactly the well-formed blocks that the read probe lets through or that hold no name |
| FdtCheck.CheckFull | kernel/src/fdt/fdt_check.c:13-96 | 0 exactly for a sound header and a well-formed tree, in a blob of fewer than INT_MAX bytes or without nodes and properties |
| FdtRoundTrip.SpelledForest | kernel/src/fdt/fdt_sw.c:220-338 | the tokens of any written document are a well-nested forest |
| FdtRoundTrip.WrittenWellFormed | kernel/src/fdt/fdt_check.c:38-95 | a block that reads as a rooted document is well formed |
| FdtRoundTrip.MapEnds | kernel/src/fdt/fdt_ro.c:190-200 | a written reservation map ends, whatever entries it holds |
| FdtRoundTrip.WriteThenCheck | kernel/src/fdt/fdt_check.c:13-96 | every rooted document that fits is written, reads back as written, and is accepted by fdt_check_full exactly when it takes up fewer than INT_MAX bytes |
| FdtRoundTrip.LargestRefused | kernel/src/fdt/fdt_check.c:13-96 | a sound, well-formed blob of INT_MAX bytes that the full check refuses |
| FdtPhandle.StoreWord | kernel/src/fdt/fdt_overlay.c:119-119 | storing a word into a cell changes that cell of the document and nothing else in the blob |
| FdtPhandle.GetPhandle | kernel/src/fdt/fdt_ro.c:514-529 | the phandle cell, else the linux,phandle cell, else 0; cells of a wrong length are passed over |
| FdtPhandle.NextNodeAnywhere | kernel/src/fdt/fdt.c:248-288 | without a depth argument: the next node at any depth, or NOTFOUND |
| FdtPhandle.MaxPhandleIs | kernel/src/fdt/fdt_ro.c:115-141 | the maximum bounds every phandle and, unless 0, is the phandle of some node |
| FdtPhandle.FindMaxPhandle | kernel/src/fdt/fdt_ro.c:115-141 | the loop over all nodes returns that maximum |
| FdtRaise.AddOffset | kernel/src/fdt/fdt_overlay.c:102-121 | BADPHANDLE on a wrong length, NOPHANDLES on wrap-around or on reaching -1, else exactly that cell is raised |
| FdtRaise.AdjustOwn | kernel/src/fdt/fdt_overlay.c:144-150 | both names of one node: success exactly when each present cell has room, and then exactly these are raised |
| FdtRaise.RaisedTwice | kernel/src/fdt/fdt_overlay.c:138-159 | the recursion over subtrees raises no phandle twice |
| FdtRaise.AllRoomBehind | kernel/src/fdt/fdt_overlay.c:138-159 | what has been raised already does not change the verdict on the nodes behind |
| FdtRaise.AdjustNode | kernel/src/fdt/fdt_overlay.c:138-159 | success exactly when every phandle of the subtree has room; then exactly these phandles are raised, in place |
| FdtRaise.AdjustLocalPhandles | kernel/src/fdt/fdt_overlay.c:175-181 | the same for the whole overlay |
| FdtFind.NodeNameEq | kernel/src/fdt/fdt_ro.c:14-33 | true exactly when the name is equal, or equal up to a unit address that the wanted name leaves out |
| FdtFind.ScanNamedFinds | kernel/src/fdt/fdt_ro.c:226-243 | the walk over all descendants ends at the first direct child of that name |
| FdtFind.SubnodeOffset | kernel/src/fdt/fdt_ro.c:226-249 | the offset of the first direct child of that name, or NOTFOUND |
| FdtFixups.OutcomeStep | kernel/src/fdt/fdt_overlay.c:202-270 | after a part of the walk, the rest of the listing is still to be done and is still the same |
| FdtFixups.FixSubsSame | kernel/src/fdt/fdt_overlay.c:202-270 | raising cells outside the fixups does not change what the fixups list |
| FdtFixups.UpdateProp | kernel/src/fdt/fdt_overlay.c:211-247 | one fixup property: the exact error, and every listed cell raised |
| FdtFixups.UpdateNode | kernel/src/fdt/fdt_overlay.c:202-270 | the recursion returns the error of the listing and raises exactly the cells listed up to there, in order |
| FdtOverlay.UpdateLocalReferences | kernel/src/fdt/fdt_overlay.c:289-307 | the same from /__local_fixups__; without such a node nothing happens |
| FdtOverlay.Renumber | kernel/src/fdt/fdt_overlay.c:1045-1065 | the first three steps: success exactly when all phandles have room and the listing is sound; then the overlay is the renumbered one |
| FdtListing.FixNodeEquals | kernel/src/fdt/fdt_overlay.c:202-270 | documents that differ only in values have listings of the same length and the same verdict |
| FdtListing.FixNodeDiffers | kernel/src/fdt/fdt_overlay.c:202-270 | a changed word anywhere among the fixups changes an errorless listing |
| FdtListing.ListedRaised | kernel/src/fdt/fdt_overlay.c:102-270 | the second pass sees the original listing if and only if nothing is raised or no fixup node has a property that passes for a phandle |
| FdtListing.PhandleFixupLost | kernel/src/fdt/fdt_overlay.c:102-270 | overlays with a fixup called phandle, whose listing names another cell after the first pass: one outside its property as soon as anything is raised |
| FdtMirror.MatchesMeans | kernel/src/fdt/fdt_ro.c:14-33 | a name is matched exactly if it is the same, or goes on with a unit address that the wanted name leaves out |
| FdtMirror.ChildIs | kernel/src/fdt/fdt_ro.c:226-243 | the child found by name is the first event that begins a node of that name directly inside the parent |
| FdtMirror.FindsFirst | kernel/src/fdt/fdt_ro.c:398-426 | the property found by name is the first of that name among those at the front of the node |
| FdtMirror.PhandleIs | kernel/src/fdt/fdt_ro.c:514-529 | the phandle of a node is its word called phandle, or else the one called linux,phandle, or else 0 |
| FdtMirror.ListedIs | kernel/src/fdt/fdt_overlay.c:202-307 | the list is what the events of the overlay add to it in their order, up to the first error |
| FdtMirror.ListedExactly | kernel/src/fdt/fdt_overlay.c:202-307 | the fixups are accepted exactly if each fixup node has a mate at the same path of names with the properties it speaks of, in whole words; each cell is then listed as often as a word of a fixup property names it |
| FdtMirror.RenumbersExactly | kernel/src/fdt/fdt_overlay.c:102-307 | both passes succeed exactly if every phandle is a word that can be raised below 0xffffffff and all fixups are good |
| FdtPlain.PlainListsReferences | kernel/src/fdt/fdt_overlay.c:202-270 | fixups without a phandle of their own list no cell of a phandle |
| FdtPlain.SucceedsPlain | kernel/src/fdt/fdt_overlay.c:102-270 | where phandles are raised and all cells that the second pass finds listed lie inside their properties, no fixup node had a property that passes for a phandle |
| FdtPlain.OriginalList | kernel/src/fdt/fdt_overlay.c:102-307 | every successful run works off the listing of the original overlay, and lists no phandle |
| FdtRenumber.PhandlesAfter | kernel/src/fdt/fdt_overlay.c:102-270 | after a successful run every phandle of the overlay is raised exactly once, without wrap-around |
| FdtRenumber.AboveBase | kernel/src/fdt/fdt_overlay.c:1053-1060 | an overlay phandle is then above every base phandle if and only if it was not 0 |
| FdtRenumber.ZeroCollides | kernel/src/fdt/fdt_overlay.c:114-119 | an overlay whose root has phandle 0 ends up, after a successful run, with the phandle of the base root |
| FdtRenumber.CellAfter | kernel/src/fdt/fdt_overlay.c:202-270 | a cell outside the phandles is raised as often as the original overlay lists it; an unlisted one keeps its value |
| FdtRenumber.CellNamed | kernel/src/fdt/fdt_overlay.c:202-307 | a cell outside the phandles is raised as often as a fixup at the path of its node names it |
| FdtRenumber.ReferencesFollow | kernel/src/fdt/fdt_overlay.c:202-270 | a cell listed once names the same overlay nodes after a run as before, and is raised without wrap-around when it names one |
| FdtRenumber.FollowsExactly | kernel/src/fdt/fdt_overlay.c:202-270 | a reference listed any number of times still names its node if and only if the raises beyond the first add up to nothing |
| FdtRenumber.RenumberThenRead | kernel/src/fdt/fdt_overlay.c:1045-1065 | the run on the blobs, then fdt_get_phandle on any overlay node: its old phandle plus the largest of the base, above all base phandles if and only if it was not 0 |
| FdtRenumber.RenumberThenFollow | kernel/src/fdt/fdt_overlay.c:1045-1065 | the run on the blobs, then a cell listed once read beside the phandle of any node: they agree if and only if they did before |
| AvlTree.GetLink | lib/adt/avltree.c:218-226 | the link returned is the one that points to the node |
| AvlTree.RotateLeft | lib/adt/avltree.c:149-174 | the rotated subtree is linked in both directions and keeps its nodes and order |
| AvlTree.RotateRight | lib/adt/avltree.c:176-201 | the mirror image |
| AvlTree.RightHeavy | lib/adt/avltree.c:248-272 | for any stored heights no null child is followed; the subtree is rotated once or twice as its stored heights say, keeps its in-order sequence and stays linked in its place |
| AvlTree.LeftHeavy | lib/adt/avltree.c:273-296 | the mirror image |
| AvlTree.Rebalance | lib/adt/avltree.c:245-302 | one turn of the fixup keeps the in-order sequence and all links, and leaves the shape and the stored heights that the stored heights before determine |
| AvlTree.Fixup | lib/adt/avltree.c:235-306 | every ancestor gets its turn, on shape and stored heights; the whole tree is linked and its in-order sequence unchanged |
| AvlHeights.Settles | lib/adt/avltree.c:235-306 | a node with balanced subtrees, right heights and a difference of two at most is balanced after its turn; its heights are right exactly if it was not rotated, or once with a strictly heavier outer side |
| AvlHeights.ClimbRepairs | lib/adt/avltree.c:235-306 | a subtree that got one higher or lower is balanced by the climb, with right heights, if every turn is of that kind |
| AvlHeights.HeightTooHigh | lib/adt/avltree.c:255-262 | a double rotation of three nodes stores height 3 at the top of a tree of depth 2 |
| AvlTree.InsertAtLoc | lib/adt/avltree.c:308-330 | the in-order sequence gains exactly the node, at the given place, and the climb from there decides the shape |
| AvlTree.FindPlace | lib/adt/avltree.c:332-361 | the descent finds a place between the nodes ordered before and after, or an equal node |
| AvlTree.Insert | lib/adt/avltree.c:332-361 | the in-order sequence gains exactly the node, between smaller and larger ones when the tree is ordered; an equal node refuses it |
| AvlDelete.FindSuccessor | lib/adt/avltree.c:428-434 | the leftmost node of the right subtree, which heads its in-order sequence |
| AvlDelete.TradeNear | lib/adt/avltree.c:455-477 | the right child takes the place of the node |
| AvlDelete.TradeFar | lib/adt/avltree.c:428-454 | a successor further down takes the place of the node |
| AvlDelete.Exchange | lib/adt/avltree.c:423-479 | the node and its successor trade places; everything else keeps its order |
| AvlDelete.Demote | lib/adt/avltree.c:415-481 | afterwards the node has at most one child |
| AvlDelete.DropAt | lib/adt/avltree.c:481-489 | the node is replaced by its only subtree, and the climb from there decides shape and stored heights |
| AvlDelete.DeleteAt | lib/adt/avltree.c:415-489 | unlinking and fixup leave a linked tree with exactly the node missing |
| AvlDelete.Delete | lib/adt/avltree.c:415-489 | the in-order sequence loses exactly the given node |
| Slab.Built | kernel/src/mm/slab.c:182-196 | the free chain built for a new slab runs through every object once, in order |
| Slab.Page.constructor | kernel/src/mm/slab.c:158-199 | a new slab holds exactly that chain |
| Slab.Page.Take | kernel/src/mm/slab.c:227-235 | the first object of the chain is taken and the rest is the chain |
| Slab.Page.Give | kernel/src/mm/slab.c:348-352 | a returned object heads the chain |
| Slab.Page.Scribble | kernel/src/mm/slab.c:310-357 | writing into a live object cannot disturb the chain |
| SlabAlloc.TakenInv | kernel/src/mm/slab.c:201-243 | taking keeps the invariant: chains duplicate-free and in bounds, listed slabs exactly those with a free object, counts exact |
| SlabAlloc.GivenInv | kernel/src/mm/slab.c:310-357 | giving back keeps it |
| SlabAlloc.ReleasedInv | kernel/src/mm/slab.c:327-340 | releasing a slab keeps it |
| SlabAlloc.ReleasedInUse | kernel/src/mm/slab.c:327-340 | releasing an all-free slab takes no live object away |
| SlabAlloc.Allocator.Grow | kernel/src/mm/slab.c:158-199 | a new slab is listed, no object becomes live |
| SlabAlloc.Allocator.Alloc | kernel/src/mm/slab.c:201-290 | NULL exactly without a free object and without a page; else an object that was not live before, at its offset: the first free one of the first listed slab, or one of a new slab exactly when none is listed |
| SlabAlloc.Allocator.Release | kernel/src/mm/slab.c:310-357 | exactly the given object stops being live, and its slab goes exactly when it was the last one in use on a slab of several |
| SlabAlloc.Sizes | kernel/src/mm/slab.c:119-156 | object size, slab order and objects per slab: the smallest order that fits, filled as far as possible |
| SlabAlloc.ObjectsDisjoint | kernel/src/mm/slab.c:119-156 | different objects of a slab share no byte and lie inside it |
| SlabRun.NoneListed | kernel/src/mm/slab.c:201-243 | the list of slabs is empty exactly when every object of every slab is live |
| SlabRun.LastInUse | kernel/src/mm/slab.c:327-340 | the free count tells exactly whether an object is the last one in use on its slab |
| SlabRun.HeldOnce | kernel/src/mm/slab.c:201-357 | in every sequence of requests answered so, no object is held twice |
| SlabRun.NoIdleSlab | kernel/src/mm/slab.c:310-357 | in every run with several objects to a slab, somebody holds an object of every slab that exists |
| SlabRun.SingleStays | kernel/src/mm/slab.c:327-340 | in every run with one object to a slab, no slab ever goes |
| SlabRun.OneObjectStays | kernel/src/mm/slab.c:327-340 | a slab of one object is still there when its only object has been returned |
| SlabRun.Step | kernel/src/mm/slab.c:201-357 | one request against the view of the callers: what is handed out, refused, held afterwards and which slabs exist; the held objects are exactly the live ones |
| SlabRun.Run | kernel/src/mm/slab.c:201-357 | every run answers every request so: no object is handed out while held, a slab is made only when all objects are held, and a request fails only then and without pages |
| Early.FindPlace | kernel/src/mm/early.c:62-77 | the place that keeps the list sorted by page count |
| Early.Allocator.Claim | kernel/src/mm/early.c:79-162 | a separate region is added to both lists: exactly its pages become free |
| EarlyRegions.CutInv | kernel/src/mm/early.c:164-189 | taking pages off a region keeps both orderings, the disjointness and the total |
| EarlyRegions.CutFree | kernel/src/mm/early.c:164-189 | exactly the pages cut off stop being free |
| EarlyRegions.AddedInv | kernel/src/mm/early.c:62-77 | adding a region keeps both orderings, the disjointness and the total |
| Early.Allocator.AllocPage | kernel/src/mm/early.c:164-189 | fails exactly when no page is free; else the last page of the smallest region is taken and the count drops by one |
| Early.HighestFit | kernel/src/mm/early.c:205-227 | the aligned run found by rounding down is the highest that fits the region, or none fits |
| Early.FindLarge | kernel/src/mm/early.c:205-227 | the highest aligned run of the first region in the list that has one, or none has one |
| Early.NoRun | kernel/src/mm/early.c:205-227 | a run of free pages lies in one region, so without a fitting region there is no run |
| Early.Allocator.SplitOff | kernel/src/mm/early.c:233-269 | a run in the middle is cut out; both remainders stay listed in order |
| Early.Allocator.AllocLarge | kernel/src/mm/early.c:191-292 | fails exactly when the free pages hold no aligned run of that size; else the highest one of the first region that has one is taken |
| EarlyRun.Run | kernel/src/mm/early.c:164-292 | every run: each request is answered from the pages free at that moment, with an aligned block of its size or, exactly without one, a failure; the counter follows |
| EarlyRun.BlocksApart | kernel/src/mm/early.c:164-292 | no page is handed out twice |
| EarlyRun.Conserved | kernel/src/mm/early.c:164-292 | free pages and handed out blocks are together the pages of the start |
| ZoneSplit.FindBoundary | kernel/src/mm/early.c:829-846 | the halving search with its rounding drift, aligned up, is exactly the zone boundary |
| ZoneSplit.FindsBoundary | kernel/src/mm/early.c:829-846 | a section whose ends lie in different zones has such a boundary |
| ZoneSplit.SectionTable.SplitAt | kernel/src/mm/early.c:812-827 | the section is replaced by its two halves, or the table is full |
| ZoneSplit.PfnIs | kernel/src/mm/section.c:62-73 | phys_to_pfn counts pages from the front of the first section that holds the address |
| ZoneSplit.PairPfn | kernel/src/mm/early.c:812-827 | two halves number every page as the whole did |
| ZoneSplit.ReplaceSplit | kernel/src/mm/section.c:62-73 | after a split phys_to_pfn gives every address the number it had |
| ZoneSplit.SameEnds | kernel/src/mm/early.c:848-868 | a section whose ends lie in one zone lies in it altogether |
| ZoneSplit.BreaksBehind | kernel/src/mm/early.c:829-846 | the first boundary is one of the zone boundaries counted inside a section, and the others lie behind it |
| ZoneSplit.SectionTable.Visit | kernel/src/mm/early.c:848-868 | one turn of the loop leaves a single-zone section and all page numbers as they were, and each split uses up one boundary |
| ZoneSplit.SectionTable.SplitAll | kernel/src/mm/early.c:848-868 | the loop ends with page-aligned single-zone sections and all page numbers as they were; it does so exactly when the sections and the zone boundaries inside them together fit the table |
| ZoneSplit.X86ZoneMap | kernel/src/arch/x86_64/mm/zone.c:25-31 | the zones of x86_64 part at 4 GiB, and meet what the search relies on |
| BuddyLists.TakenFacts | kernel/src/mm/page_alloc.c:117-142 | taking the first block of a list keeps blocks disjoint and removes exactly its pages |
| BuddyLists.PutDisjoint | kernel/src/mm/page_alloc.c:47-70 | linking a block of pages that were not free keeps all blocks disjoint |
| Buddy.Section.constructor | kernel/src/mm/section.c:13-33 | a new section has no blocks and empty bounds |
| Buddy.Section.TakeOffToAddLater | kernel/src/mm/page_alloc.c:72-115 | the first block of the order is taken; min_order still bounds every nonempty order |
| Buddy.Section.TakeOff | kernel/src/mm/page_alloc.c:117-142 | the same, with both bounds and the page total |
| Buddy.Section.GetFrom | kernel/src/mm/page_alloc.c:144-158 | succeeds exactly when the list of that order is nonempty |
| Buddy.Section.Link | kernel/src/mm/page_alloc.c:47-70 | exactly the pages of the block become free |
| Buddy.Section.FreeExtra | kernel/src/mm/page_alloc.c:209-234 | exactly the pages beyond the wanted run become free again, as halves of falling order |
| Buddy.Section.Alloc | kernel/src/mm/page_alloc.c:507-531 | succeeds exactly when a block of at least that order exists; takes the first block of the least such order, and free blocks and the returned run partition the old free pages |
| Buddy.Section.StartOrder | kernel/src/mm/page_alloc.c:166-174 | the largest order below the limit that fits into the amount |
| Buddy.Section.FreeRange | kernel/src/mm/page_alloc.c:160-207 | exactly the range becomes free, cut from its front into the largest blocks that fit; the total grows by its size |
| Buddy.TooFew | kernel/src/mm/page_alloc.c:475-478 | a zone that has a block of the order has at least that many free pages, so the early exit is sound |
| Buddy.AllocFromZone | kernel/src/mm/page_alloc.c:470-537 | the first section with a block of at least that order is chosen and alone changes; it fails exactly when there is none |
| TicketLock.FetchAddKeeps | kernel/src/cpu/spinlock.c:19-33 | drawing a ticket keeps the invariant: outstanding tickets are the distinct values between front and back |
| TicketLock.PollSees | kernel/src/cpu/spinlock.c:19-33 | a waiting CPU sees its own word exactly when its ticket is next |
| TicketLock.PollKeeps | kernel/src/cpu/spinlock.c:19-33 | entering keeps it |
| TicketLock.ReleaseKeeps | kernel/src/cpu/spinlock.c:35-37 | releasing keeps it |
| TicketLock.LoadFrontKeeps | kernel/src/cpu/spinlock.c:39-48 | the second load of a try keeps it |
| TicketLock.CompareExchangeKeeps | kernel/src/cpu/spinlock.c:39-48 | the exchange keeps it, and succeeds only on a free lock |
| TicketLock.RunKeeps | kernel/src/cpu/spinlock.c:19-48 | the invariant holds after every interleaving |
| TicketLock.MutualExclusion | kernel/src/cpu/spinlock.c:19-48 | at most one CPU holds the lock, in every interleaving |
| TicketLock.FirstComeFirstServed | kernel/src/cpu/spinlock.c:19-48 | CPUs enter in the order of their tickets |
| TicketLock.NeverStuck | kernel/src/cpu/spinlock.c:19-33 | while tickets are outstanding a CPU holds the lock or can enter |
| TicketLock.ExchangeExactly | kernel/src/cpu/spinlock.c:39-48 | an exchange keeps the invariant if and only if a matching back means a free lock |
| TicketLock.Rounds | kernel/src/cpu/spinlock.c:19-37 | any number of acquisitions of one CPU while the other stands before its exchange |
| TicketLock.LongSleep | kernel/src/cpu/spinlock.c:39-48 | a run from the start in which a try sleeps through 2^32 acquisitions and then holds the lock beside another CPU |
| AddrSpace.AlignUp | lib/align.c:17-31 | the least aligned address from the given one on, or failure exactly on overflow of the sum |
| AddrSpace.TryHole | lib/adt/addrspace.c:52-82 | found exactly if the least aligned address of the hole has room in the hole and in the range; the walk goes on exactly if not and the hole is not past the range |
| AddrSpace.TryEnd | lib/adt/addrspace.c:105-129 | the least aligned address behind the last area, found exactly if that area ends inside the range and no sum overflows |
| AddrSpace.TryEmpty | lib/adt/addrspace.c:155-166 | without areas, the least aligned address of the range, found exactly if it has room in the range |
| AddrSpace.Climb | lib/adt/addrspace.c:100-144 | climbing reaches the next node in order, and finds none exactly behind the last |
| AddrSpace.Traverse | lib/adt/addrspace.c:40-146 | the walk strictly advances in order, visits what is left of the in-order traversal, and stops with its answer or goes on in a right subtree |
| AddrSpace.FindFromStart | lib/adt/addrspace.c:148-208 | for any tree over the list and any hints, the walk ends and returns the first hole with room of the in-order traversal less the subtrees passed over, or else the place behind the last area |
| AddrSpace.ScanMissesNone | lib/adt/addrspace.c:148-208 | of the holes visited none with room is missed, and the one found is the first |
| AddrSpace.SearchComplete | lib/adt/addrspace.c:148-208 | with truthful hints and no left subtree passed over for its place, every hole with room makes the search find one |
| AddrSpace.HoleMissed | lib/adt/addrspace.c:174-188 | a tree of two areas with truthful hints where a hole with room is not found |
| AddrSpace.EndOverruns | lib/adt/addrspace.c:105-129 | behind the last area two pages are found where the range has one left |
| AddrSpace.PlacedSorted | lib/adt/addrspace.c:251-291 | placing a fitting area keeps the list sorted and pairwise disjoint |
| AddrSpace.FindSpaceAndAdd | lib/adt/addrspace.c:251-291 | the address the search is to return, or INVALID; it is aligned to PAGE_SIZE << order, does not overflow, is clear of every area, and the list stays sorted with the area at its place |
| AddrSpace.CompareMeans | lib/adt/addrspace.c:237-249 | the comparison tells before, behind and overlapping apart |
| AddrSpace.CompareSplits | lib/adt/addrspace.c:237-249 | over a sorted list the comparison is monotone, as the tree insertion needs |
| HashMap.Find | lib/adt/hashmap.c:208-212 | the node of that key in a bucket, or none |
| HashMap.Map.constructor | lib/adt/hashmap.c:17-32 | a new map is empty |
| HashMap.Map.Get | lib/adt/hashmap.c:192-215 | found exactly when the key is in the map, and then the node of that key and value |
| HashMap.Map.Add | lib/adt/hashmap.c:44-125 | the map gains the pair, or is unchanged when the key was there or memory failed |
| HashMap.Map.Update | lib/adt/hashmap.c:127-190 | an existing key gets the value; a missing one is added on request |
| HashMap.Map.Remove | lib/adt/hashmap.c:217-259 | exactly the key goes, its value is returned, an emptied bucket is dropped |
| HashMap.PartRemove | lib/adt/hashmap.c:217-259 | a bucket without the node holds exactly the other keys |
| HashMap.OneBucket | lib/adt/hashmap.c:44-259 | changing one bucket changes the map only at its key |
| HashMap.Move | lib/adt/hashmap.c:311-328 | moving one old bucket moves exactly its pairs, or runs out of nodes |
| HashMap.CountIsSize | lib/adt/hashmap.c:311-328 | a table has as many nodes as its map has keys |
| HashMap.Resize | lib/adt/hashmap.c:285-335 | with memory for the table and all nodes the map is preserved in the new table, else the old table stays; hash function and object size survive a failure exactly when the new table could not be had |
| HashMapRun.LastWriteStays | lib/adt/hashmap.c:44-259 | a run leaves a value under a key exactly if some call wrote it and no later call touched the key |
| HashMapRun.LookupFinds | lib/adt/hashmap.c:192-215 | in every run of add, update, get, remove and resize a lookup finds exactly what the last call that touched the key wrote |
| HashMapRun.Step | lib/adt/hashmap.c:44-335 | one call is answered from the map the calls before it left, and leaves the map it should |
| HashMapRun.Run | lib/adt/hashmap.c:17-335 | every run on a new map answers every call so, up to a resize that spoils the map or would read a table that is not there |
| HashMapRun.ResizeSpoils | lib/adt/hashmap.c:320-324 | one key in the map and no node for the new table: the old table is back, the hash function is gone |
| WordBits.FindLsbZeroBitFinds | lib/bits.c:14-18 | inverting, shifting and counting zeros yields the least clear bit of the word at or after the start, or the width |
| WordBits.MaskBit | lib/macros.h:183-185 | the mask has exactly the lowest bits |
| WordBits.RmMaskBit | lib/macros.h:192-192 | exactly the bits of the mask are cleared |
| WordBits.WordBit | lib/adt/bitmap.c:253-291 | the bits of a word loaded from little-endian memory are the bits of its bytes |
| WordBits.BytesBit | lib/string.c:75-132 | the bits of the bytes stored for a word are the bits of the word |
| Bitmap.SetBitsForMask | lib/macros.h:193-200 | exactly the bits of the mask take the value |
| Bitmap.SetBytes | lib/string.c:75-132 | the loops of shrinking word size set exactly the bits of the bytes |
| Bitmap.SetRange | lib/adt/bitmap.c:467-521 | exactly the bits of the range get the value |
| Bitmap.ScanWord | lib/adt/bitmap.c:269-279 | the least clear bit of one word, set by a store of the whole word when asked, or all its bits are set |
| Bitmap.ScanWords | lib/adt/bitmap.c:253-291 | one block of the search over words of one size: the least clear bit, or everything passed over is set |
| Bitmap.FindSingleUnset | lib/adt/bitmap.c:253-291 | for any buffer alignment the least clear bit at or after the start, INVALID exactly when there is none; only that bit is set when asked |
| Bitmap.At | lib/adt/bitmap.c:356-363 | the bit of that index |
| Bitmap.Set | lib/adt/bitmap.c:458-465 | exactly that bit changes |
| Bitmap.SetThenFind | lib/adt/bitmap.c:253-521 | after setting a range the search from its start finds the clear bit behind it |
| Calendar.FindYear | lib/time.c:120-126 | year and day of year add up to the day count; the day is -1 only behind a leap year |
| Calendar.FindMonth | lib/time.c:128-135 | month and day of month add up to the day of year |
| Calendar.YearsClosed | lib/time.c:96-110 | the days before a year in closed form |
| Calendar.Letters | lib/time.c:455-469 | the letters of the mnemonic are the month offsets modulo 7 |
| Calendar.WeekdayCounts | lib/time.c:455-469 | the mnemonic formula is the count of days since the epoch plus 4, modulo 7 |
| Calendar.FromStamp | lib/time.c:112-148 | the fields add up to the timestamp and lie in calendar ranges, except on the last day of a leap year, which is day 0 of January |
| Calendar.EndOfLeapYear | lib/time.c:112-148 | the exception happens exactly on the last day of a leap year |
| Calendar.LastDayOf1972 | lib/time.c:112-148 | 31 December 1972 comes out as day 0 of January 1973 |
| ConvertSpec.DigitsWorth | lib/convert.c:487-510 | the digits printed for a number are worth the number |
| ConvertSpec.PrintedFits | lib/convert.c:512-572 | prefix, sign, digits and terminator fit the capacity of the base |
| ConvertSpec.RoundTrip | lib/convert.c:12-572 | parsing the text printed for a number yields the number |
| ConvertSpec.OverflowExactly | lib/convert.c:12-218 | overflow is reported exactly when the leading run of digits is worth at least 2^64, or 2^63 for a signed number that could otherwise be read |
| ConvertSpec.WrittenExactly | lib/convert.c:541-572 | where the prefix is to be a zero alone, the text is the one meant exactly if that zero was in the buffer before |
| ConvertSpec.NegativeOnlyZero | lib/convert.c:12-218 | of the texts that start with a minus sign, after spaces where these are skipped, the signed parser accepts only -0 |
| ConvertGrammar.ValueIsWorth | lib/convert.c:166-199 | multiplying and adding digit by digit yields positional notation |
| ConvertGrammar.EveryTextSplits | lib/convert.c:12-218 | every text falls into spaces, sign, prefix, digits of the base and a rest that goes on with no digit |
| ConvertGrammar.ParseIs | lib/convert.c:12-218 | these parts, over literal characters, decide the result: the number and the rest, or which error |
| ConvertGrammar.ParseExactly | lib/convert.c:12-218 | so the parse is the only way to understand a text |
| ConvertGrammar.NoUnsignedMinus | lib/convert.c:40-42 | an unsigned text with a minus sign is never a number |
| ConvertGrammar.PrintedForm | lib/convert.c:487-572 | a printed text is the sign, prefix and digits asked for, in the letters asked for, without a leading zero and worth the number |
| Convert.ParseCstr | lib/convert.c:12-218 | the C-string loop computes the result code, value and rest of the common specification, and overflows exactly where the digits are worth too much |
| Convert.ParseView | lib/convert.c:220-425 | so does the string-view loop |
| Convert.ParseBoth | lib/convert.c:12-425 | the two parsers agree on every NUL-free text |
| Convert.PutDigits | lib/convert.c:487-510 | the digits are written backwards, exactly those of the number |
| Convert.Print | lib/convert.c:512-572 | the buffer holds exactly the text and its terminator, inside the capacity; the text is the one meant, unless a lone octal zero was to be stored, which lands one place too early |
| Convert.PrintThenParse | lib/convert.c:12-572 | printing and then parsing yields the number, with a lone octal zero from a buffer that has that zero |
| Convert.BareZeroLost | lib/convert.c:548-554 | 5 printed with a lone octal zero over a buffer of ones is the text 15 |

## Left out

- FdtBlob.GetString: covers finished blobs of version 17 or later; the lookup in an unfinished blob and older versions are not modelled.
- FdtWriter.AddString: the name must not be longer than what the table leaves of the buffer; the code relies on this, its unsigned comparison does not catch a longer one.
- FdtWriter.WriteProperty: the same for a name that is not shared; in whole runs such a name counts as one that does not fit.
- FdtEdit.DelNode: stated for blocks whose last tag is END and for nodes of a well-nested tree; misuse on other offsets is covered only by the node walks.
- FdtEdit.NopNode: stated for the same blocks.
- FdtSetProp.SetProp: the value may not alias the blob, names must resolve, lengths are below INT_MAX - 16.
- FdtCheck.CheckFull: assumes version 17 or later.
- FdtOverlay.Renumber: relies on listed offsets lying inside their properties and outside the fixups, which the code does not check, and on a root at offset 0.
- FdtRenumber.CellAfter: not about cells that overlap a listed cell in part.
- AvlTree.Insert: does not say that the tree stays balanced, since the heights the code stores go wrong; the update and added_node callbacks are not modelled.
- AvlDelete.Delete: the same; avltree_delete by key only adds a search.
- SlabAlloc.Allocator.Release: objects are given back by page and index; finding the slab from an address is not modelled.
- Early.Allocator.Claim: for regions that touch no other; merging with neighbours is not modelled.
- Buddy.AllocFromZone: for sections whose locks are free; contention and the atomic zone counter are not modelled.
- AddrSpace.FindFromStart: the hints largest_free_to_prev may be any values; that the tree callbacks keep them truthful is not shown.
- AddrSpace.FindSpaceAndAdd: the insertion into the tree is not covered; the code stores at the right link of the predecessor even where that is taken, which AvlTree.InsertAtLoc excludes. Here the list is placed.
- HashMap.Resize: not for a map without a table for which a new one could be had, where the code reads the old table through NULL.
- Bitmap.SetRange: not for an empty range that does not start at a byte, where the code shifts by the width of a word, which C leaves undefined; memory is little-endian, and the x86_64 and aarch64 assembly of memset_ones is not modelled.
- Convert.Print: unsigned numbers in bases 2, 8, 10 and 16; a base-10 prefix, base 36 and signed printing are not modelled.
- SlabAlloc.Sizes: not for a wanted size of 0, for which the code divides by zero.
- Convert.ParseCstr: characters are compared as in ASCII.
- ConvertGrammar.ParseIs: for default bases up to 36, the largest that the options can name.
- FdtReserve.GetMemRsv: for entry numbers below 2^27 in size, whose byte offset does not wrap.
- Calendar.FromStamp: for timestamps whose day count fits an int.
- TicketLock.RunKeeps: for runs with fewer CPUs than tickets and no try that spans 2^32 acquisitions; interrupts and preemption are not modelled.
- The encoding of the FDT header, fdt_move, fdt_resize, fdt_open_into, fdt_pack, fdt_set_name, fdt_add_subnode, fdt_delprop and the reservation edits of finished blobs: they would add members of the kinds proved here.
- The overlay passes after the first two: fixups from symbols, the merge and the update of symbols.
- The buddy allocator's merging of freed blocks, its aligned and large-page paths and the states of pages.
- The bitmap searches for several bits and for set bits, hashmap_destroy, the other ranges and bit utilities, ISO weeks and names of days and months.
- Page tables, ACPI, drivers, printf, scheduling, SMP bring-up and everything specific to one architecture except the zone map of x86_64.
