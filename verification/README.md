# Devicetree reader, locks and console: verification

A Dafny model of three parts of a bare-metal kernel for the Raspberry Pi 5, with proofs.

**The flattened devicetree reader.** `Parser` is the reader in its own form: a pointer that moves through memory,
node records that are filled in place and linked to their parents, iterators that use up a property, a callback that
collects its calls. Its methods are proved equal to the functions in `Nodes` and `Walker`, which say for arbitrary
memory what is reported and how the search ends. `Trees` gives devicetrees, the ways to lay a tree out in a structure block (NOPs,
padding bytes, places in the strings block), their encoding, and the walk over a bare tree. `Simulation`, on top of
`Locality`, shows that every layout is walked as its tree is; `Recognition` shows that whatever is accepted is a layout
of a tree. `Meaning`, `RegLists` and `Translation` say, without reference to any walk, which trees read well and which
regions they hold. `Theorems` and `EarlyStop` join these to statements about whole blobs.

A call ends in `Ok`, in one of the library's errors, or in a `Trap`: a read past the end of memory, an arithmetic
overflow (a panic in the profile that the build script uses), an `unwrap` of `None`, or a `reg` iteration of stride
zero that has not ended. Nothing about the bytes is presupposed; what the code needs of them is in `Meaning.WellFormed`, and
`Meaning.TreeExact` shows that it needs exactly that. Memory is the bytes from the blob on, addresses are offsets into
it, and `usize` has 64 bits. The callback is any function from the calls so far to whether it breaks.

An iteration with stride zero goes on until the callback breaks, and for ever if it does not. Every search is therefore
followed for some number of `turns` of such an iteration, as part of what is given with the callback, and every theorem
is about every number of them. `Endless` shows that nothing else depends on it, and on any memory which searches never
end; `Preorder` says so of trees. `SearchFaults` says exactly how a search fails, on any memory, with `Faults` for single
properties and `RegionFaults` for the report of a node. `Names` has the names, tokens and queries byte by byte. `Visits` and
`Pointer` have the tokens and nodes that a search comes by. `Blobs` puts whole blobs together, and `Samples` has small ones at which things go wrong.

**The reader-writer lock.** `RWLock` has the steps of `read`, `write` and the guard drops, one atomic operation each, on
a word that is changed in place with the code's bit operations. `LockSystem` interleaves any number of calls, with stale
loads and spurious failures; `LockHistory` carries what the lock does for the data and for happens-before;
`LockTheorems`, `LockReads`, `LockRealTime`, `LockProgress` and `LockLimits` state the results for whole runs. A call is one acquisition with its section and
drop, so a thread that nests acquisitions, or hands a guard to another thread, is several calls. A write section reads
the data and stores what it makes of it; one that stores nothing is the identity. Acquire and release are modelled by
views: a successful compare-exchange learns what the word knows, a guard drop adds to it, and as both are
read-modify-writes the word forgets nothing; relaxed loads learn nothing.

**The console.** `Console` has `_print` with its two nested spin locks, and a call that fills the slot of the second
device under that device's lock.

Where the code does not do what its format or its users would expect, the code is modelled as it is, with an input or
a run that shows it and the exact condition under which it does:

- an early break is reported as a parse failure (`Samples.BreakReportedAsFailure`, `Theorems.FindNodeStopsAtBreak`);
- NOPs before FDT_END are refused (`Samples.TrailingNopRefused`, `Theorems.TrailingNops`);
- a matching node's own `ranges` moves its own `reg` or makes it fail (`Translation.OwnRangesMislead`,
  `Translation.OwnRangesReject`, `Translation.OwnRangesExact`);
- an empty `ranges` is read from the bytes behind it (`Samples.EmptyRangesMislead`, `EmptyRanges.EmptyRangesExact`);
- a matching node below a parent without cells is never left (`Samples.ZeroStrideNeverEnds`,
  `Endless.FindNodeStuckExact`);
- a write guard does not synchronise with the readers it drained (`LockProgress.DrainedReaderUnknown`,
  `LockTheorems.WriteGuardKnowsReads`);
- a thread that enters `read` again can wait for itself (`LockProgress.ReentryReachable`, `LockProgress.ReentryExact`);
- the reader count can run into the flag (`LockLimits.TooManyReaders`, `LockLimits.BoundExact`).

`dafny verify dfyconfig.toml` checks everything.

## Model

| member | source | states |
|---|---|---|
| `Parser.DtbParser.FindNode` | rpi5_baremetal_hello_uart/dtb/src/lib.rs:282-310 | The imperative search, its callback object included, makes exactly the calls and ends exactly as the walk `Walker.FindNode` on the same memory: every error, trap and early break. |
| `Theorems.FindNodeReportsExpected` | rpi5_baremetal_hello_uart/dtb/src/lib.rs:282-385 | Walk theorem: for every tree, every layout of it in the structure block (NOPs, padding, place and sharing of names) and a callback that never breaks, a well-formed tree gives `Ok` and exactly the expected regions, each once, in pre-order. For a tree that determines what is read, `Ok` is returned only then. |
| `Theorems.FindNodeRecognises` | rpi5_baremetal_hello_uart/dtb/src/lib.rs:298-309 | Converse for arbitrary bytes: `Ok` means the block is, to the byte, leading NOPs, the layout of one tree and FDT_END. |
| `Theorems.FindNodeOkMeans` | rpi5_baremetal_hello_uart/dtb/src/lib.rs:282-385 | Both directions joined: after `Ok` there is a tree that the blob holds, it is well-formed, and the calls are its expected regions, unless a read left the value it belonged to. |
| `Theorems.FindNodeFollowsTree` | rpi5_baremetal_hello_uart/dtb/src/lib.rs:282-310 | On every laid-out tree, well-formed or not, calls, errors, traps and breaks are those of the walk over the bare tree; a root walked to its end gives `Ok` exactly if FDT_END is the next token. |
| `Theorems.FindNodeStopsAtBreak` | rpi5_baremetal_hello_uart/dtb/src/lib.rs:302-308 | Early stop: the calls are the expected regions up to the first break, and the result is `Ok` exactly if there is no break; a break always ends in the error of a failed parse. Section 5.4 has nothing against stopping early: that the caller is told of a parse failure is how the code is. |
| `EarlyStop.FindNodeCut` | rpi5_baremetal_hello_uart/dtb/src/lib.rs:346-369 | The same on arbitrary memory, stride zero included: a callback that breaks changes nothing but to cut the calls at its first break and turn the result into the error of a failed parse. |
| `Samples.BreakReportedAsFailure` | rpi5_baremetal_hello_uart/dtb/src/lib.rs:302-308 | A blob with one device, whose tree is well-formed, and any callback: the device is reported, and a break at it makes `find_node` return the error of a parse failure. |
| `Names.EndSpelled` | rpi5_baremetal_hello_uart/dtb/src/lib.rs:302-309 | A search that gets past the root of a well-formed tree ends in `Ok` exactly if the four bytes behind it are 00 00 00 09. |
| `Theorems.TrailingNops` | rpi5_baremetal_hello_uart/dtb/src/lib.rs:302-308 | NOPs between the root's FDT_END_NODE and FDT_END, which section 5.4.1 of the Devicetree Specification allows, make `find_node` fail: it returns `Ok` exactly if there are none. |
| `Samples.TrailingNopRefused` | rpi5_baremetal_hello_uart/dtb/src/lib.rs:302-308 | The same blob with one NOP before FDT_END: the device is reported, and the result is an error. |
| `Blobs.AssembledReports` | rpi5_baremetal_hello_uart/dtb/src/lib.rs:265-310 | There and back: a blob put together from a header, any layout of a well-formed tree and a strings block that holds its names is opened and searched to its end, and the expected regions are reported. |
| `Names.EitherQueryReports` | rpi5_baremetal_hello_uart/dtb/src/lib.rs:291-301 | A search by `compatible` alone, and one by `device_type` alone, for any string, finds in an assembled blob what its tree holds. |
| `Names.QueryRefused` | rpi5_baremetal_hello_uart/dtb/src/lib.rs:291-297 | A search for both or for neither is refused on any memory, before any call. |
| `Names.KindExact` | rpi5_baremetal_hello_uart/dtb/src/lib.rs:43-48 | A property is of a kind exactly if its name has the bytes of that kind's name, for all six. |
| `Samples.FoundByCompatible` | rpi5_baremetal_hello_uart/dtb/src/lib.rs:552-563 | A whole blob with a device whose list has `arm,pl011` and `arm,primecell`: it is found by either name and by no other, such as `arm,gic-400`. |
| `SearchFaults.FindNodeFaultExact` | rpi5_baremetal_hello_uart/dtb/src/lib.rs:282-385 | Every error, panic and read past the end of memory of `find_node`, on any memory and under any callback: it ends in it exactly if the query is wrong, the leading NOPs run out of memory, the search comes to a place where that failure stands, or FDT_END is not where the walk ends. |
| `SearchFaults.PropertyFaultExact` | rpi5_baremetal_hello_uart/dtb/src/lib.rs:61-151 | A property cannot be parsed, and how, exactly if its length or name cannot be read, its value is not what its name asks for, or its length leaves no room for padding. |
| `Preorder.WalkIsVisits` | rpi5_baremetal_hello_uart/dtb/src/lib.rs:312-385 | Under any callback the recursion is one visit after the other to the nodes in pre-order, each with the records that its ancestors' properties give. |
| `Preorder.TreeEndExact` | rpi5_baremetal_hello_uart/dtb/src/lib.rs:312-385 | How a search that is not broken off ends, for every tree: in `Ok` exactly if every node is fine, else exactly as the first other node in pre-order ends by itself, whether in an error, a panic, a read past the end or not at all; before that the callback is given the regions of the nodes before it, in order. |
| `Preorder.FindNodeEndlessExact` | rpi5_baremetal_hello_uart/dtb/src/lib.rs:347-351 | A search of a blob never ends if, and for a tree that determines what is read only if, the first node that is not fine matches, its properties read, it has a non-empty `reg` below a parent whose cells are both zero, and the region of address and size zero reaches the root. |
| `Preorder.EndlessUnlessBroken` | rpi5_baremetal_hello_uart/dtb/src/lib.rs:346-352 | On any memory and under any callback, a search does not end exactly if it would not end without breaks and the callback breaks at none of its calls. |
| `Endless.ReportEndlessExact` | rpi5_baremetal_hello_uart/dtb/src/lib.rs:223-242 | One matching node: the iteration does not end exactly if the `reg` is not empty, the first entry reads and translates, the parent's cells sum to zero and no call breaks; the calls are then that one region, repeated. |
| `Endless.FindNodeStuckExact` | rpi5_baremetal_hello_uart/dtb/src/lib.rs:282-385 | Termination on arbitrary memory and under any callback: `find_node` does not end exactly if it begins a node, below the ancestors and after the calls with which the walk comes to it, that matches, has a non-empty `reg` whose first entry is read and translated, below a parent whose cells sum to zero, and at whose region the callback never breaks; the calls are then those made before and that region, again and again. |
| `Endless.EndlessNode` | rpi5_baremetal_hello_uart/dtb/src/lib.rs:312-385 | One direction for the recursion at any place in memory: a walk that does not end has begun a node at which it is stuck. |
| `Endless.StuckNode` | rpi5_baremetal_hello_uart/dtb/src/lib.rs:312-385 | The other: a walk that begins such a node makes no call but for its region, and does not end. |
| `Endless.PositiveStridesEnd` | rpi5_baremetal_hello_uart/dtb/src/lib.rs:223-242 | A search ends if every matching node that it begins is below a parent whose cells do not sum to zero. |
| `Endless.FindNodeLonger` | rpi5_baremetal_hello_uart/dtb/src/lib.rs:282-310 | A search that has ended when it is followed for some number of turns is the same followed for longer: it ends in one way or never. |
| `RegLists.ReportZeroStride` | rpi5_baremetal_hello_uart/dtb/src/lib.rs:223-242 | With stride zero the callback is called on one region up to its first break, and without a break for as long as it is followed. |
| `Samples.ZeroStrideNeverEnds` | rpi5_baremetal_hello_uart/dtb/src/lib.rs:346-352 | A blob with one byte of `reg` below a root without cells: the search never ends, and a callback that breaks at its first call ends it. |
| `Theorems.FindNodeIndependent` | rpi5_baremetal_hello_uart/dtb/src/lib.rs:61-151 | Two blobs whose trees agree up to the order of distinctly named properties within nodes give the same calls and both succeed, both break or both fail. |
| `Theorems.WellFormedIndependent` | rpi5_baremetal_hello_uart/dtb/src/lib.rs:333-352 | For well-formed trees the two runs are equal outright, under any callback. |
| `Simulation.NodeSimulates` | rpi5_baremetal_hello_uart/dtb/src/lib.rs:323-384 | Any layout of a node, anywhere in memory and below any ancestors, is walked as its tree is, and the pointer ends exactly behind it. |
| `Simulation.KidsSimulate` | rpi5_baremetal_hello_uart/dtb/src/lib.rs:354-384 | The same for the subnodes of a node and the token that ends it. |
| `Simulation.PropsParsed` | rpi5_baremetal_hello_uart/dtb/src/lib.rs:333-344 | The property loop over laid-out properties gives the record, the match and the error that the properties alone give. |
| `Simulation.PropRead` | rpi5_baremetal_hello_uart/dtb/src/lib.rs:68-75 | A property is read back from its encoding: token, length, name offset and value. |
| `Recognition.NodeRecognised` | rpi5_baremetal_hello_uart/dtb/src/lib.rs:323-384 | Whenever the recursion ends a node, the bytes it consumed are the encoding of a layout that fits the format: tokens balanced, properties before subnodes (section 5.4.2). |
| `Recognition.PropsRecognised` | rpi5_baremetal_hello_uart/dtb/src/lib.rs:333-344 | Whenever the property loop ends, the bytes it consumed encode properties whose names are in the strings block, then NOPs. |
| `Meaning.TreeExact` | rpi5_baremetal_hello_uart/dtb/src/lib.rs:312-385 | A tree is walked to its end exactly if it is well-formed, and then the calls are exactly the expected regions, decoded with the final cells of the direct parent (or 2 and 1) and no other node's. |
| `Meaning.AbsorbAllExact` | rpi5_baremetal_hello_uart/dtb/src/lib.rs:61-151 | The properties of a node are accepted exactly if each reads for itself; the record is then the last of each kind, whatever the order of the others, and the node matches if any property does. |
| `Meaning.AbsorbExact` | rpi5_baremetal_hello_uart/dtb/src/lib.rs:82-150 | One property: accepted exactly if its value has the form its name asks for, and what it changes in the record. |
| `Meaning.LastExact` | rpi5_baremetal_hello_uart/dtb/src/lib.rs:82-137 | The value that stays in the record is that of the last property of its kind. |
| `Faults.AbsorbFaultExact` | rpi5_baremetal_hello_uart/dtb/src/lib.rs:82-145 | Which error, or read past the end of memory, a property gives, as an exact condition on its kind, its value and the query. |
| `Faults.ListFaultExact` | rpi5_baremetal_hello_uart/dtb/src/lib.rs:500-533 | A list of strings fails in a given way exactly if the first of its strings that fails does so. |
| `Faults.AbsorbAllFault` | rpi5_baremetal_hello_uart/dtb/src/lib.rs:333-344 | The properties of a node fail as the first of them that does not read. |
| `Locality.AbsorbWithin` | rpi5_baremetal_hello_uart/dtb/src/lib.rs:82-137 | What a property does depends on its value only, unless something behind the value is read. |
| `Locality.ReportAllWithin` | rpi5_baremetal_hello_uart/dtb/src/lib.rs:347-351 | What a matching node reports depends on property values only, unless something behind them is read. |
| `Locality.TranslateWithin` | rpi5_baremetal_hello_uart/dtb/src/lib.rs:186-211 | The same for address translation up the whole chain. |
| `Strings.CStringExact` | rpi5_baremetal_hello_uart/dtb/src/lib.rs:479-485 | Reading a string yields `s` exactly if `s` is NUL-free valid UTF-8 and stands there followed by NUL. |
| `Strings.ItemsExact` | rpi5_baremetal_hello_uart/dtb/src/lib.rs:500-533 | All items of the list iterator are `Ok` exactly if the value is a concatenation of NUL-terminated valid strings, and they are then that list. |
| `Strings.CharStringIter.Next` | rpi5_baremetal_hello_uart/dtb/src/lib.rs:512-532 | The iterator in place: yields the first of the remaining strings and leaves the others, or the failure that ends the list. |
| `Meaning.ListExact` | rpi5_baremetal_hello_uart/dtb/src/lib.rs:93-102 | A `compatible` value is accepted exactly if it is such a list, and matches exactly if the name is a member. |
| `Parser.ListContains` | rpi5_baremetal_hello_uart/dtb/src/lib.rs:94-99 | The loop over a `compatible` value computes membership and reads the whole list, so that a bad string behind the match is still an error. |
| `Meaning.StringExact` | rpi5_baremetal_hello_uart/dtb/src/lib.rs:103-110 | A `device_type` value is accepted exactly if it starts with a valid string, and matches exactly that string. |
| `Unicode.Utf8Exact` | rpi5_baremetal_hello_uart/dtb/src/lib.rs:479-485 | The byte strings accepted as `&str` are exactly the encodings of sequences of Unicode scalar values. |
| `Parser.ReadRegs` | rpi5_baremetal_hello_uart/dtb/src/lib.rs:486-498 | The loop over cells yields their big-endian value mod 2^64 and 4n bytes for every n; the addition never overflows. |
| `Bytes.CellsStep` | rpi5_baremetal_hello_uart/dtb/src/lib.rs:490-496 | Shifting in one more cell gives the truncated value of the longer number, with no carry. |
| `Bytes.NarrowCellsExact` | rpi5_baremetal_hello_uart/dtb/src/lib.rs:159-165 | Up to two cells, the most `read_reg_internal` admits, are read without truncation and encode back to their bytes. |
| `RegLists.EntriesRoundTrip` | rpi5_baremetal_hello_uart/dtb/src/lib.rs:223-242 | A `reg` value of k strides has exactly k entries, and they encode back to all of its bytes. |
| `RegLists.ReportExact` | rpi5_baremetal_hello_uart/dtb/src/lib.rs:223-242 | The iteration over `reg` ends well exactly if the value is whole entries of at most two cells each part that all reach the root; it then reports their images, in order. |
| `RegLists.NextRegionExact` | rpi5_baremetal_hello_uart/dtb/src/lib.rs:223-242 | One turn of the iteration, stride zero included: when it succeeds, and which region it yields. |
| `Parser.DeviceAddressIter.Next` | rpi5_baremetal_hello_uart/dtb/src/lib.rs:223-242 | The iterator in place: what it yields, and that `remain` drops by one stride from one item to the next; with stride zero it stays. |
| `Parser.DtbParser.ReportNode` | rpi5_baremetal_hello_uart/dtb/src/lib.rs:346-352 | The loop that hands the regions of a matching node to the callback refines `Nodes.ReportAll`: every call of every iteration, up to the number of turns for which one without headway is followed. |
| `Translation.TranslateExact` | rpi5_baremetal_hello_uart/dtb/src/lib.rs:186-211 | Translation succeeds exactly if at every level the region, moved by the levels below, lies in that level's window and stays below 2^64; it then adds the sum of the displacements and keeps the size. |
| `Translation.TranslateStaysInside` | rpi5_baremetal_hello_uart/dtb/src/lib.rs:186-211 | After crossing a bus the region lies in the parent-side range of its window, for every level. |
| `Translation.TranslateKeepsDistance` | rpi5_baremetal_hello_uart/dtb/src/lib.rs:186-211 | Distinct addresses stay distinct, at the same distance. |
| `Translation.RangesDecoded` | rpi5_baremetal_hello_uart/dtb/src/lib.rs:172-184 | The first triple of `ranges` is decoded with the cells section 2.3.8 gives each part, truncated to 64 bits; nothing behind it is looked at. |
| `Translation.CrossNodeExact` | rpi5_baremetal_hello_uart/dtb/src/lib.rs:190-206 | One level: succeeds exactly inside the window, and moves by parent base minus child base. |
| `Translation.TranslateFault` | rpi5_baremetal_hello_uart/dtb/src/lib.rs:186-211 | Where translation fails: at the first level that does not let the region through; with the error of a `ranges` that is too small exactly if it ends behind that level's window and no sum passes 2^64, else by a panic or a read past the end. |
| `RegionFaults.TranslateFaultExact` | rpi5_baremetal_hello_uart/dtb/src/lib.rs:172-211 | Translation fails in a given way, panics and reads past the end told apart, exactly if the first level that does not let the region through does so. |
| `RegionFaults.ReportFaultExact` | rpi5_baremetal_hello_uart/dtb/src/lib.rs:223-242 | A matching node fails to be reported in a given way exactly if it has no `reg`, or the iteration comes to an entry that fails so: parent's cells too wide, entry behind memory, translation failed, or less left than an entry takes. |
| `Translation.WithoutRangesIdentity` | rpi5_baremetal_hello_uart/dtb/src/lib.rs:203-210 | Where no node on the way has `ranges`, every region stands for itself. |
| `Translation.OwnRangesExact` | rpi5_baremetal_hello_uart/dtb/src/lib.rs:228-235 | Translation starts at the matching node itself and not at its parent: for every region that has a place at the root, it finds that place exactly if the node has no `ranges`, or its own window holds the region and moves nothing. |
| `Translation.OwnRangesGiven` | rpi5_baremetal_hello_uart/dtb/src/lib.rs:228-235 | For every region that is given a place from the node itself: it is the one found from the parent exactly if the node's own window moves nothing. |
| `Translation.OwnRangesMislead` | rpi5_baremetal_hello_uart/dtb/src/lib.rs:228-235 | A bridge with `reg` 0x10 and own `ranges` 0x10 to 0x20: 0x20 is reported for registers that stand at 0x10. |
| `Translation.OwnRangesReject` | rpi5_baremetal_hello_uart/dtb/src/lib.rs:191-202 | The same bridge with a window below its registers ends in an error, and with one above them in an overflow, though that moves nothing. |
| `EmptyRanges.EmptyRangesExact` | rpi5_baremetal_hello_uart/dtb/src/lib.rs:122-135 | A node accepted with an empty `ranges`, the identity in section 2.3.8, at any place in any blob: its `ranges` is what its layout has behind, beginning with a token; a region crosses unchanged exactly if those bytes spell a window that holds it and moves nothing, and none crosses whose address is below the token's number in the upper cell. |
| `EmptyRanges.DefaultCellsNeverCross` | rpi5_baremetal_hello_uart/dtb/src/lib.rs:172-184 | With the default two address cells no region below 4 GiB on that bus is ever translated through an empty `ranges`. |
| `EmptyRanges.PropertyBehindExact` | rpi5_baremetal_hello_uart/dtb/src/lib.rs:172-206 | With one address cell on the bus and on its parent's, one size cell, and a property right behind: exactly the regions from 3 to 3 plus the place of its name cross, moved by its length less 3, and so unchanged exactly if that is 3. |
| `Samples.EmptyRangesMislead` | rpi5_baremetal_hello_uart/dtb/src/lib.rs:282-385 | A whole blob with an empty `ranges` and a label behind it: `find_node` returns `Ok` and reports a device at 0x10 there if the label has three bytes, and elsewhere if it has not. |
| `Parser.SimpleDeviceNode.CalculateAddressInternal` | rpi5_baremetal_hello_uart/dtb/src/lib.rs:186-211 | The recursion up the parent pointers computes `Nodes.Translate` on the records of the chain. |
| `Parser.SimpleDeviceNode.ReadRegInternal` | rpi5_baremetal_hello_uart/dtb/src/lib.rs:153-170 | One entry of `reg`, read through the parent pointer, is `Nodes.ReadReg`. |
| `Parser.SimpleDeviceNode.ReadRoundInternal` | rpi5_baremetal_hello_uart/dtb/src/lib.rs:172-184 | The first triple of `ranges`, read through the parent pointer, is `Nodes.ReadRanges`. |
| `Parser.SimpleDeviceNode.constructor` | rpi5_baremetal_hello_uart/dtb/src/lib.rs:50-58 | A new record has two address cells, one size cell and neither `reg` nor `ranges`, and is linked to its parent. |
| `Parser.SimpleDeviceNode.MatchProp` | rpi5_baremetal_hello_uart/dtb/src/lib.rs:82-145 | The match on the property name updates the record in place as `Nodes.Absorb` says, and yields the size the value must have. |
| `Parser.SimpleDeviceNode.ParseProp` | rpi5_baremetal_hello_uart/dtb/src/lib.rs:61-151 | A property absorbed in place: the record, the match and the new position are those of `Walker.ParseProp`; no ancestor's record is written. |
| `Parser.DtbParser.ReadProps` | rpi5_baremetal_hello_uart/dtb/src/lib.rs:333-344 | The property loop refines `Walker.ParseProps`. |
| `Parser.DtbParser.EnterNode` | rpi5_baremetal_hello_uart/dtb/src/lib.rs:323-344 | The part of the recursion up to the end of the first loop: the new record and the moving pointer are those of `Walker.EnterNode`. |
| `Parser.DtbParser.FindNodeRecursive` | rpi5_baremetal_hello_uart/dtb/src/lib.rs:312-385 | The recursion with its moving pointer refines `Walker.WalkNode`; it writes only to the callback, so no subtree changes a parent's record. |
| `Parser.DtbParser.ReadChildren` | rpi5_baremetal_hello_uart/dtb/src/lib.rs:354-384 | The loop over subnodes refines `Walker.WalkChildren`. |
| `Parser.DtbParser.SkipNop` | rpi5_baremetal_hello_uart/dtb/src/lib.rs:270-276 | The loop over leading NOPs refines `Walker.SkipNops`. |
| `Parser.DtbParser.Init` | rpi5_baremetal_hello_uart/dtb/src/lib.rs:265-269 | A parser is made exactly if the header reads. |
| `Headers.HeaderExact` | rpi5_baremetal_hello_uart/dtb/src/lib.rs:442-466 | A blob is opened exactly if its magic number and last compatible version (at most 17) fit, and its blocks are then where the encoded header puts them (section 5.2). |
| `Headers.HeaderSpelled` | rpi5_baremetal_hello_uart/dtb/src/lib.rs:442-466 | The header of any memory, by its bytes: forty are needed, the first four are d0 0d fe ed, and the fields are big-endian words at their places. |
| `Pointer.FindNodeTokensChained` | rpi5_baremetal_hello_uart/dtb/src/lib.rs:270-385 | Pointer discipline on any memory, however the search ends: the tokens that it acts on follow one another from where the structure block starts, each where the one before says, with none left out; after `Ok` the last is FDT_END. |
| `Pointer.FindNodeTokensSpaced` | rpi5_baremetal_hello_uart/dtb/src/lib.rs:270-385 | So they lie in memory, a whole number of words behind where the structure block starts, each at least one word behind the one before, and there are no more of them than words. |
| `Pointer.FindNodeTokensFound` | rpi5_baremetal_hello_uart/dtb/src/lib.rs:298-384 | They are tokens of the format, and every node that is begun at FDT_BEGIN_NODE is among them. |
| `Pointer.FindNodeVisitsAligned` | rpi5_baremetal_hello_uart/dtb/src/lib.rs:312-385 | Every node that a search begins, whatever comes of it, stands a whole number of words behind where the structure block starts. |
| `Pointer.NodeAligned` | rpi5_baremetal_hello_uart/dtb/src/lib.rs:323-384 | A walk that ends in `Ok` leaves the pointer a whole number of words further, at least three for a finished node and two where it is broken off. |
| `Pointer.PropAligned` | rpi5_baremetal_hello_uart/dtb/src/lib.rs:147-149 | A property leaves the pointer a whole number of words further. |
| `EarlyStop.BreakLeavesToken` | rpi5_baremetal_hello_uart/dtb/src/lib.rs:302-308 | After a break the pointer stands on FDT_BEGIN_NODE or FDT_END_NODE, so the test for FDT_END fails. |
| `Bits.FlagOperations` | rpi5_baremetal_hello_uart/mutex/src/lib.rs:82-82 | What `&`, `& !` and `|` with the top bit come to on every 64-bit word, from their bitwise definition. |
| `RWLock.RWLock.ReadStep` | rpi5_baremetal_hello_uart/mutex/src/lib.rs:90-104 | One atomic step of `read`, in place with the code's bit operations, is the step of the specification in terms of flag and count. |
| `RWLock.RWLock.WriteStep` | rpi5_baremetal_hello_uart/mutex/src/lib.rs:106-141 | The same for `write`: load, compare-exchange that sets the flag, drain. |
| `RWLock.RWLock.SectionStep` | rpi5_baremetal_hello_uart/mutex/src/lib.rs:175-179 | A write section in place: read the data, later store what was made of it. |
| `RWLock.RWLock.DropRead` | rpi5_baremetal_hello_uart/mutex/src/lib.rs:143-149 | Dropping a read guard takes one off the count, wrapping. |
| `RWLock.RWLock.DropWrite` | rpi5_baremetal_hello_uart/mutex/src/lib.rs:159-165 | Dropping a write guard clears the flag and keeps the count. |
| `RWLock.AtomicUsize.CompareExchangeWeak` | rpi5_baremetal_hello_uart/mutex/src/lib.rs:97-98 | The weak compare-exchange in place, spurious failure included. |
| `LockSystem.NextInv` | rpi5_baremetal_hello_uart/mutex/src/lib.rs:82-165 | The invariant of the lock is kept by every atomic step of any call, as long as fewer than 2^63 readers hold it. |
| `LockTheorems.WordIsLock` | rpi5_baremetal_hello_uart/mutex/src/lib.rs:82-165 | In every reachable state the word is the number of read guards plus 2^63 if a writer drains or holds. |
| `LockTheorems.WriteExcludes` | rpi5_baremetal_hello_uart/mutex/src/lib.rs:90-165 | In every reachable state a write guard excludes every other guard. |
| `LockTheorems.NextRefines` | rpi5_baremetal_hello_uart/mutex/src/lib.rs:90-165 | Every atomic step is one step of the abstract lock (free, read-locked by k, draining k, write-locked) or none, whatever stale loads, spurious failures and reused word values. |
| `LockTheorems.DataIsFold` | rpi5_baremetal_hello_uart/mutex/src/lib.rs:90-179 | At every moment the data is the fold of the stored writes in the order of the flags; at most the last writer has not stored. |
| `LockTheorems.ReaderSeesOneValue` | rpi5_baremetal_hello_uart/mutex/src/lib.rs:143-157 | All that a reader looks at in its section is one value, that of a prefix of the writes. |
| `LockReads.LookSeesData` | rpi5_baremetal_hello_uart/mutex/src/lib.rs:151-157 | A reader that looks gets the data: one more value, which is what the writes before its grant have made of the initial one, and nothing else changes. |
| `LockReads.ReaderSees` | rpi5_baremetal_hello_uart/mutex/src/lib.rs:151-157 | In every run a reader that has looked has seen a value, the last of them that of the writes before its grant. |
| `LockReads.ReaderSeesIncrements` | rpi5_baremetal_hello_uart/mutex/src/lib.rs:221-259 | A reader that is granted after all of N increments have ended sees the initial value and N, in every run. |
| `LockReads.ReaderCanSeeIncrements` | rpi5_baremetal_hello_uart/mutex/src/lib.rs:221-259 | And from every start with N increments and a reader there is such a run, to its end. |
| `LockRealTime.ReadsWhatHadEnded` | rpi5_baremetal_hello_uart/mutex/src/lib.rs:90-165 | That prefix holds every write that had ended when the reader was still without its guard. |
| `LockRealTime.ReadsNothingLater` | rpi5_baremetal_hello_uart/mutex/src/lib.rs:90-165 | And no write that did not own the flag when the reader had its guard. |
| `LockRealTime.WritesInRealTime` | rpi5_baremetal_hello_uart/mutex/src/lib.rs:106-165 | A write that had ended when another did not yet own the flag comes before it in the order: the lock serialises its calls in real time. |
| `LockTheorems.AllWritesApplied` | rpi5_baremetal_hello_uart/mutex/src/lib.rs:90-179 | When all calls have ended, each write has been applied exactly once and the word is zero. |
| `LockTheorems.IncrementsCounted` | rpi5_baremetal_hello_uart/mutex/src/lib.rs:221-259 | Increments by any number of calls, however interleaved, are all counted: the assertion of the test at line 258 for every run. |
| `LockTheorems.FlagIsBarrier` | rpi5_baremetal_hello_uart/mutex/src/lib.rs:94-130 | From setting the flag to dropping the guard no read guard is granted, even on a word loaded before; the readers only become fewer. |
| `LockTheorems.DrainEndsExactly` | rpi5_baremetal_hello_uart/mutex/src/lib.rs:124-130 | A draining writer gets its guard at its next look exactly if the last of the readers present has left. |
| `LockProgress.WaitIsForPresent` | rpi5_baremetal_hello_uart/mutex/src/lib.rs:114-130 | In every run, a draining writer waits for exactly those readers present at its compare-exchange that have not left, and gets its guard at its next look exactly if as many have left as were present. |
| `LockProgress.DrainSchedule` | rpi5_baremetal_hello_uart/mutex/src/lib.rs:124-130 | That many drops, one for each reader left, and one look at the word are enough. |
| `LockTheorems.GuardKnowsWrites` | rpi5_baremetal_hello_uart/mutex/src/lib.rs:97-163 | Every guard, read or write, has all ended write sections in its happens-before view. |
| `LockTheorems.WriteGuardKnowsReads` | rpi5_baremetal_hello_uart/mutex/src/lib.rs:114-130 | A write guard has all ended read sections in its view as well exactly if no reader was present at its compare-exchange; what it lacks is exactly the readers it drained (the loop loads Relaxed). |
| `LockProgress.DrainedReaderUnknown` | rpi5_baremetal_hello_uart/mutex/src/lib.rs:124-130 | A run of two calls in which a write guard lacks a read section that ended before it was granted. |
| `LockHistory.NextFullInv` | rpi5_baremetal_hello_uart/mutex/src/lib.rs:90-179 | The whole invariant, with data, looked-at values and views, is kept by every step. |
| `LockProgress.EveryoneFinishes` | rpi5_baremetal_hello_uart/mutex/src/lib.rs:90-165 | From every reachable state a schedule of at most six steps per unfinished call grants and ends all of them. |
| `LockProgress.AloneFinishes` | rpi5_baremetal_hello_uart/mutex/src/lib.rs:90-165 | A call that nobody hinders ends after exactly as many steps as its position says. |
| `LockProgress.ReentryNeverReturns` | rpi5_baremetal_hello_uart/mutex/src/lib.rs:90-130 | A thread that enters `read` again while it holds a read guard and a writer drains is never let out, nor is the writer, in any interleaving. |
| `LockProgress.ReentryExact` | rpi5_baremetal_hello_uart/mutex/src/lib.rs:90-130 | When re-entry is safe: a thread that holds a read guard and has entered `read` again can get the second guard, by some interleaving that does not move the first, exactly if no writer has set the flag. |
| `LockProgress.ReentryReachable` | rpi5_baremetal_hello_uart/mutex/src/lib.rs:231-231 | That state is reached from every start with two nested readers and a writer. |
| `LockLimits.BoundExact` | rpi5_baremetal_hello_uart/mutex/src/lib.rs:82-104 | Every run keeps its readers below 2^63 exactly if there are fewer than 2^63 calls of `read`: with so few, the theorems about runs have no further hypothesis. |
| `LockLimits.TooManyReaders` | rpi5_baremetal_hello_uart/mutex/src/lib.rs:97-97 | With more there is a run from the start to a word that reads as write-locked though nobody owns it. |
| `Console.SpinLock.TryLock` | rpi5_baremetal_hello_uart/mutex/src/lib.rs:29-38 | One turn of the acquiring loop in place: taken exactly if free and not failing spuriously. |
| `Console.SpinLock.Unlock` | rpi5_baremetal_hello_uart/mutex/src/lib.rs:41-45 | Dropping the guard frees the lock. |
| `Console.Uarts.PrintStep` | rpi5_baremetal_hello_uart/bootloader/src/print.rs:23-32 | One step of `_print` in place, on two locks, two slots and two devices, is the step of the specification. |
| `Console.LocksExclude` | rpi5_baremetal_hello_uart/mutex/src/lib.rs:29-45 | In every reachable state of the console each spin lock is held by one call at most. |
| `Console.OutputsAtRest` | rpi5_baremetal_hello_uart/bootloader/src/print.rs:23-32 | When all calls have ended the debug device has received every message whole and once, in the order of the first lock; the second device has the same text from the message on at which its slot was filled, or nothing; and the slot of each device is filled exactly if there was a call to fill it. |
| `Console.SlotsFilled` | rpi5_baremetal_hello_uart/bootloader/src/print.rs:24-29 | In every reachable state the slot of the debug device is filled exactly if some printer has been at it, that of the second device exactly if somebody has filled it. |
| `Console.WrittenThroughSlot` | rpi5_baremetal_hello_uart/bootloader/src/print.rs:25-31 | A device receives something only while its slot is filled, and only from the call that holds its lock. |
| `Console.FirstFill` | rpi5_baremetal_hello_uart/bootloader/src/print.rs:28-31 | When the second slot is filled first, exactly the printers that are done with that device will be missing from its output, and that does not change afterwards. |
| `Console.NextDebugOut` | rpi5_baremetal_hello_uart/bootloader/src/print.rs:24-26 | At every moment the debug output is whole messages and a prefix of the one underway. |
| `Console.NextRp1Out` | rpi5_baremetal_hello_uart/bootloader/src/print.rs:28-31 | At every moment the second output is the messages passed since its slot was filled and a prefix of the one underway. |
| `Console.EveryoneFinishes` | rpi5_baremetal_hello_uart/bootloader/src/print.rs:23-32 | The nested locks never deadlock: from every reachable state a schedule with one bounded turn per unfinished call ends all of them. |

## Left out

- Nodes.Report: does not go on for ever. Where the parent's cells sum to zero and a matching node has a non-empty `reg`, the code calls the callback on one region until it breaks; the model follows that for a given number of calls and then ends with `Trap(ZeroStride)`.
- Theorems.FindNodeReportsExpected: says `Ok` only for well-formed trees where the tree determines what is read. A `ranges` shorter than one triple, a `device_type` or list without NUL, are read on into the bytes behind the value, and those can spell anything.
- Overflow in a build without overflow checks: sums wrap there; the model stops with `Trap(Overflow)`, as the profile that the build script uses does.
- Reads past the end of memory are undefined in the original and `Trap(OutOfBounds)` here; alignment of the blob itself in memory is not modelled.
- Section 2.3.8 of the Devicetree Specification beyond the first triple of `ranges`: the code does not look at further triples, and takes a missing `ranges` as the identity.
- Callbacks whose decisions depend on anything but the calls made to them.
- The unused types behind `cfg(alloc)`, memory reservation entries, the header fields without a reader, and debug output.
- Weak memory beyond the views described above: steps are interleaved one atomic operation at a time.
- Fairness: progress is stated as the existence of bounded schedules, not for every fair schedule.
- Spin lock users other than the console: mutual exclusion is proved for its two locks.
- `fmt::Write` failures and formatting arguments that print themselves: `_print` unwraps the former and deadlocks on the latter.
- Nothing in the repository fills the slot of the second console device; the call that does so in the model is an addition of the environment.
- The device registers, the GPIO and timer drivers, the boot code and the build scripts: register accesses, a table of constants, inline assembly and process spawning, about which nothing is claimed.
