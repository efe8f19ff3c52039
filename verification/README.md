# Verification of saski's parsers, capability kernel and loaders

This project models, in Dafny, the parts of saski that read or rewrite structured bytes and
the one part that several cores share, and proves what they compute.

- **Device tree (`Fdt*.dfy`, from `lib/fdt.c`).** The walker moves byte cursors over the
  token stream of section 5.4 of the Devicetree Specification v0.4 and never builds a tree.
  The model has both: the loops, on bytes, and a datatype `Tree` with an encoder that allows
  NOPs between all tokens. A node of a tree is named by its path of child numbers, document
  order is the lexicographic order of paths, and each walk is proved to compute the function
  on the tree that it stands for.
- **Cap'n Proto (`Capnp*.dfy`).** The recursive, depth-limited validator is proved equal to a
  predicate on words; the predicate is proved to bound every schema-directed reader. The list
  builder and the list reader are proved inverse, with the exact limits.
- **Capability kernel (`Cap*.dfy`, from `kernel/cap.c`).** The lock, the record copies and the
  factory's writes are a state machine of any number of cores, whose interrupts may call the
  kernel again. Its invariant gives safety over all runs and reduces every run to calls made
  one at a time. A sequential class models `kernel_invoke` with buffers and validation, and is
  tied to the machine. A second machine holds two images in one memory, an original and its
  copy, and follows the calls made through the copy's factory.
- **Mach-O loader (`Macho.dfy`, `MachoImage.dfy`, `MachoFormat.dfy`, `ApRegions.dfy`).** The
  loader writes a memory that is a map from 64-bit addresses to bytes; image contents, the slide, the entry
  point and the containment of a core's init in its slot are proved of it.
- **Load-command rewriter (`MachoXnu*.dfy`).** The conversion is proved to
  keep what the loader sees.

Formats are pinned by what is written: cells of `reg` and `ranges`, headers, load commands, fat
tables, schema tables and factory requests have encoders of their own, and the readers are
proved to read every field back.

Code that loops is a method with a loop. It is proved equal to a function of its input, and
the lemmas about that function say what it means. `Bytes.dfy` and `Wrappers.dfy` hold byte
order and `Option`.

## Where the code and its description differ

- `lib/fdt.c:500-511` says that a subtree that is too deep is skipped. The code goes back to
  the parent, which starts again at its first child, so the search does not end.
  `FdtSearch.SearchEndsIff` gives the exact condition: it ends if and only if no node of
  depth 15 with children comes up before the first match. `FdtSearch.SearchHangs` gives
  blocks on which it does not: every chain of seventeen nodes or more.
- Past depth 16 `fdt_parent_offset` finds no parent, so `fdt_next_sibling` finds no sibling
  and a path lookup sees first children only. `FdtWalk.ParentOnTree`,
  `FdtWalk.NextSiblingOnTree`, `FdtWalk.ChildrenOnTree` and `FdtPath.PathOnTree` are stated
  for all depths with this effect in them.
- Cell counts are inherited from the nearest ancestor that declares them, with the default 2.
  This is the code's rule and not that of section 2.3.5 of the Devicetree Specification.
- `include/capnp_list.h:27-34` says that the builder and `kernel/capnp_validate.c` follow one
  convention. The builder's word count includes the tag word, the validator's does not, so
  the validator refuses the builder's lists: `CapnpMismatch.BuilderIsRefused`. The exceptions
  are lists whose element count does not fit its 30 bits, which can be read as shorter ones
  and accepted: `CapnpMismatch.HugeListIsAccepted` is one, `CapnpMismatch.BuiltIsValidIff` the
  exact condition.
- A factory protects its own record by address only. A DESTROY through a copy's factory that
  names the original's takes it away: `CapImages.OriginalCanBeLost`. `CapImages.OriginalKeptIff`
  is the exact condition under which the original stays as it was.
- The size gate for application processors looks at neither of two things: whether a segment's
  end wraps around, and whether its file bytes go beyond its memory size.
  `ApRegions.LongFileEscapes` is an init for which the boot processor reaches the gate and
  publishes, and which an AP loads past its slot. `ApRegions.WrappedSegmentEscapes` is one with
  a wrapping end; there the boot processor's own load, at base 0, writes the wrapped segment
  first. `ApRegions.PublishedContainedIff` is the exact condition for published images,
  `ApRegions.ContainedIff` the one for all images. Without a wrapping end a load stays in the
  core's own region in any case: `ApRegions.PublishedStaysInRegion`.
- `tools/macho_to_xnu.py` keeps the file's length if and only if the entry offset lies in the
  file: `MachoXnu.TailIsKept`. Its output parses back if and only if no segment command is cut
  off or under eight bytes: `MachoXnuReparse.ReparseIff`, with an input that it does not hold
  for in `MachoXnuReparse.CutFileIsNotParsedBack`.

## Model

| member | source | states |
|---|---|---|
| FdtLexer.CtxInit | lib/fdt.c:59-88 | when the header is accepted, the structure and strings blocks lie inside the announced total size and are the blob's own bytes there |
| FdtLexer.CtxOfHeader | lib/fdt.c:59-88 | a written header is accepted if and only if its magic number is right and both blocks lie in the total size, and the blocks are then where its words say |
| FdtLexer.NodeName | lib/fdt.c:115-128 | the length up to the first NUL, or -1 when the block has none from there on |
| FdtLexer.LexEncoded | lib/fdt.c:138-178 | every encoded token sequence is read back token by token, at every position in any block |
| FdtLexer.Locate | lib/fdt.c:138-178 | every node of an encoded tree, at any depth, stands at the position computed from sizes alone |
| FdtWalk.SkipNode | lib/fdt.c:138-178 | on every block the loop ends, reads nothing outside, and its result is an error or lies strictly ahead and inside the block |
| FdtWalk.SkipNodeOnTree | lib/fdt.c:138-178 | from every node of an encoded tree it lands just past that node's own END_NODE |
| FdtWalk.AfterNameAt | lib/fdt.c:181-194 | the aligned position behind a node's name, at least four bytes on, or an error |
| FdtWalk.FirstChild | lib/fdt.c:216-256 | the loop computes the function of the block that FirstChildOnTree is about, on every block |
| FdtWalk.FirstChildOnTree | lib/fdt.c:216-256 | from every node: its first child, or an error exactly when it has none |
| FdtWalk.NextSibling | lib/fdt.c:258-294 | on every block the result is an error or strictly ahead of the previous sibling |
| FdtWalk.NextSiblingOnTree | lib/fdt.c:258-294 | the next child of the same parent if the caller names the true parent and there is one, otherwise an error; past depth 16, where no parent is found, -1 is what passes for it; for all depths and all values of the parent argument |
| FdtWalk.ChildrenOnTree | lib/fdt.c:759-772 | asking for the next child until none is left lists exactly the children in order, up to depth 15, and the first one only for deeper nodes |
| FdtWalk.ParentOffset | lib/fdt.c:296-351 | the walk with its sixteen-entry stack computes, on every block, the function that ParentIsSmaller and ParentOnTree are about |
| FdtWalk.ParentIsSmaller | lib/fdt.c:296-351 | on every block, well-formed or not, the parent lies strictly before the node, so every upward walk ends |
| FdtWalk.ParentOnTree | lib/fdt.c:296-351 | the true parent for depths 1 to 16, and an error for the root and for all deeper nodes |
| FdtOrder.OrderIsPosition | lib/fdt.c:477-530 | a node that is earlier in document order lies at a smaller offset |
| FdtOrder.NextAfterIsNext | lib/fdt.c:518-528 | the node found by climbing to the nearest later sibling is the very next one in document order outside the subtree |
| FdtProps.StrEq | lib/fdt.c:98-105 | true if and only if the NUL-terminated string equals the wanted one |
| FdtProps.GetProp | lib/fdt.c:353-396 | the loop over a node's properties computes, on every block, the function that GetPropOnTree is about |
| FdtProps.GetPropOnTree | lib/fdt.c:353-396 | the value of the node's own first property of that name, never one of a child |
| FdtProps.StringIsRead | lib/fdt.c:90-105 | a name offset stands for the C string written there |
| FdtProps.FirstOfName | lib/fdt.c:353-396 | the value is that of the first property of the name, and none behind a property whose name lies outside the strings block |
| FdtProps.CompatibleMatch | lib/fdt.c:460-475 | true if and only if the string is one of the NUL-separated entries, wherever in the list |
| FdtProps.EntriesOfList | lib/fdt.c:460-475 | the entries of a written list are all its strings in order and nothing else |
| FdtSearch.TurnOnTree | lib/fdt.c:477-530 | one turn of the search on its stack of offsets is one step over the tree |
| FdtSearch.TurnAdvances | lib/fdt.c:477-530 | a turn that meets no trap gives the first match or moves strictly forward over nodes that do not match |
| FdtSearch.ClimbStack | lib/fdt.c:518-528 | the loop that pops the stack ends at the nearest ancestor with a later sibling |
| FdtSearch.NodeByCompatible | lib/fdt.c:477-530 | the search ends with the first match in document order, or with an error exactly when no node matches |
| FdtSearch.SearchLoops | lib/fdt.c:500-511 | when a depth-15 node with children comes before the first match, the search is still going after every number of turns |
| FdtSearch.SearchEndsIff | lib/fdt.c:477-530 | the search ends if and only if no such node exists |
| FdtSearch.ShallowTreesAreSafe | lib/fdt.c:477-530 | no such node exists in a tree with no node deeper than 15 |
| FdtSearch.SearchHangs | lib/fdt.c:500-511 | for every chain of seventeen nodes or more, the encoding is a block on which no search for any string ends |
| FdtPath.FindChild | lib/fdt.c:427-446 | the child loop with its byte-wise comparison computes the lookup by name, on every block |
| FdtPath.SkipSlashes | lib/fdt.c:413-416 | passing over slashes leaves the components of the rest of the path the same |
| FdtPath.NameEnd | lib/fdt.c:420-425 | what is cut off is exactly the first component of the rest |
| FdtPath.PathOffset | lib/fdt.c:398-456 | for every path string and block, the lookup of the path's components one after the other |
| FdtPath.PathOnTree | lib/fdt.c:398-456 | for every path string: refused without a slash in front, and otherwise the node reached by first child of each name, if it is in reach: no step below depth 15 to other than a first child |
| FdtPath.ResolvedNames | lib/fdt.c:398-456 | a node that is found has exactly the names of the path |
| FdtPath.ComponentsSpell | lib/fdt.c:413-456 | extra slashes anywhere do not change the components |
| FdtPath.PathOfNode | lib/fdt.c:398-456 | with unique sibling names, every spelling of a node's path gives that node if and only if it is in reach, as all nodes down to depth 16 are |
| FdtPath.PathOfNoNode | lib/fdt.c:398-456 | with unique sibling names, a path is refused if and only if it does not start at the root or names no node in reach |
| FdtCells.OwnCells | lib/fdt.c:533-544 | the node's own count, when it declares one |
| FdtCells.CountIsRead | lib/fdt.c:533-544 | a count is the first written cell of its property, and a value shorter than a cell is none |
| FdtCells.ParentCells | lib/fdt.c:546-583 | one walk finds both counts, each as if it had been looked for alone |
| FdtCells.NearestIsNearest | lib/fdt.c:546-583 | the count is that of the longest prefix of the path that declares one, and 2 when none does |
| FdtCells.ParentCellsOnTree | lib/fdt.c:546-583 | on an encoded tree the walk gives the count of the nearest proper ancestor, for every node and both counts |
| FdtTranslate.BusCells | lib/fdt.c:661-674 | the three counts by which a bus's ranges are read are those of the tree, with 2 for a missing or zero count |
| FdtTranslate.MapAddress | lib/fdt.c:675-691 | the loop over ranges in 32- and 64-bit arithmetic is the map through the first window that contains the address |
| FdtTranslate.WalkUp | lib/fdt.c:640-701 | the walk is the composition of the maps of all buses up to the root, and fails exactly when one of them does |
| FdtTranslate.RegToCpuAddr | lib/fdt.c:612-705 | the chosen entry of reg, its base translated through all buses and its size unchanged, for every index and every failure |
| FdtRanges.CellsAreRead | lib/fdt.c:42-48 | a number written as cells, most significant first, is read back for every count of cells |
| FdtRanges.RangesAreRead | lib/fdt.c:675-691 | windows written as child address, parent address and length are read back, for all counts; a rest too short for an entry is ignored |
| FdtRanges.RangeInIsEntry | lib/fdt.c:627-638 | entry i of a written reg is the i-th address and length, and there is none past the last |
| FdtRanges.MapIs | lib/fdt.c:686-690 | an address goes through the first window that has it, by the distance between the window's two ends, and is not mapped when none has |
| FdtRanges.BusIsRead | lib/fdt.c:661-691 | a bus reads its written ranges by its own two counts and the count above it |
| FdtRanges.DeviceAddress | lib/fdt.c:612-705 | from what is written for a device and its bus to the CPU's address and the size |
| FdtRanges.SerialOfFixture | tests/fdt_test.dts:51-69 | the fixture's serial port at 0x2000 is at 0x80002000 |
| FdtRanges.NamesAreAscii | lib/fdt.c:546-628 | the property names are the ones they are meant to be |
| FdtTranslate.MapInjective | lib/fdt.c:675-691 | with windows that do not wrap and are apart on the parent's side, one bus maps different addresses to different ones |
| FdtTranslate.TranslationInjective | lib/fdt.c:640-701 | the same for the whole chain of buses above one node |
| FdtTranslate.DevicesStayApart | lib/fdt.c:612-705 | two devices on one bus whose registers get one CPU address have them at one address on the bus |
| FdtTranslate.TranslationKeepsOffsets | lib/fdt.c:640-701 | a block of registers that each bus covers by one window stays one block: offsets into it are preserved to the root |
| Capnp.DecodeStruct | kernel/capnp.h:42-92 | decoding undoes encoding of struct pointers for all 30-bit signed offsets and sizes; only the empty one at offset 0 is null |
| Capnp.DecodeList | kernel/capnp.h:42-92 | decoding undoes encoding of list pointers, for all offsets, element sizes and counts |
| Capnp.TagOfWord | kernel/capnp.h:54-91 | zero is null, and the two low bits of any other word say struct, list, far or capability |
| CapnpValidate.ReadWord | kernel/capnp_validate.c:26-34 | eight bytes put together are the little-endian word |
| CapnpValidate.ValidatePointerSlot | kernel/capnp_validate.c:42-163 | accepts exactly the valid slots, and ends on every message, cyclic ones included |
| CapnpValidate.ValidateElements | kernel/capnp_validate.c:111-146 | accepts exactly the composite lists whose elements fit and are valid |
| CapnpValidate.ProductFits | kernel/capnp_validate.c:124-133 | the product of element count and element size is below 2^64 for every tag word |
| CapnpValidate.ValidateStructAt | kernel/capnp_validate.c:165-214 | accepts exactly the valid structs at an offset |
| CapnpValidate.ValidateMessage | kernel/capnp_validate.c:216-283 | accepts exactly the valid messages, for all bytes, tables and schemas |
| CapnpReader.StructValidIff | kernel/capnp_validate.c:165-214 | a struct is accepted if and only if its data section is long enough and every slot that both schema and message have is accepted against its own entry |
| CapnpReader.SlotValidIff | kernel/capnp_validate.c:42-163 | a slot is accepted if and only if it is not too deep, holds what its schema says with all of it in the segment, and every struct it leads to is accepted |
| CapnpReader.AcceptedIff | kernel/capnp_validate.c:42-283 | a segment is accepted if and only if its root is in order and every way of a reader, defined by schema and message alone, passes at most 17 slots and is in order at every stop |
| CapnpReader.SegmentIff | kernel/capnp_validate.c:216-262 | the validator finds a segment exactly where one is framed |
| CapnpReader.MessageAcceptedIff | kernel/capnp_validate.c:216-283 | both together, for every message, table and schema |
| CapnpReader.ReaderStaysInside | kernel/capnp_validate.c:42-283 | whatever that reader touches in an accepted message, at the end of any path, lies in the declared segment |
| CapnpReader.PathsAreShort | kernel/capnp_validate.c:47-49 | no path from the root of an accepted message passes more than 17 pointer slots |
| CapnpReader.NoCycle | kernel/capnp_validate.c:47-49 | no path in an accepted message comes back to a place it has been at |
| CapnpReader.SegmentOfFramed | kernel/capnp_validate.c:216-283 | the segment found in a framed message is the one that was framed |
| CapnpReader.AcceptanceMonotone | kernel/capnp_validate.c:12-24 | an accepted message stays accepted with words appended to it and with schemas that ask for less |
| CapnpList.BuildListRoot | include/capnp_list.h:43-83 | writes exactly the message and nothing after it, or nothing at all when the buffer is too small |
| CapnpList.BuiltContents | include/capnp_list.h:43-83 | the given data and element words stand at the places the reader names |
| CapnpList.RoundTripIff | include/capnp_list.h:102-175 | reading undoes building if and only if the list body is under 2^29 words and the count under 2^30 |
| CapnpList.ViewIsInside | include/capnp_list.h:102-175 | on all inputs, what the reader returns lies inside the message, also when the body length is 0 and its predecessor wraps |
| CapnpList.ReadIff | include/capnp_list.h:102-175 | the reader accepts exactly the messages of the one shape, as the pointer decoder sees them, and names their parts |
| CapnpMismatch.BuiltIsValidIff | kernel/capnp_validate.c:106-146 | for every message the builder writes and every schema that looks at its list, the exact condition on sizes and schema under which the validator accepts it |
| CapnpMismatch.BuilderIsRefused | kernel/capnp_validate.c:106-123 | the validator refuses every such message whose element count fits its 30 bits or whose body fits its 29, and so all that the list reader reads back |
| CapnpMismatch.HugeListIsAccepted | include/capnp_list.h:73-78 | a list of 2^30 elements of one word is accepted, as one without elements |
| CapMachine.LiveIffCreated | kernel/cap.c:171-260 | after all sequences of operations, a handle is live if and only if the latest one on it is a CREATE, and has that CREATE's record |
| CapMachine.FactoryUntouched | kernel/cap.c:220-260 | no sequence of operations changes the factory's record |
| CapInvariant.StepKeeps | kernel/cap.c:59-89 | every step of every core, interrupts included, keeps the invariant |
| CapInvariant.RunKeeps | kernel/cap.c:59-89 | so does every run |
| CapInvariant.MutualExclusion | kernel/cap.c:59-89 | at most one frame of one core is between taking and releasing the lock |
| CapInvariant.HolderIsOnTop | kernel/cap.c:59-89 | the holder runs with IRQs masked, has no frame above it, cannot be interrupted and can take its next step |
| CapInvariant.LockIsReleased | kernel/cap.c:59-89 | each of the holder's steps brings the release nearer, at most nine are left, and no other step delays it |
| CapInvariant.MaskIsRestored | kernel/cap.c:59-89 | when a lock and unlock pair is through, the IRQ mask is what it was before |
| CapInvariant.EachCallRunsAlone | kernel/cap.c:369-377 | every call has the effect and outcome it would have alone, at the moment it releases the lock, after the calls released before it |
| CapInvariant.DestroyOfDead | kernel/cap.c:235-249 | a DESTROY that finds its handle dead when it has the lock leaves memory unchanged in every step of any core until it releases the lock, and has then failed |
| CapInvariant.LiveHandles | kernel/cap.c:163-263 | in all reachable states with the lock free, the live handles are the factory's and those whose latest completed operation is a CREATE |
| CapInvariant.FactoryStaysLive | kernel/cap.c:235-258 | in all reachable states the factory's record is the one it was bootstrapped with |
| CapInvariant.CopiedWhole | kernel/cap.c:369-377 | the copy made under the lock is the whole live record of the latest CREATE |
| CapInvariant.DispatchedRecordsAreWhole | kernel/cap.c:369-377 | after every run from the start, every record that a call dispatches on was left whole by one CREATE or is the factory's |
| CapKernel.FindMethod | kernel/cap.c:316-338 | the first method of that id in the object's run, and none exactly when the run has none |
| CapKernel.RequestIsLong | kernel/cap.c:171-192 | a validated factory request with its root at offset 0 holds every word the handler reads, and these are its data section |
| CapKernel.DispatchedIsLong | kernel/cap.c:387-396 | so does every call that reaches the handler, as long as only the factory's record has it |
| CapKernel.CreateReplyIsValid | kernel/cap.c:203-215 | CREATE's 24-byte reply has its declared shape for every handle |
| CapKernel.Kernel.Invoke | kernel/cap.c:340-414 | succeeds if and only if the record is live, the method found, and request and reply valid; nothing changes when it fails before dispatch, and the response is all zero with length 0 when it fails after |
| CapRequests.CreateCreates | kernel/cap.c:171-201 | a CREATE as it is written is dispatched and leaves its handler, data, table and index in its slot, live, and all else as it was; a null slot leaves memory alone |
| CapRequests.DestroyDestroys | kernel/cap.c:220-260 | a DESTROY as it is written is dispatched and clears its target if that is live and not the factory, and nothing else |
| CapRequests.ReplyHasHandle | kernel/cap.c:203-215 | the reply to a CREATE is a message with the slot as its one data word, and none without a slot or room |
| CapRequests.CreateObject | kernel/cap.c:340-414 | the whole call: record, success and reply; without room for the reply the object is there and the call fails |
| CapRequests.DestroyObject | kernel/cap.c:340-414 | the whole call: the target is dead afterwards unless it is the factory, and every other record is as it was |
| CapLink.CallHasItsMoment | kernel/cap.c:59-89 | over every run of all cores, each call between its beginning and its end either is refused before the lock or has a step at which it has the effect and outcome it would have alone on the memory of that moment |
| CapLink.LookupIsInvokes | kernel/cap.c:369-393 | a call is dispatched on what the sequential kernel_invoke is dispatched on at a moment between its beginning and the end of its lookup, or on nothing when that is |
| CapLink.EffectIsInvokes | kernel/cap.c:187-258 | a factory request makes memory, at a moment between its beginning and its end, what the sequential kernel_invoke makes of it, or is one without effect on any memory |
| CapLink.MemoryIsNow | kernel/cap.c:59-89 | whenever the lock is free, memory is what the calls made of it at their moments, one after the other |
| CapKernel.CopyOut | kernel/cap.c:203-215 | the reply stands at the start of the buffer and the rest is as before |
| CapKernel.Wipe | kernel/cap.c:400-412 | the whole buffer is zero |
| CapBootstrap.BoundIsFactory | kernel/cap.c:123-161 | bound globals are a factory: the descriptor stands for the factory's whole schema table, and by the record's index both methods are found in it |
| CapBootstrap.Image.Bootstrap | kernel/cap.c:265-314 | from every state an image can start in, its globals end up its own and a factory; if they were already, nothing changes and a held lock stays held, and otherwise the lock is free |
| CapBootstrap.SharedStaysBound | kernel/cap.c:267-291 | in every state of every run in a shared image, in the middle of other cores' calls too, a further bootstrap changes nothing, the lock included |
| CapImages.StepKeepsWorld | kernel/cap.c:340-414 | every step of every call keeps the copy's globals its own, and every call in the copy with a record that leads there |
| CapImages.CallsStayInCopy | kernel/cap.c:265-314 | after every run of calls through the copy's factory, the code, lock, handler, descriptor and arrays that each call uses lie in the copy, and no other lock and no descriptor has changed |
| CapImages.CallGoesThrough | kernel/cap.c:293-308 | a call in the copy finds its method by the copy's descriptor and carries its operation out, also when the image was copied with the lock held |
| CapImages.OriginalKeptIff | kernel/cap.c:265-314 | over every run, the original's record, descriptor and lock are the same in every state if and only if no operation that ended or is under way has harmed its record |
| CapImages.OriginalIsKept | kernel/cap.c:265-314 | no run changes anything of the original's globals if no request names its record |
| CapImages.OriginalCanBeLost | kernel/cap.c:220-260 | from every start, a DESTROY through the copy's factory that names the original's changes it |
| Macho.ResolveSlice | kernel/macho.c:59-81 | the first slice for this processor in a fat image, 0 for a plain one, or none |
| MachoFormat.FatIsRead | kernel/macho.c:66-81 | in a written fat table the offset of the first entry for the processor is found |
| Macho.LoadSegment | kernel/macho.c:141-148 | one segment's file bytes and then zeros at its address, and no other byte changed |
| Macho.LoadAll | kernel/macho.c:108-155 | the first pass stores all file-backed segments in order and remembers the last LC_MAIN |
| Macho.FindEntry | kernel/macho.c:168-179 | the address of the entry offset in the first segment whose file range has it |
| Macho.Load | kernel/macho.c:83-183 | memory and entry address for every image, with 0 and unchanged memory for those that are refused |
| MachoFormat.CommandIsRead | kernel/macho.c:27-41 | all fields of a written segment or entry command are read back, wherever it stands |
| MachoFormat.SliceIsRead | kernel/macho.c:92-114 | processor and commands of a written slice are found, in order |
| MachoFormat.LoadedByte | kernel/macho.c:132-148 | each byte of each written segment, by its four fields, stands at its place: the file's byte, or zero up to its memory size |
| MachoFormat.LoadedElsewhere | kernel/macho.c:132-148 | every address that is no byte's place is as before |
| MachoFormat.EntryOfWritten | kernel/macho.c:149-179 | the entry is the offset of the last entry command, in the first segment whose file range has it |
| MachoFormat.LoadWritten | kernel/macho.c:83-183 | the loader on a written slice: all of memory, and the entry |
| Macho.ImageSize | kernel/macho.c:185-236 | the span from the lowest to the highest address of file-backed segments, and 0 when there are none |
| MachoFormat.SizeIsSpan | kernel/macho.c:199-235 | the size of a written slice is from the least address to the greatest end of the segments with file bytes, each attained; others do not matter |
| MachoImage.SegmentBytes | kernel/macho.c:108-155 | each byte of each disjoint segment is the file's byte, or zero past the file's, also where the segment runs past the end of the address space |
| MachoImage.OutsideSegments | kernel/macho.c:108-155 | the image has no byte at an address if and only if no segment covers it |
| MachoImage.SlideShifts | kernel/macho.c:136-148 | loading with a slide is loading without one, moved |
| MachoImage.EntryShifts | kernel/macho.c:168-179 | so is the entry address |
| MachoImage.EntryByte | kernel/macho.c:83-183 | at the returned entry stands the file's byte at the entry offset |
| ApRegions.FootprintBounds | kernel/macho.c:199-235 | every file-backed segment lies in the reported span |
| ApRegions.ContainedIff | kernel/kernel_boot_aarch64.c:344-345 | for every image, an AP's load stays in its init slot if and only if each segment lies in the two megabytes from init's load base |
| ApRegions.PublishedContainedIff | kernel/kernel_boot_aarch64.c:188-196 | for an image that passes the gate, it does if and only if no segment's end wraps around and no segment's file bytes go past the slot |
| ApRegions.PublishedInitStaysInSlot | kernel/kernel_boot_aarch64.c:188-196 | what the size gate lets through writes into the core's own slot only |
| ApRegions.LoadChangesOnlyWrites | kernel/macho.c:108-155 | addresses that no segment writes keep their bytes, for every image |
| ApRegions.LoadWrites | kernel/macho.c:108-155 | addresses that one writes hold the image's byte |
| ApRegions.PublishedStaysInRegion | kernel/kernel_boot_aarch64.c:188-196 | a published load whose ends do not wrap writes only its core's region from the init slot on, since init's file is in the image that the gate measures |
| ApRegions.ApLoadStaysInSlot | kernel/kernel_boot_aarch64.c:344-345 | of the bytes of a published init: all memory outside the slot, or outside the core's region from the slot on, is as before, under the exact condition for each |
| ApRegions.LoadInitOnAp | kernel/kernel_boot_aarch64.c:335-345 | the AP's computation of its slide and its load leave that memory as it was |
| ApRegions.SlotIsApart | include/smp_layout.h:33-46 | the slot meets neither the core's kernel copy, stack, mailbox, discovery record and page tables nor another core's region |
| ApRegions.WrappedSegmentEscapes | kernel/kernel_boot_aarch64.c:173-196 | an init with an entry point whose last segment's end wraps around gets through the gate, and an AP loads it outside its slot |
| ApRegions.LongFileEscapes | kernel/kernel_boot_aarch64.c:173-196 | so does one, small enough for the kernel's image, with a segment of more file bytes than memory and no sum that wraps |
| MachoXnu.ReadLoadCommands | tools/macho_to_xnu.py:36-47 | the commands of every file, or the error it ends with |
| MachoXnu.Convert | tools/macho_to_xnu.py:50-140 | the output of every file, or the error it ends with |
| MachoXnu.OutputStarts | tools/macho_to_xnu.py:117-125 | the output's header has the number and the length of its commands and keeps processor and file type |
| MachoXnu.ReparseIsSegmentsAndThread | tools/macho_to_xnu.py:50-140 | parsing the output gives the input's segment commands, byte for byte and in order, and one thread command, when each of them is there in full |
| MachoXnuReparse.ReparseIff | tools/macho_to_xnu.py:50-140 | and only then |
| MachoXnuReparse.CutFileIsNotParsedBack | tools/macho_to_xnu.py:58-61 | a file with a cut-off segment command is converted, and the output does not parse back |
| MachoXnu.TailIsKept | tools/macho_to_xnu.py:132-137 | all bytes from the entry offset on are kept, and the length if and only if that offset lies in the file |
| MachoXnu.ThreadFields | tools/macho_to_xnu.py:106-115 | entry point and stack stand where a loader looks for rip and rsp |
| MachoXnuPlan.ThreadIsState | tools/macho_to_xnu.py:106-115 | the thread command is its head and all 21 registers, zero but stack, entry and flags |
| MachoXnuPlan.StackIsEnd | tools/macho_to_xnu.py:91-104 | the recorded stack is the end of the last segment rounded down to 16 |
| MachoXnuPlan.ConvertedIff | tools/macho_to_xnu.py:125-130 | a file whose parts were found is converted if and only if the new commands end at or before the entry offset |
| MachoXnuPlan.GapIsZero | tools/macho_to_xnu.py:132-136 | between them the output is zero |
| MachoXnuPlan.IsTextIff | tools/macho_to_xnu.py:76-81 | the text segment is the one named "__TEXT" and zeros |
| MachoXnuLoad.ImageSizeIsKept | kernel/macho.c:185-236 | both files can be measured, and macho_image_size gives the same for both, for every processor; the loader sees the same segments |
| MachoXnuLoad.RecordedEntry | tools/macho_to_xnu.py:69-84 | the recorded entry is the one at which the loader with base 0 would enter the input |

## Left out

- FdtLexer.CtxInit: each entry point of `lib/fdt.c` runs it anew; the model runs it once and passes its result on. Totals are below 2^31, because offsets are returned as `int`.
- FdtWalk.FirstChild: it, `fdt_parent_offset` and `fdt_getprop` read a word before a check covers it. What they read outside the block is modelled as an arbitrary value, so no claim depends on it.
- FdtProps.GetProp: the strings block ends in a NUL, since the code checks only where a string starts.
- FdtSearch.NodeByCompatible: stated for blocks that encode a tree and for which the search ends, which `FdtSearch.SearchEndsIff` characterises. Blocks that start with a node but encode no tree are not covered.
- FdtTranslate.BusCells: stated for blocks that encode a tree, with `#address-cells` and `#size-cells` under 2^28, where the code's 32-bit products do not wrap; `FdtTranslate.WalkUp` and `FdtTranslate.RegToCpuAddr` likewise.
- FdtTranslate.RegToCpuAddr: indices below 2^32 - 1, since the code adds one to the index in 32 bits. As in the code, the walk starts at the device itself.
- CapKernel.Kernel.Invoke: a message that reaches the factory's handler is as long as what the handler reads without looking at its length; `CapKernel.DispatchedIsLong` says when that is so. A foreign handler leaves arbitrary bytes in the response buffer and reports a length that fits it; calls it makes itself occur in the state machine only.
- CapRequests.CreateCreates: object indices below 2^16, the width to which the handler cuts them.
- MachoFormat.SizeIsSpan: greatest ends below 2^64; `Macho.ImageSize` covers the others.
- CapImages.StepKeepsWorld: records, descriptors and locks are apart in memory, so that a CREATE's storage never overlaps a descriptor or a lock; IRQ masks are left out, so that any call may step at any time; the original makes no calls of its own during the run.
- CapBootstrap.Image.Bootstrap: in a shared image the wait for the lock is not part of this method; it is the operation `Bootstrap` of the state machine.
- CapInvariant.StepKeeps: memory is sequentially consistent, records are written by the kernel only and do not overlap in part, and no CREATE names the factory's record.
- Macho.Load: load commands, the fat table and segment contents are in the image, since the code takes no length and checks none.
- MachoXnuLoad.ImageSizeIsKept: needs every segment command to have all its fields and to lie in the file.
- MachoXnuLoad.RecordedEntry: needs `__TEXT` to start the file and to be the first segment with the entry offset, as the tool's own comments do.
- The call of the loader for x86 application processors, which passes a base and not a displacement.
- `fdt_valid`, `fdt_is_enabled`, memory and reserved ranges, own cell counts: easy members on the same walks.
- Capability pointers, far pointers and messages of several segments, which the validator does not follow.
- `kernel/kernel.c`, assembly, page tables, serial output and logging.
- The boot protocol's allocator, the mode tokens and the other tools.
- Time, fairness and waiting times of the spin lock: that a waiting core gets the lock is not claimed.
