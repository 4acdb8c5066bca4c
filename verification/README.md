# Flattened device trees, the FIT chain loader and the RK356x firmware, verified

This project models the parts of the repository that carry an argument: the
flattened device tree library in `external/libfdt`, the FIT chain loader in
`src/chainload`, the DRAM discovery, memory map and page tables in
`src/rk356x`, the USB keyboard enumeration in `src/ohci.c`, and the upload
stream of `tools/rock.c`. `dafny verify dfyconfig.toml` checks all of it.

How the model is built:

- Bytes are integers below 256 and sequences of them stand for memory; every
  width, wrap-around and truncation that the C code can meet is written out.
- Each C routine appears twice where it works by changing things: a function
  that says what it computes on arbitrary bytes, error codes included, and a
  method in the form of the C loop, on arrays or on the fields of a class,
  proved equal to that function. Routines that edit a blob work on one memory
  array; their contracts say what the window of the blob holds afterwards and
  that nothing outside the window changed.
- A structure block is described by a `Forest`, the exact list of items with
  every padding byte and NOP tag, and a position in it by a `Ctx`. `Meaning`
  drops what a reader cannot see and resolves names; `Graft` puts a subtree in
  its place. Theorems about trees relate the functions on bytes to these.
- `Encodes(b, at, c, f)` says that the blob `b` at address `at` may be edited
  and holds the tree that has the items `f` at the position `c`.

Files, in the order of their imports:

- `bytes`, `memory`: words, padding, overlapping moves, windows of memory.
- `fdt_format`, `fdt_walk`, `fdt_nodes`, `fdt_read`, `fdt_tree`,
  `fdt_ancestors`, `fdt_paths`, `fdt_lookup`, `fdt_props`, `fdt_check`: reading.
- `fdt_names`: which node a name stands for, from the names alone.
- `fdt_splice`, `fdt_edit`, `fdt_update`, `fdt_meaning`, `fdt_setprop`,
  `fdt_delete`, `fdt_removal`, `fdt_addnode`, `fdt_pack`: editing in place.
- `fdt_writer`, `fdt_finish`, `fdt_emit`, `fdt_write`: the sequential writer.
- `sha256`, `fit_image`, `fit_plan`, `fit_parse`, `fit_load`, `fit_record`: the
  chain loader; `fit_manifest`: which plan a FIT asks for, told from its
  properties; `fit_readback`: what is read from the control DTB it leaves.
- `rk356x`, `memory_map`, `pmugrf`, `dram`, `page_tables`: RK356x memory;
  `pmugrf_layout`, `atags`: its two inputs from the side of their writer.
- `usb_keyboard`, `ohci`, `upload`: the two protocols; `usb_device`: the device
  that the enumeration talks to.

Premises that the C code does not check and the theorems therefore state:

- The board's BL31 ranges do not meet `[bl33Entry, bl33Limit)`
  (`FitLoad.RangesApart`): chain_fit_parse never compares the window of the
  control DTB with the BL31 segments.
- The inline data of the control DTB hold a blob whose blocks lie inside them
  (`FitLoad.ControlDtb`), and for its tree that it is a finished one
  (`FitRecord.InnerTree`): chain_fit_parse does not look into them.
- fdt_pack is called on a blob whose reservation map ends before its structure
  block; the editing probe only asks for room for one entry.
- fdt_add_string_ subtracts in unsigned arithmetic. Where strings and a new
  name together exceed the buffer the C code would write outside it; the
  function `FdtWriter.Property` returns `WILD` there, exactly then, and the
  method requires that it does not happen.

What the code does not do although a caller may expect it:

- fdt_open_into may lose the boot CPU number when it reorders a blob over its
  own header, because it reads the number after the move. `FdtPack.BootLost`
  has a blob that loses it when opened in place, `FdtPack.BootWordIs` says what
  the number becomes for every position of buffer and blob, and
  `FdtPack.BootSurvives` when it is kept: if and only if the blob is in order,
  or the new blob does not reach the old number, or the bytes of it that the new
  blob covers are the same there.
- A path found by fdt_get_path leads back to its node exactly when no step of
  it has an earlier sibling that matches (`FdtLookup.PathRoundTrip`):
  `FdtLookup.PathAstray` has the tree whose children "a@1" and "a" share the
  path "/a" for the lookup.
- record_image finds an image's node by a name that may lack a unit address, so
  a later image can take the node of an earlier one. What is read back below
  /fit-images is the image's own exactly when no later recorded image reaches
  the node that its name finds in the end (`FitReadback.KeepsOwn`, a condition
  on names alone; `FitReadback.AddressReadsBack`). Names that differ before the
  '@' are enough (`FitReadback.KeepsUnlessSimilar`); `FitReadback.Displaced` has
  the pair "atf", "atf@1".

## Model

| member | source | states |
|---|---|---|
| Memory.MemMove | src/chainload/compat.c:40-53 | the target range gets the old source bytes whatever the overlap, and nothing else changes |
| FdtWalk.OffsetPtrIs | external/libfdt/fdt.c:140-160 | none of the unsigned sums lets a read leave the structure block: the test passes exactly when the bytes are in it |
| FdtWalk.ReadTag | external/libfdt/fdt.c:162-221 | the tag loop computes `NextTag`, which advances by at least 4 to an aligned offset or reports an error |
| FdtNodes.CheckNodeOffset | external/libfdt/fdt.c:223-233 | a node offset is accepted exactly when aligned and at a begin tag; the result is the offset behind the name |
| FdtNodes.FindNextNode | external/libfdt/fdt.c:247-285 | one step of the flat walk, on any bytes and any depth counter, with its errors |
| FdtNodes.WalkPreorder | external/libfdt/fdt.c:247-285 | from any position of an encoded tree the walk lists exactly the nodes standing there in preorder, each with its depth, and goes on behind them |
| FdtNodes.WalkNodeBody | external/libfdt/fdt.c:247-285 | started at a node with counter 0 it visits exactly the nodes below it and stops behind the node's end tag |
| FdtNodes.WalkSiblings | external/libfdt/fdt.c:247-285 | started at a child it visits the child's subtree and the later siblings with theirs |
| FdtNodes.FindFirstSubnode | external/libfdt/fdt.c:287-296 | the first visit if it is at depth 1 |
| FdtNodes.FindNextSubnode | external/libfdt/fdt.c:298-313 | the next visit at depth 1 of the walk from a child; the loop ends on any bytes |
| FdtTree.FirstSubnodeIs | external/libfdt/fdt.c:287-296 | fdt_first_subnode returns the first child or reports that there is none |
| FdtTree.NextSubnodeIs | external/libfdt/fdt.c:298-313 | fdt_next_subnode returns the next sibling, whatever the child contains |
| FdtRead.FindSubnode | external/libfdt/fdt_ro.c:225-242 | on any bytes, the first visit at depth 1 whose name compares equal, with the probe's errors |
| FdtTree.SubnodeIs | external/libfdt/fdt_ro.c:225-242 | on an encoded tree that is the first child whose name compares equal; which names do is `FdtNames.NameMatchIs` |
| FdtNames.NameMatchIs | external/libfdt/fdt_ro.c:13-32 | the comparison is true exactly when the name is the wanted one, or the wanted one has no '@' and is the part of the name before its first '@' |
| FdtNames.SubnodeByName | external/libfdt/fdt_ro.c:225-242 | on an encoded tree fdt_subnode_offset returns the offset of the first child that answers to the name in that sense, NOTFOUND when none does |
| FdtNames.SubnodeExact | external/libfdt/fdt_ro.c:225-242 | among children with distinct names and no unit addresses it is the child of exactly that name, NOTFOUND when there is none |
| FdtNames.AddByName | external/libfdt/fdt_rw.c:340-382 | fdt_add_subnode reports EXISTS exactly when a child answers to the name |
| FdtRead.GetStringIs | external/libfdt/fdt_ro.c:34-98 | in a finished blob fdt_get_string returns exactly the terminated string of the strings block |
| FdtAncestors.FindNodeEnd | external/libfdt/fdt_wip.c:73-81 | the loop of fdt_node_end_offset_ returns the last offset of the walk |
| FdtAncestors.NodeEndIs | external/libfdt/fdt_wip.c:73-81 | that is the offset just behind the node's matching end tag |
| FdtAncestors.FindSupernode | external/libfdt/fdt_ro.c:621-657 | the loop computes `Supernode` on any bytes, with its errors |
| FdtAncestors.TrailTo | external/libfdt/fdt.c:247-285 | from the root the walk reaches every node with its true depth after exactly the nodes before it |
| FdtAncestors.SupernodeIs | external/libfdt/fdt_ro.c:621-657 | it finds the ancestor at every depth up to the node's own and reports the node's depth |
| FdtAncestors.FindParent | external/libfdt/fdt_ro.c:671-679 | the depth is found first, then the ancestor one above |
| FdtAncestors.ParentIs | external/libfdt/fdt_ro.c:671-679 | fdt_parent_offset inverts child-of; the root has no parent |
| FdtPaths.GetPath | external/libfdt/fdt_ro.c:569-619 | the buffer gets the path and a NUL exactly when both fit, NOSPACE otherwise, and no byte behind the buffer changes |
| FdtLookup.FindPath | external/libfdt/fdt_ro.c:250-296 | the loop resolves an absolute path component by component |
| FdtLookup.PathRoundTrip | external/libfdt/fdt_ro.c:250-301 | looking up the path of a node finds it again if and only if no step has an earlier matching sibling |
| FdtNames.PathByNames | external/libfdt/fdt_ro.c:250-301 | the same with the condition on names: on no level does an earlier sibling answer to the step's name |
| FdtLookup.PathAstray | external/libfdt/fdt_ro.c:225-301 | in a blob whose root has the children "a@1" and "a", looking up the path of the second returns the first |
| FdtProps.FindNextProp | external/libfdt/fdt_ro.c:201-223 | the search for the next property passes NOPs only |
| FdtProps.FindProp | external/libfdt/fdt_ro.c:397-425 | the first property of a node with the name, on any bytes, with its errors |
| FdtProps.PropOffsetIs | external/libfdt/fdt_ro.c:397-425 | on an encoded tree it is the first property of that name before the first child |
| FdtCheck.CheckBlockIs | external/libfdt/fdt.c:52-67 | the wrapping block test accepts exactly the blocks that lie between header and end |
| FdtCheck.RunCheckFull | external/libfdt/fdt_ro.c:889-967 | the checker's loop with its flat depth counter computes `CheckFull` |
| FdtCheck.CountRsv | external/libfdt/fdt_ro.c:189-199 | the index of the first entry of size zero, or TRUNCATED |
| FdtCheck.CheckIsGrammar | external/libfdt/fdt_ro.c:915-966 | the flat loop accepts if and only if the block starts with the encoding of a tree of the recursive grammar with every name terminated |
| FdtCheck.CheckFullIs | external/libfdt/fdt_ro.c:889-967 | the full check returns 0 if and only if header, size and map are good and such a tree exists |
| FdtSplice.RwProbeIs | external/libfdt/fdt_rw.c:13-40 | the wrapping order test passes exactly on blobs whose blocks are in order |
| FdtSplice.SpliceAt | external/libfdt/fdt_rw.c:54-68 | bounds and room are checked and the rest of the data moved, in one window of memory |
| FdtSplice.SpliceStructAt | external/libfdt/fdt_rw.c:83-95 | a splice of the structure block updates the two header words |
| FdtSplice.SpliceStructIs | external/libfdt/fdt_rw.c:54-95 | the block is the old one with the range replaced by a gap; strings, what stands before, and all other header words are as before |
| FdtSplice.SearchString | external/libfdt/fdt.c:315-325 | the first place where the name stands with a NUL behind it |
| FdtSplice.AddDelString | external/libfdt/fdt_rw.c:98-116 | taking an added string back restores every block and the header |
| FdtEdit.FindAddString | external/libfdt/fdt_rw.c:127-155 | the name's offset, the string added when it is not there, or NOSPACE |
| FdtEdit.NameAdded | external/libfdt/fdt_rw.c:127-155 | afterwards the name stands at that offset and nothing but the strings block has grown |
| FdtEdit.SetProperty | external/libfdt/fdt_rw.c:262-295 | fdt_setprop in memory equals `SetProp` on the blob and writes nothing outside it |
| FdtEdit.ResizeProperty | external/libfdt/fdt_rw.c:186-204 | the property's data are resized and its length word set, or nothing changes |
| FdtEdit.AddProperty | external/libfdt/fdt_rw.c:206-237 | name, gap and property words, with the rollback of the name |
| FdtMeaning.WithPropLookup | external/libfdt/fdt_rw.c:281-295 | the updated items give back what was set and every other property as before |
| FdtMeaning.MeaningExtends | external/libfdt/fdt_rw.c:105-116 | strings added behind leave every tree's meaning alone |
| FdtSetProp.SetPropRefines | external/libfdt/fdt_rw.c:186-295 | succeeds exactly when there is room; then only that node's first property of the name changes or one is prepended; on NOSPACE every block and the header are as before, also after the rollback |
| FdtAddNode.AddNode | external/libfdt/fdt_rw.c:340-382 | fdt_add_subnode in memory equals `AddSubnode` on the blob and writes nothing outside it |
| FdtAddNode.AddSubnodeRefines | external/libfdt/fdt_rw.c:340-382 | EXISTS exactly when a child matches, NOSPACE exactly without room; otherwise the returned offset is that of a new empty node behind the parent's properties and nothing else has changed |
| FdtDelete.DeleteProperty | external/libfdt/fdt_rw.c:325-338 | fdt_delprop in memory equals `DelProp` |
| FdtDelete.DeleteNode | external/libfdt/fdt_rw.c:389-401 | fdt_del_node in memory equals `DelNode` |
| FdtDelete.NopRegion | external/libfdt/fdt_wip.c:51-57 | the range is filled with NOP words |
| FdtDelete.NopProperty | external/libfdt/fdt_wip.c:59-71 | fdt_nop_property in memory equals `NopProp` |
| FdtDelete.NopOutNode | external/libfdt/fdt_wip.c:83-94 | fdt_nop_node in memory equals `NopNode` |
| FdtRemoval.DelPropRefines | external/libfdt/fdt_rw.c:325-338 | removes exactly the first property of the name, or reports NOTFOUND exactly when there is none |
| FdtRemoval.NopPropRefines | external/libfdt/fdt_wip.c:59-71 | the same on the tree; of the items only that property is replaced, by NOPs of its size |
| FdtRemoval.NopPropKeepsOffsets | external/libfdt/fdt_wip.c:59-71 | every node keeps its offset and depth, and a property of any other name is found where it was |
| FdtRemoval.DelNodeRefines | external/libfdt/fdt_rw.c:389-401 | takes out exactly the node and what is below it |
| FdtRemoval.NopNodeRefines | external/libfdt/fdt_wip.c:83-94 | the same on the tree with a block of the same size |
| FdtRemoval.NopNodeEqualsDelNode | external/libfdt/fdt_wip.c:83-94 | overwriting and deleting a node denote the same tree |
| FdtRemoval.NopPropEqualsDelProp | external/libfdt/fdt_wip.c:59-71 | overwriting and deleting a property denote the same tree |
| FdtRemoval.NopNodeKeepsOffsets | external/libfdt/fdt_wip.c:83-94 | every other node keeps its offset and depth |
| FdtPack.PackBlocksAt | external/libfdt/fdt_rw.c:403-424 | the moves and header stores in their order equal `PackBlocks`, the source header read between them |
| FdtPack.PackedIs | external/libfdt/fdt_rw.c:403-424 | no move runs over a block still to be moved: all three blocks arrive whole and nothing outside the target changes |
| FdtPack.Pack | external/libfdt/fdt_rw.c:494-507 | the three blocks are kept byte for byte, the total size becomes exact, nothing outside the blob changes |
| FdtPack.OpenInto | external/libfdt/fdt_rw.c:426-492 | the exact error; on success the buffer holds the same blocks in editable order, whether or not it overlaps the blob, and the boot CPU number is `BootWord` |
| FdtPack.BootWordIs | external/libfdt/fdt_rw.c:464-492 | what a reordering makes of the boot CPU number, by where the new blob stands: the old number, a word of the new blob, or bytes of both |
| FdtPack.BootSurvives | external/libfdt/fdt_rw.c:426-492 | it is kept if and only if the blob is in order, or the new blob stays clear of it, or covers it with the same bytes |
| FdtPack.BootLost | external/libfdt/fdt_rw.c:464-492 | a misordered blob, opened in place with zero bytes behind it, comes out with 0 for the boot CPU number 1 |
| FdtPack.HoldsEditable | external/libfdt/fdt_rw.c:25-40 | such a blob passes the editing probe's order test and reads as before |
| FdtPack.RsvInside | external/libfdt/fdt_ro.c:160-199 | a terminated reservation map lies inside the blob |
| FdtWriter.CreateIs | external/libfdt/fdt_sw.c:109-141 | succeeds exactly when header fits and flags are known, and leaves the empty draft |
| FdtWriter.ReserveIs | external/libfdt/fdt_sw.c:188-206 | one entry more in the map, or NOSPACE and nothing changed |
| FdtWriter.EndReserveIs | external/libfdt/fdt_sw.c:208-217 | the terminator, and the change of state |
| FdtWriter.BeginIs | external/libfdt/fdt_sw.c:219-234 | succeeds exactly when it fits and appends a node's head, its padding being what stood there |
| FdtWriter.EndNodeIs | external/libfdt/fdt_sw.c:236-248 | succeeds exactly when it fits and appends an end tag |
| FdtWriter.AddNameIs | external/libfdt/fdt_sw.c:250-274 | strings grow downwards, and taking the new one back restores the draft |
| FdtWriter.NameIndexIs | external/libfdt/fdt_sw.c:276-291 | whether found or added, the name stands where the offset says |
| FdtWriter.PropertyIs | external/libfdt/fdt_sw.c:293-335 | succeeds exactly when name and property fit; otherwise the draft is as before; a write outside the buffer happens exactly when strings and name together exceed it |
| FdtFinish.PatchIs | external/libfdt/fdt_sw.c:359-371 | the walk shifts every name offset of the tree and changes nothing else |
| FdtFinish.FinishIs | external/libfdt/fdt_sw.c:337-384 | succeeds exactly when the end tag fits; map, structure and strings of the draft are in the finished blob |
| FdtEmit.EmitIs | external/libfdt/fdt_sw.c:219-335 | emitting a tree call by call succeeds exactly when it fits and appends that tree |
| FdtEmit.WriteReadRoundTrip | external/libfdt/fdt_sw.c:94-384 | every tree is written exactly when it fits, to exactly the needed size, and the finished blob decodes to that tree and those reservations, names shared or not |
| FdtEmit.NameSurvivesFinish | external/libfdt/fdt_sw.c:337-384 | a name resolves to the same string before and after fdt_finish |
| FdtEmit.RelocateMeans | external/libfdt/fdt_sw.c:359-371 | relocation turns names counted from the end into the same names counted from the start |
| FdtEmit.DedupNoLarger | external/libfdt/fdt_sw.c:276-311 | sharing names never needs more room |
| FdtEmit.WrittenChecks | external/libfdt/fdt_sw.c:337-384 | a written tree with one nameless root passes the full check and may be edited |
| FdtWrite.CreateAt | external/libfdt/fdt_sw.c:109-141 | fdt_create_with_flags in memory equals `Create` |
| FdtWrite.AddReservation | external/libfdt/fdt_sw.c:188-206 | fdt_add_reservemap_entry in memory, with the state probe |
| FdtWrite.FinishReservations | external/libfdt/fdt_sw.c:208-217 | fdt_finish_reservemap in memory |
| FdtWrite.GrabSpace | external/libfdt/fdt_sw.c:94-107 | the room test with its unsigned difference, and where the new bytes go |
| FdtWrite.BeginNode | external/libfdt/fdt_sw.c:219-234 | fdt_begin_node in memory equals `Begin` |
| FdtWrite.CloseNode | external/libfdt/fdt_sw.c:236-248 | fdt_end_node in memory equals `EndNode` |
| FdtWrite.AddProperty | external/libfdt/fdt_sw.c:293-335 | fdt_property in memory equals `Property`, rollback included |
| FdtWrite.PatchNames | external/libfdt/fdt_sw.c:359-373 | the loop of fdt_finish in memory equals `Patch` |
| FdtWrite.FinishBlob | external/libfdt/fdt_sw.c:337-384 | fdt_finish in memory equals `Finish` |
| FdtWrite.MoveEndsIs | external/libfdt/fdt_sw.c:168-179 | in the order that depends on the addresses, neither move of fdt_resize runs over what the other reads |
| FdtWrite.ResizeDraft | external/libfdt/fdt_sw.c:148-186 | the probe's error, or NOSPACE exactly when the draft does not fit; otherwise the same draft goes on in the new buffer, overlapping or not |
| Sha256.PadIsMinimal | src/chainload/sha256.c:93-105 | the padding fills whole blocks and is the shortest that does (FIPS 180-4, section 5.1.1) |
| Sha256.RotationsAgree | src/chainload/sha256.c:8-14 | the macros are the functions of section 4.1.2 |
| Sha256.Expand | src/chainload/sha256.c:47-55 | the message schedule of section 6.2.2 |
| Sha256.RunRounds | src/chainload/sha256.c:56-63 | the 64 rounds of section 6.2.2 |
| Sha256.Transform | src/chainload/sha256.c:47-66 | the state is compressed with the block |
| Sha256.Context.constructor | src/chainload/sha256.c:68-73 | the empty message |
| Sha256.Context.Absorb | src/chainload/sha256.c:79-90 | the blocks compressed so far and the buffer concatenate to the message, and fewer than 64 bytes are buffered |
| Sha256.Context.Update | src/chainload/sha256.c:75-91 | the message grows by exactly the data |
| Sha256.Context.AddPadding | src/chainload/sha256.c:93-102 | the bit 1 and fewer than 64 zero bytes, over one block or two |
| Sha256.Context.Final | src/chainload/sha256.c:93-113 | the digest of the message for every message below 2^61 bytes |
| Sha256.OneShot | src/chainload/sha256.c:115-120 | the digest of the data |
| Sha256.InPieces | src/chainload/sha256.c:68-113 | however the message is cut, the digest is that of the whole |
| Sha256.Constants | src/chainload/sha256.c:18-40 | the words are the first 32 binary places of the cube roots of the listed primes and of the square roots of the first eight (FIPS 180-4, sections 4.2.2 and 5.3.3) |
| FitImage.GetProp | src/chainload/fit.c:17-44 | the data of a property and where they stand in the FIT |
| FitImage.GetText | src/chainload/fit.c:17-23 | the first string of a property, if it is terminated |
| FitImage.ValidateHash | src/chainload/fit.c:66-86 | the loop over the hash nodes equals `HashesMatch` |
| FitImage.HashesMatchIs | src/chainload/fit.c:66-86 | an image passes if and only if it has exactly one sha256 node and that holds the digest of its data |
| FitParse.Bl31Allowed | src/chainload/fit.c:53-64 | some allowed range holds the segment |
| FitParse.CountStrings | external/libfdt/fdt_ro.c:750-773 | the number of strings, or BADVALUE without a last NUL |
| FitParse.GetItem | external/libfdt/fdt_ro.c:805-848 | the string of that index, or why there is none |
| FitParse.GetAddress | src/chainload/fit.c:25-44 | absent, one cell, two cells, or malformed |
| FitParse.Examine | src/chainload/fit.c:97-144 | what add_image reads, with its refusals in their order |
| FitParse.Builder.constructor | src/chainload/fit.c:253-255 | the empty plan |
| FitParse.Builder.AddImageTo | src/chainload/fit.c:88-229 | the plan grows as `AddImage` says, or keeps its value and gives the reason |
| FitParse.Builder.AddFdt | src/chainload/fit.c:145-169 | the control DTB and its refusals |
| FitParse.Builder.AddBl33 | src/chainload/fit.c:186-202 | BL33 and its policy |
| FitParse.Builder.AddBl31 | src/chainload/fit.c:203-222 | a BL31 segment, its policy and its entry point |
| FitParse.Builder.NoOverlaps | src/chainload/fit.c:231-238 | true exactly when no two load ranges share an address |
| FitParse.Builder.Conclude | src/chainload/fit.c:284-335 | the checks on the whole plan |
| FitParse.Builder.ParseFit | src/chainload/fit.c:240-337 | chain_fit_parse equals `Parse`, reasons included; what `Parse` accepts is `FitManifest.AcceptsExactly` |
| FitPlan.PlaceSound | src/chainload/fit.c:145-227 | an image more keeps indices, counters, roles and policy consistent |
| FitPlan.ReadGenuine | src/chainload/fit.c:101-144 | the recorded data are the node's own inline data and passed the hash check |
| FitPlan.ListItemClean | external/libfdt/fdt_ro.c:805-848 | the items of a string list are C strings |
| FitPlan.ParseSafe | src/chainload/fit.c:240-337 | an accepted plan has one BL33, one control DTB, `bl31Count + 2` images with NUL-free names, one BL31 entry point, verified data, and disjoint ranges clear of staging and parameters |
| FitManifest.AcceptsExactly | src/chainload/fit.c:240-337 | `Parse` accepts a plan if and only if the FIT asks for it: its images are in order the firmware, every string of loadables and the control DTB of the default configuration, each with the inline data, addresses, entry point, type and OS that its node gives, and roles, counts, entry point and ranges are complete and apart |
| FitManifest.AddressIs | src/chainload/fit.c:25-44 | address_prop gives the big-endian value of the property's own 4 or 8 bytes, and refuses every other length |
| FitManifest.StrungItem | external/libfdt/fdt_ro.c:805-848 | item `i` of strings laid one behind the other is string `i` |
| FitManifest.CountedStrung | external/libfdt/fdt_ro.c:750-774 | every property that counts is such a sequence of as many strings |
| FitLoad.SetPropGiven | external/libfdt/fdt_rw.c:281-295 | on any structure block fdt_setprop leaves a blob that may be edited further |
| FitLoad.AddSubnodeGiven | external/libfdt/fdt_rw.c:340-382 | so does fdt_add_subnode |
| FitLoad.RecordAt | src/chainload/fit.c:339-362 | record_image in memory equals `RecordImage` and stays inside the control DTB's window; what is read back is `FitReadback.ReadsBack` |
| FitLoad.CopyImages | src/chainload/fit.c:368-372 | while memory is overwritten the staged FIT is not: every image so far stands in its range and nothing else changed |
| FitLoad.OpenControl | src/chainload/fit.c:373-377 | the control DTB is opened out of the FIT into its window |
| FitLoad.LoadFit | src/chainload/fit.c:364-387 | wherever it stops, the images are in place and no write has left the load ranges and the control DTB's window |
| FitLoad.ChainLoad | src/chainload/fit.c:240-387 | end to end: accepted and loaded means every BL31 and BL33 range holds its hashed inline data and the control DTB is ready; staging arena and parameters are never written |
| FitRecord.EnsureFocus | src/chainload/fit.c:339-348 | the child is found or added; with other items in it the tree is the whole with that child set, and nothing else differs |
| FitRecord.RecordRefines | src/chainload/fit.c:339-362 | on a tree, record_image sets exactly the image's node below /fit-images |
| FitRecord.RecordAllRefines | src/chainload/fit.c:378-384 | the loop over the images does so for each that is to be recorded |
| FitRecord.RecordedLookup | src/chainload/fit.c:349-361 | right after it was recorded, the image's node on the tree has the property values that were set; on bytes and at the end of loading see `FitReadback.ReadsBack` |
| FitRecord.ProbeFails | src/chainload/fit.c:339-387 | a control DTB that the probe refuses, misaligned ones included, takes no image |
| FitRecord.ControlHoldsTree | src/chainload/fit.c:364-387 | end to end, from what ChainLoad leaves behind: the loaded control DTB holds the inline tree with the metadata of all recorded images and no other change |
| FitReadback.FieldReads | external/libfdt/fdt_ro.c:397-468 | on an encoded tree fdt_getprop gives the value that the node has for the name, and nothing when it has none |
| FitReadback.ReadsBack | src/chainload/fit.c:339-387 | in the control DTB that ChainLoad leaves behind, looking an image up below /fit-images reads cells with its load address, size and entry point modulo 2^32 and its type and OS as C strings, exactly when it keeps its node; otherwise those of a later image |
| FitReadback.AddressReadsBack | src/chainload/fit.c:351-353 | in a plan below 4 GiB the address read is the load address itself if and only if the image keeps its node |
| FitReadback.KeepsUnlessSimilar | src/chainload/fit.c:339-348 | it keeps it if no later recorded name is the same up to the unit address |
| FitReadback.Displaced | src/chainload/fit.c:339-348 | recorded after "atf", "atf@1" stands in front and is what "atf" finds |
| MemoryMap.AddBoundary | src/rk356x/memory_map.c:32-47 | in place, sorted insertion without duplicates; fails exactly when full and the value is new |
| MemoryMap.Boundaries | src/rk356x/memory_map.c:74-91 | every end of a bank and of a range is a boundary, and 32 always suffice |
| MemoryMap.Map.Add | src/rk356x/memory_map.c:14-30 | a touching item of the same flags is lengthened, else one is appended unless the map is full |
| MemoryMap.Map.Classify | src/rk356x/memory_map.c:93-107 | MMIO first, else in a bank the first matching range, else unused |
| MemoryMap.ElementaryIs | src/rk356x/memory_map.c:49-58 | every address between two neighbouring boundaries wants the flags that the interval gets |
| MemoryMap.ExactAdd | src/rk356x/memory_map.c:14-30 | adding the next interval keeps the map exact, sorted and maximal |
| MemoryMap.Map.Build | src/rk356x/memory_map.c:60-109 | for up to ten banks and any payload end the map is exact at every address, sorted, disjoint, maximal, and never cut short |
| MemoryMap.Map.LargestLowFree | src/rk356x/memory_map.c:111-125 | the first of the longest free items below 4 GiB |
| MemoryMap.LargestIs | src/rk356x/memory_map.c:111-125 | no run of free addresses below 4 GiB is longer than what it finds |
| MemoryMap.LowFreeIsFree | src/rk356x/memory_map.c:111-125 | every address of what it finds is free |
| Pmugrf.DecodeRegisters | src/rk356x/pmugrf_dram.c:26-126 | the loop over the channels computes `Decode` |
| Pmugrf.SecondRank | src/rk356x/pmugrf_dram.c:96-112 | the second rank is its own power of two |
| Pmugrf.ChannelExact | src/rk356x/pmugrf_dram.c:63-116 | a channel is refused exactly when implausible; else no sum overflows and the division by four is exact |
| Pmugrf.DecodeExact | src/rk356x/pmugrf_dram.c:26-126 | for all registers the result is the sum of the ranks between 1 and 32 GiB, or 0 |
| PmugrfLayout.Recovers | src/rk356x/pmugrf_dram.c:26-84 | from registers in which the fields of both channels were laid side by side the decoder gets back version, kind, number of channels and both channels, whatever the unused bits are |
| PmugrfLayout.CapacityRecovered | src/rk356x/pmugrf_dram.c:26-126 | written and decoded, every memory has the capacity of its ranks, within the same limits |
| Dram.ParseAtags | src/rk356x/dram.c:31-89 | the tag loop computes `ParseFrom`; which tables it accepts, and with which banks, are `Atags.ParsesWritten` and `Atags.AcceptedWritten` |
| Dram.ParseSane | src/rk356x/dram.c:31-89 | accepted banks are ordered, disjoint, aligned, do not wrap, and add up to the total |
| Atags.ParsesWritten | src/rk356x/dram.c:31-89 | behind any other well-formed tags, the tag of any one to ten ordered, page-aligned banks whose ends and sum fit 64 bits, with its hash, which is not zero, parses to exactly those banks and their sum |
| Atags.AcceptedWritten | src/rk356x/dram.c:31-89 | conversely, whatever is accepted is such a table: whole other tags, then the tag of exactly the banks returned |
| Dram.MatchGeometry | src/rk356x/dram.c:122-132 | the agreement test |
| Dram.Tight | src/rk356x/dram.c:105-132 | ordered banks that take all of an interval leave no gap in it |
| Dram.Tiles | src/rk356x/dram.c:105-132 | accepted banks of matching total cover exactly the memory of that capacity, nothing in the MMIO window |
| Dram.FirstAtZero | src/rk356x/dram.c:122-126 | the first bank starts at zero anyway: its test is redundant |
| Dram.SynthesizedIs | src/rk356x/dram.c:91-103 | the synthesized banks are the capacity without the window |
| Dram.SelectLayout | src/rk356x/dram.c:134-174 | the choice between ATAGS, geometry and fallback |
| Dram.SelectConserves | src/rk356x/dram.c:134-174 | every selected layout is ordered and disjoint and adds up to its total, less what the window hides unless from ATAGS |
| PageTables.SetupTables | src/rk356x/io.c:17-44 | the tables hold the intended descriptor in every word |
| PageTables.BlockMib | src/mmu.c:19-22 | a 2 MiB descriptor is read back as that block and attribute |
| PageTables.BlockGib | src/mmu.c:15-18 | a 1 GiB descriptor likewise |
| PageTables.TableIs | src/mmu.c:23-26 | a table descriptor is read back as that table |
| PageTables.IdentityMap | src/rk356x/io.c:17-44 | every 32-bit address translates to itself with attribute 0 in the MMIO window, 2 in the DMA and framebuffer windows, 3 elsewhere |
| PageTables.FreeIsCached | src/rk356x/memory_map.c:93-107 | every address that the memory map calls free is mapped write-back: the windows with other attributes are all reserved |
| UsbKeyboard.FindBootKeyboard | src/ohci.c:200-229 | the loop computes `SearchFrom` without reading outside the configuration |
| UsbKeyboard.SearchIs | src/ohci.c:200-229 | it returns the first interrupt-in endpoint that belongs to a boot keyboard interface, if in range, else nothing (USB 2.0, sections 9.6.5 and 9.6.6) |
| UsbKeyboard.FoundAcceptable | src/ohci.c:217-224 | what it returns has an interval and a packet of 8 to 64 bytes |
| Ohci.PollAdvances | src/ohci.c:277-474 | whatever the hardware answers a poll keeps the stage, advances it by one, or scans again; transfers fit the buffer; the address is the controller's own |
| Ohci.ConfiguredByChain | src/ohci.c:277-474 | over every run, configured is reached only through the whole chain since the last scan |
| Ohci.NeverSticks | src/ohci.c:178-188 | past the deadline the next poll leaves every waiting stage |
| Ohci.AttemptEnds | src/ohci.c:277-437 | every attempt ends after at most eleven polls past their deadlines |
| Ohci.DeadlineSoon | src/ohci.c:149-176 | every deadline is at most 100 ms away when set |
| Ohci.OncePerPeriod | src/ohci.c:251-273 | the endpoint is polled exactly once in every period |
| Ohci.Controller.StartPeriodic | src/ohci.c:251-273 | the period is the power of two that reaches the interval, 32 at most, and the table follows it |
| Ohci.Controller.ReadConfig | src/ohci.c:389-410 | the configuration is accepted as `Completed` says |
| Ohci.Controller.OnCompletion | src/ohci.c:334-433 | the method takes the step `Completed` after a finished transfer; what is asked of the device is `UsbDevice.RunRequests` |
| UsbDevice.PollInStep | src/ohci.c:277-437 | one poll against a device that answers only at its own address keeps host and device in step, and a prompt one moves on by one stage (USB 2.0, section 9.4) |
| UsbDevice.KeyboardComesUp | src/ohci.c:277-437 | over every lawful run, twelve prompt polls against a conforming boot keyboard end configured: its address is the one the host uses, its configuration is byte 5 of what it answered, boot protocol and idle are set on the keyboard's interface (HID 1.11, section 7.2) |
| UsbDevice.RunRequests | src/ohci.c:277-437 | over every run with any device each stage asks exactly one thing of the address that SET_ADDRESS gave; packet size, length, configuration and keyboard come from the answers |
| Ohci.Controller.EnumerateStep | src/ohci.c:277-437 | one enumeration step equals `Enumerate` |
| Ohci.Controller.PollOnce | src/ohci.c:439-474 | one poll equals `Poll` and keeps the controller's invariant |
| Upload.XorTwice | tools/main.h:69-79 | exclusive or with the same byte twice restores the first |
| Upload.XorBit | tools/main.h:69-79 | a bit of the result is set exactly when it is set in one of the two operands |
| Upload.Encoder.constructor | tools/main.h:81-96 | the key schedule |
| Upload.Encoder.EncodeChunk | tools/main.h:69-79 | the buffer is encoded in place and the state advances by its length |
| Upload.EncodeSplit | tools/main.h:69-79 | encoding in chunks equals encoding at once |
| Upload.EncodeTwice | tools/main.h:69-102 | encoding again from the same state restores the data |
| Upload.TablePermutes | tools/main.h:69-96 | the table stays a permutation of the byte values |
| Upload.CrcSum | tools/main.h:55-61 | the checksum loop |
| Upload.CrcSplit | tools/main.h:55-61 | the checksum goes on over chunks |
| Upload.CrcOfTrailer | tools/rock.c:46-49 | the checksum over a stream and its trailer is zero |
| Upload.SendBlob | tools/rock.c:30-64 | for a file of any length the transfers are the payload and its checksum, all but the last of 4096 bytes, the last of 2 to 4097 |
| Upload.PayloadDecodes | tools/rock.c:30-64 | a receiver with a fresh state gets the file back |

## Left out

- Versions of the tree format below 17, assume masks other than 0, and misaligned access: the latter only as the error that the probe returns.
- Aliases, phandles, overlays, searches by value or compatible string, fdt_appendprop, fdt_set_name, and edits of the reservation map: more cases of the same splices.
- FdtPaths.GetPath: stated for the offset of a node of an encoded tree whose names have no '/'; the error for an offset that is no node is not modelled.
- FdtLookup.FindPath: absolute paths only; a path that starts with an alias is not modelled.
- FdtEdit.SetProperty: a length within 16 of the largest C int is excluded, because rounding it up overflows in C; so are blobs of a version above 17, which the routine first relabels.
- FdtCheck.RunCheckFull: versions from 17 on, and a total size other than exactly INT_MAX, which the header check lets pass and the probe refuses.
- FdtCheck.CheckFullIs: the same two limits.
- FdtSplice.RwProbeIs: version 17 blobs whose blocks lie inside them; the relabelling of later versions to 17 is left out here and in the routines that start with this probe.
- FdtAddNode.AddNode: blobs of a version above 17, which the probe relabels, are excluded.
- FdtDelete.DeleteProperty: likewise.
- FdtDelete.DeleteNode: likewise.
- FdtDelete.NopProperty: the structure block is a whole number of tags, as for FdtDelete.NopOutNode.
- FdtDelete.NopOutNode: the structure block is a whole number of tags, as that of every encoded tree is; otherwise the last word may reach behind it.
- FdtPack.Pack: stated for blobs whose reservation map ends before the structure block; for others the moves may run over each other.
- FdtWrite.AddProperty: requires that strings and name fit the buffer together; beyond that the C code writes outside it.
- FdtEmit.EmitIs: begin and end calls are balanced because a tree is emitted; the writer does not check it.
- FitParse.Builder.ParseFit: FITs of versions from 17 on.
- FitManifest.AcceptsExactly: the same versions, as for the other statements on FITs.
- FitReadback.ReadsBack: for an inline control DTB that holds a finished tree, as `FitRecord.InnerTree` says.
- FitLoad.OpenControl: the control DTB is one whose blocks lie inside the inline data.
- FitLoad.LoadFit: the same, on a board whose BL31 ranges do not meet U-Boot's window.
- FitLoad.ChainLoad: carries the two premises above, on the board's ranges and on the inner control DTB; FITs of 2 GiB and of versions below 17 are excluded.
- The handoff itself, cache maintenance, timers and reboot paths of the loader.
- Ohci.Controller.StartPeriodic: the endpoint and transfer descriptors it fills are reduced to the schedule table.
- Ohci.Controller.PollOnce: the controller's registers, the descriptors in memory and the DMA arena are reduced to what a poll reads and which transfer is queued; the clock does not wrap.
- UsbDevice.KeyboardComesUp: controllers numbered below 127, so that the address is one a device can take; the source has two.
- Upload.SendBlob: every transfer succeeds; file and USB errors end the C routine early.
- Dram.SelectLayout: the caching of the layout in a static variable.
- The polynomial behind the checksum table, the strength of RC4 and SHA-256, and a second account of the RC4 key schedule.
- Sha256.Constants: that the listed numbers are the first 64 primes is not proved.
