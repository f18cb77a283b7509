# Real-time backup module: decoder, function relocation, monitored paths and log replay

The repository is a Linux kernel module that records changes below monitored directories. It hooks
file-system functions by overwriting their first bytes, keeps a relocated copy of each so that it can still
call the original, decides by a search tree over path prefixes whether an operation is of interest, and
writes numbered log records that a user-space program replays elsewhere. This project models those parts in
Dafny and proves what they are for.

## What is proved

**Decoder** (`Bytes`, `Inat`, `InatTables`, `TableFacts`, `InsnSpec`, `InsnTheory`, `InsnForms`,
`InsnDecoder`).
`InsnSpec.Parse` reads an instruction in one pass, by size rules. The class `InsnDecoder.Insn` is the lazy,
memoised decoder: a cursor, one field record per part, attributes rewritten in place for groups.
Every getter brings the object to `StateAt(code, x64, stage)`, the state of one complete decode cut off at a
stage, and returns it unchanged when that stage was reached before. `AnyOrder` follows: the order of calls
and repeats are unobservable. Decoding depends on exactly the bytes of the instruction (`DecodeLocal`), no
instruction begins another one (`SelfDelimiting`), and after the legacy prefixes there are 1 to 12 bytes
(`LengthBound`). Module `InsnForms` says what `Parse` finds in the terms of the manual: sizes by prefix,
addressing form and immediate kind. What the tables must guarantee for this is proved from the concrete tables in `TableFacts`.

**Relocation and hooking** (`Relocation`, `CopyLoop`, `Hijack`, `HookTable`). Memory is an `array<Byte>`.
The copy of an instruction, made by overwriting four of its bytes at most, decodes to the same layout, leads
to the same address if its target was outside the function (if and only if that is within reach of 32 bits),
moves with the function if it was inside, and is equal byte for byte elsewhere (`Relocated`; in plain addresses
`CopiedByAddress`). For which
instructions this is so, and no byte behind the copy is written, is known exactly (`ClassifiedExact`). The copy loop
does this for every instruction; the boundaries of the copy are exactly the images of the boundaries of the
original. Hooking a whole table with any failures and undoing it leaves the kernel text as it was.

**Monitored paths** (`PathOrder`, `MonitorIndex`, `DentryPath`, `MonitoredPath`). The search compares by
`strncmp` cut to the length of the node's key, which is no order. On prefix-free trees it is nevertheless
exact; on every tree what it returns covers the path; and the answers are independent of the tree's shape if
and only if no key begins another one (`ShapesAgreeExactly`). The class `Index` runs search, insertion and removal on linked nodes.
Together with the climb over parent links: a dentry's path is found in the index if and only if a monitored
directory is a proper ancestor of the dentry, and it is that directory which is found.

**Log and replay** (`FileTree`, `IoLog`, `LogImage`, `Restore`, `Replay`, `Pipeline`, `Progress`, `Snapshots`, `Commute`,
`Reorder`, `Inversion`, `Races`, `Sets`, `Hooks`). Hooks, writer and restorer are a step system. In every
interleaving each drawn number is in exactly one place, records are written in queueing order, and the
restorer has applied a gapless range; every number takes five steps, and the pipeline is drained exactly when
all have been taken (`EveryRunDrains`). With several monitored sets, which share the queue and the writer,
every run is a run of this system for each set (`RunRefines`).
`mkdir_p` and `dir_parent` work on path text as the source does. A record does to the target what its
operation did to the monitored part of the live tree, except for a short write that is not `Faithful`.

A hook draws its number before it runs the operation, so that operations can run in another order than that
of their numbers, by which the records are restored.

- In number order, the restored tree is at every moment the monitored part of the live tree as it was after
  one of its operations, and of the live tree itself once the pipeline is drained (`RestoredIsSnapshot`).
- In any order, target and live tree agree once the pipeline is drained, if operations that succeeded and ran
  out of number order have unrelated paths (`DrainedAgrees`): their records commute on every tree.
- For two operations with consecutive numbers that ran in the reverse order, `RaceExact` says exactly when
  they still agree: one of them failed, or the paths are unrelated, or the first to run wrote a file that the
  other removed or wrote elsewhere, or it made a directory above the other's path. In all other cases they do
  not. For example, a directory removed after its last file stays on the target (`RemovedDirectoryStays`).

## Hypotheses

- Relocation is stated for 64-bit mode. In 32-bit mode a 0x66 prefix makes the immediate of E8 and E9 two
  bytes, but `hijacks.c` stores four (`RelativeBranchFields32`).
- Targets of conditional jumps, short jumps and loops must stay inside the function: `hijacks.c:28-63`
  changes E8, E9 and RIP-relative fields only, and the theorems speak of those only.
- `Classified`: `hijacks.c:28` tests the first opcode byte without asking for a VEX prefix. A VEX
  instruction with opcode byte E8 or E9 has no immediate, so that, where it ends the function, the store goes
  to the four bytes behind the copy (`StoreExact`), and a RIP-relative operand is never mended (`MisreadExact`).
  `ClassifiedExact` shows that the condition excludes nothing else; `MisreadVexInstruction` is an instance.
- An instruction in the text is shorter than 256 bytes, or the decoder rejects it: `length` and `nbytes` are
  8 bits wide. `Tiling` and `OffsetsExact` say what holds with the wrap-around.
- The text of a hooked function is whole instructions within the size that the symbol table gives
  (`Walkable`); texts are disjoint from one another and from the buffers. `CopyText` does not need the former:
  it copies to the first boundary past the last non-zero byte, even if that is past the size and the buffer.
- The names of dentries hold no slash, are not empty, and differ between siblings; monitored keys end in a
  slash and no monitored directory is inside another one. `AntichainPrefixFree` shows that the last
  condition says that no key begins another one, and `ShapesAgreeExactly` that this is what the search needs.
- Logged paths have at most 259 characters. The path field has 260 (fruk.h:119), filled without a NUL by a
  path of that length, and the time stamp follows it (the structure is packed, fruk.h:48). `PathSurvives`
  says exactly which paths are read back, and `PathFillsField` what a path of 260 characters becomes.
- Each monitored set has a directory of its own: the number that names a log file is drawn from the set
  (monitorset.c:805-807), so that sets sharing a directory would write over each other's files.
- Writes to files opened with flags 1, that is O_WRONLY alone, are not logged (hookvfs.c:644), whatever the
  file. `Truthful` demands that such a write to a monitored file changes nothing; `UnloggedWrite` shows that
  nothing less will do.

## Model

| member | source | states |
|---|---|---|
| Bytes.Le32RoundTrip | hijacks.c:40-63 | a 32-bit store is read back as the value stored |
| Bytes.Sext32 | hijacks.c:7-16 | cutting a 64-bit distance to 32 bits and sign-extending it gives it back if and only if it fits |
| InatAttr.UnpackPack | arch/x86/include/asm/inat.h:65-96 | no two fields of an attribute word share a bit: the word made from a record has its fields |
| InatAttr.UnpackMerge | arch/x86/lib/inat.c:75-76 | OR of two words is OR of their fields and flags |
| InatAttr.UnpackGroupCommon | arch/x86/include/asm/inat.h:110-219 | the group-common part of a word is the word without its group number |
| InatAttr.UnpackInjective | arch/x86/include/asm/inat.h:65-96 | words with equal fields have equal bits wherever inat.h names one |
| InatWords.EscapeAttrWord | arch/x86/lib/inat.c:32-53 | the lookup on packed table words gives the word of the record lookup, for any word and last prefix |
| InatWords.GroupAttrWord | arch/x86/lib/inat.c:55-77 | the same for group attributes, with the mask and OR of the source |
| Inat.AvxMaps | arch/x86/lib/inat.c:79-89 | VEX.m selects the maps of 0F, 0F 38 and 0F 3A, and VEX.p the variants of the last prefixes; every other value gives no attribute |
| TableFacts.PrimaryWide | arch/x86/lib/inat-tables.h:5-202 | immediate kinds, ModRM and groups that can occur together in the one-byte map |
| TableFacts.EscapeAttrNarrow | arch/x86/lib/inat.c:32-53 | the same for the escape maps under any last prefix: no moffset, no second immediate, only byte and rel32 immediates |
| TableFacts.AvxAttrNarrow | arch/x86/lib/inat.c:79-89 | the same for every VEX m and p |
| TableFacts.EscapeDepth | arch/x86/lib/insn.c:200-206 | only 0F escapes, then only 38 and 3A, and nothing a third time: opcode.bytes is not overrun |
| TableFacts.PrefixBytes | arch/x86/lib/inat-tables.h:5-202 | exactly which bytes are legacy, REX and VEX prefixes |
| TableFacts.RelativeBranches | arch/x86/lib/inat-tables.h:191-192 | E8 and E9: rel32, forced 64-bit, no ModRM |
| TableFacts.VexBranchBytes | arch/x86/lib/inat.c:79-89 | behind a VEX prefix E8 and E9 have no immediate, for every m and p |
| TableFacts.GroupMerge | arch/x86/lib/inat.c:55-77 | the OR of group and opcode attributes never mixes two immediate kinds |
| InsnTheory.PrefixScan | arch/x86/lib/insn.c:71-111 | the scan takes the longest run of legacy prefixes with at most four distinct values; the four slots hold exactly those, slot 3 the last one |
| InsnTheory.RunLocal | arch/x86/lib/insn.c:71-99 | the run depends only on its bytes and the one after it |
| InsnTheory.DecodeLocal | arch/x86/lib/insn.c:61-516 | decoding depends on exactly the bytes of the instruction, peeked bytes included |
| InsnTheory.SelfDelimiting | arch/x86/lib/insn.c:61-516 | no instruction is a proper prefix of another one |
| InsnTheory.LengthBound | arch/x86/lib/insn.c:61-516 | 1 to 12 bytes after the legacy prefixes |
| InsnTheory.FinalAttr | arch/x86/lib/insn.c:221-244 | the attributes the immediate is read by, after group rewriting, are of one of the two shapes the tables allow |
| InsnTheory.OpcodePath | arch/x86/lib/insn.c:199-209 | the escape loop ends after at most two escapes with the attributes of the one-pass reading |
| InsnForms.PrefixRun | arch/x86/lib/insn.c:71-99 | at most four different values, all prefixes by the table; the byte behind is none or would be a fifth |
| InsnForms.SizesByPrefix | arch/x86/lib/insn.c:83-158 | operand and address size in both modes, by 66, 67, REX.W and VEX.W |
| InsnForms.VexRules | arch/x86/include/asm/insn.h:138-152 | VEX.m and VEX.p bit by bit; with VEX only opcodes that accept it, without it none that demands it |
| InsnForms.AddressForms | arch/x86/lib/insn.c:276-354 | SIB byte and displacement size by mod, r/m and SIB base, as equivalences, for 16-bit and for wider addresses |
| InsnForms.RipRelativeExact | arch/x86/lib/insn.c:254-267 | RIP-relative if and only if mod 00 and r/m 101, if and only if mod 00, no SIB and four bytes of displacement |
| InsnForms.ImmediateForms | arch/x86/lib/insn.c:357-499 | the immediate bytes in all, by kind: the address size, the operand size, at most four, or an offset and a selector |
| InsnForms.ImmediateKinds | arch/x86/lib/inat-tables.h:5-202 | which one-byte opcodes have a full, an offset, a far, a word and a second immediate |
| InsnForms.SignedValue | arch/x86/lib/insn.c:304-392 | a field has the signed value of its little-endian bytes |
| InsnForms.FieldValues | arch/x86/include/asm/insn.h:155-182 | where displacement and immediate are read, and that all parts make up the length |
| InsnDecoder.Insn.constructor | arch/x86/lib/insn.c:40-51 | insn_init is the state before the first stage |
| InsnDecoder.Insn.ScanLegacyPrefixes | arch/x86/lib/insn.c:71-99 | the loop stops at the end of the run; sizes toggle once however often 66 and 67 occur |
| InsnDecoder.Insn.SetLastPrefix | arch/x86/lib/insn.c:101-111 | the swap leaves the slots of the one-pass reading |
| InsnDecoder.Insn.DecodeRex | arch/x86/lib/insn.c:113-126 | REX in 64-bit mode only, and its W bit |
| InsnDecoder.Insn.DecodeVex | arch/x86/lib/insn.c:128-158 | VEX against LES and LDS in 32-bit mode, and its W bit |
| InsnDecoder.Insn.GetPrefixes | arch/x86/lib/insn.c:61-162 | reaches the prefix stage; repeats change nothing |
| InsnDecoder.Insn.IsAvx | arch/x86/include/asm/insn.h:131-136 | decodes on demand and answers whether there is a VEX prefix |
| InsnDecoder.Insn.LookupEscapes | arch/x86/lib/insn.c:199-209 | the escape loop reads the opcode bytes and attributes of the one-pass reading |
| InsnDecoder.Insn.GetOpcode | arch/x86/lib/insn.c:174-211 | reaches the opcode stage |
| InsnDecoder.Insn.GetModrm | arch/x86/lib/insn.c:221-244 | reaches the ModRM stage, with group attributes and forced operand size |
| InsnDecoder.Insn.RipRelative | arch/x86/lib/insn.c:254-267 | mod 00 and r/m 101 in 64-bit mode |
| InsnDecoder.Insn.GetSib | arch/x86/lib/insn.c:276-293 | reaches the SIB stage |
| InsnDecoder.Insn.GetDisplacement | arch/x86/lib/insn.c:304-354 | reaches the displacement stage, with the sign-extended value |
| InsnDecoder.Insn.GetMoffset | arch/x86/lib/insn.c:357-376 | reads the address-sized offset in one or two fields |
| InsnDecoder.Insn.GetImmv32 | arch/x86/lib/insn.c:379-392 | reads 2 or 4 bytes |
| InsnDecoder.Insn.GetImmv | arch/x86/lib/insn.c:395-414 | reads 2, 4 or 4 and 4 bytes |
| InsnDecoder.Insn.GetImmptr | arch/x86/lib/insn.c:417-435 | reads the far pointer; nothing for 8-byte operands |
| InsnDecoder.Insn.GetImmediate | arch/x86/lib/insn.c:446-499 | reaches the immediate stage for every immediate kind |
| InsnDecoder.Insn.GetLength | arch/x86/lib/insn.c:508-516 | reaches the last stage |
| InsnDecoder.Insn.Tiling | arch/x86/include/asm/insn.h:155-182 | length is the sum of all nine field sizes modulo 256 |
| InsnDecoder.Insn.OffsetsExact | arch/x86/include/asm/insn.h:155-182 | every one of the seven insn_offset sums is where the field was read if and only if the prefix count did not wrap |
| InsnDecoder.Insn.AllFields | arch/x86/include/asm/insn.h:26-69 | the size and the value of every field, from the stage on that its getter reaches |
| InsnDecoder.AnyOrder | arch/x86/lib/insn.c:61-516 | any calls in any order, with repeats, then insn_get_length: the state of one full decode |
| Relocation.PatchedTarget | hijacks.c:7-16 | the two offset macros are inverse if and only if the distance fits in signed 32 bits |
| Relocation.RelativeBranchFields | hijacks.c:28-44 | E8 and E9 have exactly a 4-byte immediate at their end, under any prefixes |
| Relocation.RelativeBranchFields32 | arch/x86/lib/insn.c:379-392 | in 32-bit mode only without 0x66 |
| Relocation.RipRelativeFields | arch/x86/lib/insn.c:254-354 | a RIP-relative operand has no SIB and exactly 4 displacement bytes inside the instruction, under any 0x67 |
| Relocation.PatchedRead | hijacks.c:40-63 | overwriting a 32-bit field changes nothing in the decode but that field's value |
| Relocation.CopyRelocates | hijacks.c:18-66 | the copy of one classified instruction means the same |
| Relocation.FixupByAddress | hijacks.c:28-63 | by address: a target below f.addr or from f.addr + f.size on is the same address in the copy if and only if it is in reach, one in between moves by the distance of the copy |
| Relocation.EndsByAddress | hijacks.c:36-57 | the first and the last byte of the function move, the bytes before and behind it do not |
| Relocation.MisreadFields | hijacks.c:28-44 | a VEX instruction taken for a branch ends where its immediate would begin |
| Relocation.StoreExact | hijacks.c:40-63 | the store goes inside the instruction, or, for exactly the misread instructions at the end of the function, to the four bytes behind it |
| Relocation.MisreadExact | hijacks.c:28-44 | the copy of a misread instruction means the same if and only if it has no RIP-relative operand or that operand is inside the function |
| Relocation.ClassifiedExact | hijacks.c:18-66 | an instruction is classified if and only if its fix-up writes nothing behind the copy and the copy means the same |
| Relocation.MisreadVexInstruction | hijacks.c:28-44 | VPSUBSB with a RIP-relative operand is copied wrongly |
| CopyLoop.CopiedBoundaries | hijacks.c:212-231 | boundaries of the original and of the copy correspond both ways, and each instruction is relocated |
| CopyLoop.CopiedByAddress | hijacks.c:212-231 | the same of every instruction of the copied function |
| CopyLoop.ExtentFound | hijacks.c:212-231 | the loop arrives if the decoder accepts every instruction before the end |
| CopyLoop.ExtentAccepted | hijacks.c:212-225 | and only then |
| CopyLoop.ExtentLeast | hijacks.c:199-233 | the extent is the least boundary at or past the last non-zero byte |
| Relocation.MovedTarget | hijacks.c:35-63 | an unchanged field leads as much farther as the instruction has moved |
| CopyLoop.WalkableText | hijacks.c:212-231 | which texts the copy loop can handle, by their instruction boundaries |
| CopyLoop.CopiedLocal | hijacks.c:161-256 | the copy stays what it is while original and copy are not written |
| Hijack.Store32 | hijacks.c:40-63 | a little-endian store of four bytes and no others |
| Hijack.CopyAndFixup | hijacks.c:18-66 | for every instruction: the bytes at dest, the place and value of the store, and nothing else changes |
| Hijack.CopyText | hijacks.c:212-233 | the loop relocates up to the least boundary, even past the size of the symbol, or fails exactly where the decoder rejects an instruction |
| Hijack.TrimZeros | hijacks.c:199-201 | the end is just behind the last non-zero byte |
| Hijack.PatchEntry | hijacks.c:239-248 | five bytes of jump |
| Hijack.EntryDecodes | hijacks.c:239-248 | the patch is one 5-byte JMP under the repository's decoder, and leads to code if and only if code is in reach |
| Hijack.OutcomeExact | hijacks.c:161-256 | each return value for a symbol that was found, if and only if |
| Hijack.SymbolHijack | hijacks.c:161-256 | return value in every case; a failure writes no text; success installs the jump and the relocated copy, zeros behind it, and saves the entry |
| Hijack.HijackedMeans | hijacks.c:161-256 | a successful hijack byte by byte: E9 and the distance, the copy, zeros, the saved entry, and nothing else |
| Hijack.SymbolRestore | hijacks.c:258-282 | puts the saved five bytes back, once |
| HookTable.TextIntact | hookvfs.c:713-724 | the text of a later hook is still original when its turn comes |
| HookTable.HijackSyscalls | hookvfs.c:713-724 | every record is hijacked exactly if its hijack succeeds on the original memory, and its run buffer relocates the never-patched text |
| HookTable.UndoHijackSyscalls | hookvfs.c:727-732 | only buffers differ from the original memory afterwards |
| HookTable.HookThenUndo | hookvfs.c:713-732 | kernel text is byte-identical after hooking and undoing, for any failing subset |
| PathOrder.StrnCmpSign | rb.c:88-96 | the cut comparison is 0 exactly on prefixes and otherwise follows the lexicographic order |
| PathOrder.KeyBelowPrefix | rb.c:88-96 | why a wrong turn is impossible without nested keys |
| MonitorIndex.LookupSound | rb.c:83-102 | on every tree a returned key is a prefix of the path |
| MonitorIndex.LookupComplete | rb.c:83-102 | on sorted prefix-free trees the covering key is found |
| MonitorIndex.LookupExact | rb.c:83-102 | an entry is returned if and only if it is in the tree and covers the path |
| MonitorIndex.ShapeIndependent | rb.c:83-102 | trees with the same keys in order answer alike |
| MonitorIndex.NestedDiffer | rb.c:83-102 | of two nested keys, a tree rooted at either returns that one for the longer key |
| MonitorIndex.ShapesAgreeExactly | rb.c:83-102 | all trees over the same sorted keys answer alike for every path if and only if no key begins another one |
| MonitorIndex.NestedPathsDependOnShape | rb.c:83-102 | two trees over /a/ and /a/b/, of which one misses a path that a key covers |
| MonitorIndex.LinkedSorted | rb.c:118-141 | insertion keeps the lexicographic order on every tree |
| MonitorIndex.InsertionPrefixFree | rb.c:118-141 | rejection if and only if a key covers the new path; prefix-free afterwards if and only if the new path covers no key |
| MonitorIndex.RemovalExact | rb.c:104-115 | exactly the entry that the search returns leaves the tree |
| MonitorIndex.RemovalComplete | rb.c:104-115 | on a prefix-free tree no key covers the path afterwards, and the others stay |
| MonitorIndex.RebalancedEntries | rb.c:138 | rotations keep the order of the entries |
| MonitorIndex.Index.Search | rb.c:83-102 | the loop over linked nodes |
| MonitorIndex.Index.Insert | rb.c:118-141 | links the new node where the descent ends, in the tree of linked nodes |
| MonitorIndex.Index.Remove | rb.c:104-115 | unlinks the node in the tree of linked nodes |
| PathNames.RenderInjective | getpath.c:189-199 | different name lists have different texts |
| PathNames.KeyPrefix | rb.c:88-96 | with a trailing slash, text prefixes are exactly proper ancestors |
| DentryPath.GetAbsParentPath | getpath.c:157-202 | level count and repeated climbs append the parent's path, or "/" below the root |
| DentryPath.GetAbsFullPath | getpath.c:218-233 | appends the names from the root to the dentry; "//" for the root itself |
| DentryPath.PathInjective | getpath.c:218-233 | different dentries have different paths, and none has the root's "//" |
| DentryPath.AncestorNames | getpath.c:157-233 | ancestors are exactly the dentries whose names begin the dentry's names |
| MonitoredPath.AntichainPrefixFree | rb.c:118-141 | directory keys are prefix-free if and only if no directory is inside another one |
| MonitoredPath.MonitoredAncestor | rb.c:83-102 | the lookup of a dentry's path returns an entry if and only if it is that of a proper ancestor |
| MonitoredPath.NoMonitoredAncestor | getpath.c:157-233 | and nothing if and only if no ancestor is monitored |
| MonitoredPath.MonitoredEntry | hookvfs.c:215-222 | path construction and search on the linked tree, together |
| FileTree.SplicedAt | test/RestoreIolog.c:210-217 | a write at an offset, byte by byte, zeros in a gap |
| FileTree.TryTree | test/RestoreIolog.c:135-226 | an operation changes its own path only, and everything stays in a directory |
| FileTree.CallEffects | test/RestoreIolog.c:135-226 | what each call leaves at its path, and that it does nothing where it does not apply |
| FileTree.MkdirAllOnlyAdds | test/RestoreIolog.c:95-132 | mkdir_p adds ancestors only and changes nothing that is there |
| FileTree.MkdirAllComplete | test/RestoreIolog.c:95-132 | with no file in the way it adds exactly the missing ancestors |
| IoLog.PathSurvives | createiolog.c:74-94 | a path is read back from a record if and only if it is shorter than the field or its rest is what the header bytes behind the field spell |
| IoLog.PathFillsField | test/RestoreIolog.c:141-143 | a path of 260 characters is read back if and only if the low byte of the time stamp is zero; else that byte becomes its next character |
| IoLog.LogQueue.CreateIoLog | createiolog.c:68-366 | the whole header and data of the record queued, or nothing without memory |
| LogImage.RecordRoundTrip | createiolog.c:565-629 | ulLogSize is the number of bytes of the record, 1024 and the data for a write and 1028 otherwise; the file read back is the record, with all of its data and both sequence numbers |
| LogImage.PartialFile | test/RestoreIolog.c:260-272 | nothing is restored from a file of which bytes are missing |
| IoLog.LogQueue.LogOperation | hookvfs.c:657-670 | the record of the operation or the error record, at the end of the queue |
| IoLog.LogQueue.Drain | iowritethread.c:55-92 | earlier files stay, a queued record is on the disk if and only if its file can be written, and nothing else is there |
| IoLog.DrainExact | iowritethread.c:55-92 | the same of the records one after another; if all can be written, the disk is that of the whole queue |
| IoLog.WrittenAll | iowritethread.c:55-92 | with different names nothing is overwritten and everything arrives |
| PathText.SplitRender | test/RestoreIolog.c:135-143 | the text of a path behind the target directory resolves to the names it was made of |
| Restore.MkdirCut | test/RestoreIolog.c:118-128 | cutting the buffer at a slash makes the directory named so far, and the buffer is mended |
| Restore.MkdirPath | test/RestoreIolog.c:95-132 | the loop over the path text makes the directories from the top, up to the first failure |
| Restore.CutStep | test/RestoreIolog.c:118-128 | one slash: the next directory, or one that is there already |
| Restore.DirParent | test/RestoreIolog.c:57-89 | the text up to and with the last slash |
| Restore.UpToSlashAppend | test/RestoreIolog.c:57-89 | which is the parent's path with a slash |
| Restore.RestoreRecord | test/RestoreIolog.c:135-226 | the effect of one record on the target tree |
| Restore.RestoreAll | test/RestoreIolog.c:255-285 | replays by number from the first, and stops at the first number that has no file |
| Restore.RestoreLoop | test/RestoreIolog.c:255-285 | with -loop, over a directory that grows between the passes: the same as one pass over the last state |
| Replay.RestoredTransfers | createiolog.c:68-308 | the record of a path that fits restores to its operation below the target directory; an error record does nothing |
| Replay.LiveExact | hookvfs.c:657-670 | when an operation succeeds, and byte by byte what a write leaves |
| Replay.FreshTarget | test/RestoreIolog.c:228-254 | an empty target directory agrees with a live tree in which nothing monitored exists yet |
| Replay.ShortWrite | hookvfs.c:666-668 | logging count bytes for ret bytes written is right if and only if the rest is in the file already |
| Replay.TransferAgrees | test/RestoreIolog.c:135-226 | an operation that the live tree allows does the same to the monitored part of the target |
| Replay.RecordAgrees | hookvfs.c:657-670 | after an operation on a path that fits and its record, target and live tree agree if and only if the record is faithful |
| Replay.HistoryReplays | test/RestoreIolog.c:255-285 | replaying the log of any history on paths that fit reproduces the monitored part of the live tree |
| Pipeline.ExactlyOnce | hookvfs.c:657-670 | a drawn number is in exactly one hook, queue entry, writer or file; no other number is anywhere |
| Pipeline.ConservedStep | iowritethread.c:55-92 | every step keeps that |
| Pipeline.WriteConserves | createiolog.c:40-65 | a file is never written over |
| Pipeline.InQueueOrderStep | createiolog.c:603-611 | written, then in the writer, then queued: the order of queueing |
| Pipeline.ContiguousStep | test/RestoreIolog.c:255-285 | the restorer has applied exactly a gapless range in increasing order, with files that stay as they were |
| Pipeline.EveryRun | iowritethread.c:42-99 | all of this in every interleaving; each file holds the record that carries its number |
| Progress.StepWork | hookvfs.c:657-670 | a draw makes five steps of work, every other step of a number takes one off, whatever the kernel grants |
| Progress.WorkLeft | iowritethread.c:48-92 | drained, no work left, and no step that moves a number: all the same |
| Progress.EveryRunDrains | iowritethread.c:48-92 | a run is drained if and only if numbers have moved five times for each draw; until then some step can move one |
| Sets.StepRefines | hookvfs.c:657-670 | a step of all sets is a step of each, or nothing to it |
| Sets.RunRefines | iowritethread.c:48-92 | every run of all sets over the shared queue and writer is a run of the pipeline of each |
| Sets.EveryRunOfEverySet | iowritethread.c:42-99 | conservation, queueing order and gapless replay for each set, in every interleaving of all |
| Sets.DrainedSetAgrees | hookvfs.c:187-685 | each set that is drained agrees with the live tree, if its inversions have unrelated paths |
| Snapshots.NextToRun | hookvfs.c:657-670 | the oldest waiting hook holds the number that follows those of all operations run |
| Snapshots.ReplayedLog | test/RestoreIolog.c:255-285 | the restorer has replayed a beginning of the log in running order |
| Snapshots.RestoredIsSnapshot | hookvfs.c:187-685 | in runs in number order the restored tree is always a past state of the monitored tree, and the present one when drained |
| Snapshots.UnloggedWrite | hookvfs.c:644-645 | an unlogged write to a monitored file keeps target and live tree in agreement if and only if it changes nothing |
| Commute.TransferredAt | test/RestoreIolog.c:135-226 | what restoring one record does to any target, path by path, files in the way included |
| Commute.UnrelatedCommute | test/RestoreIolog.c:135-226 | records with unrelated paths may be restored in either order on every target |
| Reorder.SortedReplay | test/RestoreIolog.c:255-285 | restoring by number equals restoring in running order, if all inversions are independent |
| Reorder.DrainedAgrees | hookvfs.c:187-685 | in every run, once drained, target and live tree agree if operations that succeeded out of number order have unrelated paths |
| Inversion.Successes | hookvfs.c:187-685 | what two operations that both succeed can be to each other |
| Inversion.WritesCommute | test/RestoreIolog.c:210-217 | two writes to a file commute if and only if they agree where they overlap |
| Inversion.InvertedPair | hookvfs.c:657-670 | for two operations run in the reverse order of their numbers: agreement if and only if one failed or the pair is harmless |
| Races.RaceExact | hookvfs.c:187-685 | the same as a run of the pipeline, from every drained state in which target and live tree agree |
| Races.RemovedDirectoryStays | hookvfs.c:245-300 | a directory removed after its last file, but numbered before, stays on the target |
| Hooks.LookupMonitored | rb.c:83-102 | the search finds something exactly for the paths that a key begins |
| Hooks.SetsExclusive | hookvfs.c:215-222 | if no key begins another one, no path is monitored for two sets |
| Hooks.ReplData.DrawNumbers | hookvfs.c:223-229 | the numbers of the entry and of its set, each stepped by one |
| Hooks.ReplData.Intercept | hookvfs.c:187-685 | one undisturbed hook: lookup, draw, operation, record or error record for the set; nothing is logged without buffers; a write that cannot be logged stops the logging |
| Hooks.LogsExact | hookvfs.c:187-685 | an operation is logged for an entry if and only if logging is on and valid, the entry covers the path, and it is neither the creation of an existing file nor a write with flags 1 |
| Hooks.ContextNumbers | hookvfs.c:223-235 | the record carries the number of the entry and that of its set, which also names its file |
| Hooks.PassIsOneStep | hookvfs.c:187-685 | a hook that does not log changes the live tree alone |
| Hooks.LogsIsNeedsLog | hookvfs.c:215-222 | the tree search decides as the monitored keys do |
| Hooks.HookIsThreeSteps | hookvfs.c:657-670 | such a hook is a draw, a run and an enqueue of the step system |

Where code and comments differ, the code is followed: the comment of `dir_parent` speaks of a path without a
trailing slash, and the model does what the code does with any path.

## Left out

- GetMoffset, GetImmptr and the immediate getters: the overlapping unions of immediate and moffset fields, and of a field's bytes and value, are one field; a write through one name is seen under the other.
- CreateIoLog: only the first allocation can fail; the source does not look whether the later ones do.
- Drain: records queued during the drain are left to the step system.
- StrnCmp: characters are compared as unsigned numbers; the strncmp of very old kernels cuts their difference to a signed char.
- Index: colours and parent pointers of the kernel's red-black tree; rebalancing is any sequence of rotations, and rb_erase puts the successor in the place of a node with two children.
- Intercept: sets that cannot be found; the module then logs under number 0 in an unnamed directory.
- SymbolHijack: only text that is whole classified instructions within the symbol's size; what the copy does otherwise is said by CopyAndFixup and CopyText. Page permissions, alignment and symbol lookup; the answers of find_symbol_address and of the allocator are parameters, and memory is one array that starts at address 0.
- HijackSyscalls: the same texts only.
- Insn: reading beyond the mapped text; a call needs the whole instruction in memory.
- RestoreRecord: rename, link and symbolic-link records (below), paths longer than the 1024-byte buffers of the restorer, "." and "..", permissions, symbolic links, and the working directory of a relative target path.
- RestoreAll: a file that is there but incomplete; main then leaves the inner loop with the number already stepped, and with -loop skips the next record.
- RestoredIsSnapshot: the kernel's directory locks, which make many inversions impossible.
- EveryRun: allocations and file writes that fail (the number is lost, and the restorer waits for it for good), unloading of the module while records are queued, and log files that appear before they are complete.
- GetAbsFullPath: PATH_MAX, and mount points below the root of the dentry's file system, whose path the source omits.
- The tree over monitored sets (ms_search, ms_insert, rb.c:25-69): the same descents with memcmp, which is an order, so nothing is hard about it.
- Rename, hard-link and symbolic-link records: createiolog.c and the restorer disagree about which path is in Data, so there is no round trip.
- Appending writes, truncation on open and sys_write: they are not logged, or not with the offset at which they write.
- Netlink messages, configuration files, the user-space library, System.map scanning, old kernel versions.
- What instructions do when executed: meaning here is decoded structure and absolute targets.
