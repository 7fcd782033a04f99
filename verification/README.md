# Riscbox core, verified in Dafny

Riscbox is a RISC-V virtual machine for the browser. This project models the parts of it
whose state is hard to get right and proves, for all inputs and all runs, what each part
is for.

| area | files |
|---|---|
| byte-range locks, 9P namespace, sessions, directory paging | ByteLocks, Namespace, NamespaceInvariant, NamespaceEffects, NamespaceAcceptance, NamespaceWalks, FileWrites, Filesystem, Sessions, SessionEffects, SessionRequests, SessionErrors, SessionWalks, SessionLocks, SessionWorld, SessionTraces, SessionObject, DirectoryPaging, DirectoryReading |
| HTTP copy-on-write disk and its VirtIO queue | ChunkCache, ChunkProgress, HttpDisk, DiskAnswers, Descriptors, VirtQueue, BlockRequests, BlockQueue, BlockProgress |
| address translation, TLBs, modes, dirty pages | Mmu, Sv39, Tlb, Privilege, Cpu, DirtyPages |
| soft floating point | FloatRounding, SoftFloat, FloatCorrectness, FloatOperations, WordArithmetic, FloatWords |
| guest clock and quantum loop | GuestClock |
| shared by all | Wrappers, Arithmetic |

Each area has a value model (a datatype and one function per operation), lemmas about it,
and, where the program changes state in place or loops, classes and methods proved against
the value model. `dafny verify dfyconfig.toml` checks everything.

What the main results say:

- One invariant of the inode arena (entries and reverse links agree, link counts, single
  parents, no cycles, stable cookies, exact sums, valid locks) survives every operation,
  every 9P request and every interleaving of sessions, host calls and resets; reference
  counts equal the fids of synced sessions; identities are never reused.
- A 9P message that fails leaves a trace if and only if it is a Tlcreate with O_TRUNC, past
  the gate, on a non-empty file whose reference count is already 2^32 - 1 and whose loss the
  quota allows: the file is emptied and the create fails. A sound world of 65536 sessions
  shows that it can happen; at most 65535 sessions rule it out.
- Each namespace operation and each mutating request succeeds if and only if a condition on
  names, entries, kinds and limits holds, and then changes exactly the entries, bodies, fids
  and holds it must; rename is one of them, with its errors.
- A byte-range hold changes only by its owner's Tlock on that byte or by the end of its
  session, its inode or its namespace, over every run.
- The lock list is a per-byte owner map; `paths_of` inverts lookup; `clear` always succeeds.
- A directory read in pages while the tree changes lists every surviving entry exactly once,
  under its own name and inode: cookies are never reused.
- The HTTP disk is a flat disk; a multi-chunk read finishes in as many deliveries as it has
  chunks; over both VirtIO rings the driver reads back the chains it posted, once each and in
  order, and each read sees exactly the writes before it. A read fails only over a chunk of
  its own whose fetch failed while somebody waited for it, and then only once.
- Translation gives a page if and only if the page-table words map it, and a fault otherwise;
  returns undo traps; an access, hit or miss, lands where the tables map it.
- A TLB hit below machine mode equals the full walk; a snapshot names exactly the
  tracked pages written since the last one.
- Addition, multiplication, division and square root are correctly rounded in all five
  modes, for every mantissa and exponent width with room for the rounding bits, flags included.
- The guest clock is monotone for arbitrary host clocks; deadlines are met at the least cycle;
  the last activation of a quantum decides its outcome.

Modelling choices that apply throughout: integers are unbounded except where the code
checks or saturates them, and those checks are written out; names are nonempty strings and
paths sequences of names; request ids and the LRU clock of the disk have not wrapped; host
input (clock values, rates, HTTP answers, CPU behaviour) is a parameter.

Where code and comment or standard disagree the code is followed. It applies SUM to
instruction fetches too, which section 4.3.1 of the RISC-V Privileged ISA exempts; the
permission table of `Sv39` does as the code. Inside `sqrtrem_u` a comment says
2^l >= a for the exponent l the Newton start is made from; with both words nonzero that is
false, and `WordArithmetic.StartTooLow` gives a radicand. Neither the documented range of
`sqrtrem_u` (a < 2^(F_SIZE - 2), so the high word is zero) nor its one caller, which passes
a zero low word, reaches such a radicand: `WordArithmetic.SqrtRemU` states exactly when the
root is found and that it always is in those two cases.

## Model

| member | source | states |
|---|---|---|
| `ByteLocks.OverlapIsSharedByte` | src/ninep.rs:519-536 | two ranges overlap, as the code tests it, exactly when some byte below 2^64 lies in both |
| `ByteLocks.CoversExactly` | src/ninep.rs:581-589 | a lock covers the offsets from its start for its length, and all of them up to 2^64 when the length is zero |
| `ByteLocks.FindConflict` | src/ninep.rs:551-566 | a conflict is reported exactly when a lock of another owner on the inode overlaps and one of the two is a write lock; it is the first such lock |
| `ByteLocks.BlockedExactlyWhenHeldAgainst` | src/ninep.rs:551-575 | a lock is refused exactly when some byte of its range is held incompatibly by another owner |
| `ByteLocks.SubtractOwnedRange` | src/ninep.rs:591-620 | the loop that trims and splits the owner's locks computes the subtraction |
| `ByteLocks.SubtractClearsExactlyTheRange` | src/ninep.rs:591-648 | per byte: the owner's hold is gone inside the range and unchanged outside it; other owners keep theirs |
| `ByteLocks.AcquireWritesExactlyTheRange` | src/ninep.rs:568-625 | per byte: a granted lock overwrites exactly its range for its owner |
| `ByteLocks.AcquireKeepsValid` | src/ninep.rs:568-625 | after every granted lock, one owner's ranges are disjoint and no byte is shared when either holder writes |
| `ByteLocks.UnlockKeepsValid` | src/ninep.rs:627-648 | unlocking keeps disjointness and exclusion |
| `ByteLocks.ReleaseSessionKeepsValid` | src/ninep.rs:649-652 | dropping a session keeps disjointness and exclusion |
| `ByteLocks.ReleaseSessionClearsExactlyItsHolds` | src/ninep.rs:649-652 | per byte: a closed session holds nothing, every other hold is unchanged |
| `ByteLocks.DropInodeKeepsValid` | src/ninep.rs:395-412 | reclaiming an inode keeps the other locks valid |
| `ByteLocks.SharedBytesAreOnlyRead` | src/ninep.rs:551-575 | in a valid list two owners share a byte only when both read |
| `NamespaceInvariant.NewFsIsInv` | src/ninep.rs:264-309 | a new tree satisfies the whole invariant |
| `NamespaceInvariant.InsertKeepsInv` | src/ninep.rs:804-870 | creating a file, directory or symlink keeps the invariant: links and entries agree, counts, parents, cookies and sums stay exact |
| `NamespaceInvariant.LinkAtKeepsInv` | src/ninep.rs:1040-1099 | a hard link keeps the invariant |
| `NamespaceInvariant.RemoveAtKeepsInv` | src/ninep.rs:964-1025 | a removal keeps the invariant, whether the inode is reclaimed or stays for its fids |
| `NamespaceInvariant.RenameAtKeepsInv` | src/ninep.rs:1114-1252 | a rename, replacing or not, keeps the invariant; no directory cycle can arise |
| `NamespaceInvariant.WriteFileKeepsInv` | src/ninep.rs:907-950 | a whole-file write keeps the invariant and the byte sum |
| `NamespaceInvariant.WriteInodeKeepsInv` | src/ninep.rs:1573-1605 | a ranged write keeps the invariant and the byte sum |
| `NamespaceInvariant.TruncateKeepsInv` | src/ninep.rs:1606-1670 | a size change keeps the invariant and the byte sum |
| `NamespaceInvariant.RetainFidKeepsInv` | src/ninep.rs:382-393 | taking a reference keeps the invariant |
| `NamespaceInvariant.ReleaseFidKeepsInv` | src/ninep.rs:395-412 | dropping a reference keeps the invariant; the last one of an unlinked inode reclaims it with its bytes and locks |
| `NamespaceInvariant.ResetKeepsInv` | src/ninep.rs:1302-1339 | a reset tree satisfies the invariant |
| `NamespaceInvariant.TryLockKeepsInv` | src/ninep.rs:568-575 | lock requests keep the invariant |
| `NamespaceInvariant.UnlockKeepsInv` | src/ninep.rs:627-648 | unlocking keeps the invariant |
| `NamespaceInvariant.ReleaseSessionLocksKeepsInv` | src/ninep.rs:649-652 | releasing a session's locks keeps the invariant |
| `Namespace.ChainUnique` | src/ninep.rs:1114-1150 | following parents from a directory to the root is deterministic |
| `Namespace.ChainHasNoRepeats` | src/ninep.rs:1114-1150 | no directory occurs twice on its way to the root: the tree has no cycle |
| `Namespace.RenameIsReady` | src/ninep.rs:1150-1252 | once the checks of a rename pass, displacing the target and moving the entry cannot fail |
| `NamespaceEffects.InsertAddsOneEntry` | src/ninep.rs:804-870 | a fresh inode appears under exactly one new entry; every other entry and every file body is unchanged |
| `NamespaceEffects.LinkAtAddsOneEntry` | src/ninep.rs:1040-1099 | exactly one new entry names the existing inode |
| `NamespaceEffects.RemoveAtTakesOneEntry` | src/ninep.rs:964-1025 | exactly the named entry goes; bytes stay while another name or a fid holds the file |
| `NamespaceEffects.RenameAtMovesOneEntry` | src/ninep.rs:1114-1252 | the new name denotes the moved inode, the old name nothing, every third entry what it did |
| `NamespaceEffects.RenameToSameInode` | src/ninep.rs:1150-1200 | an accepted rename changes nothing exactly when both names already denote one inode |
| `NamespaceEffects.RenameTakesTheSubtree` | src/ninep.rs:1114-1252 | every path below a moved directory still leads to the same inode |
| `NamespaceEffects.WriteChangesOneFile` | src/ninep.rs:1573-1605 | byte for byte: data at its place, old bytes elsewhere, zeros in a gap; no other file changes |
| `NamespaceEffects.ResizeChangesOneFile` | src/ninep.rs:1606-1670 | byte for byte: common prefix kept, zeros appended; no other file changes |
| `NamespaceAcceptance.RenameExactly` | src/ninep.rs:1114-1252 | a rename succeeds if and only if both names are legal, both parents are linked directories, the source exists, a moving directory is not on the new parent's way to the root, the target is absent, the same inode, a non-directory under a non-directory or an empty directory under a directory, and a cookie is left when a move changes the parent; every other case has its error |
| `NamespaceAcceptance.RenameDoes` | src/ninep.rs:1114-1252 | every entry after an accepted rename, also when both names denote one inode |
| `NamespaceAcceptance.RenameKeepsFiles` | src/ninep.rs:1176-1252 | no file loses bytes by a rename but a replaced one without another name or a fid |
| `NamespaceAcceptance.CreateExactly` | src/ninep.rs:1375-1407 | creation succeeds if and only if the name is legal and free in a linked directory and inodes, entries, identities and cookies are left; else the first fault is reported |
| `NamespaceAcceptance.LinkExactly` | src/ninep.rs:1040-1099 | a link succeeds if and only if the name is legal and free in a linked directory, the inode exists and is no directory, and counter, quota and cookie allow it; else the first fault is reported |
| `NamespaceAcceptance.RemoveExactly` | src/ninep.rs:964-1025 | a removal succeeds if and only if the entry exists under a legal name in a linked directory and is not a directory with entries; else the first fault is reported |
| `NamespaceAcceptance.ResizeExactly` | src/ninep.rs:1528-1543 | a size change succeeds if and only if the inode is a file and both limits hold afterwards; else the first fault is reported |
| `NamespaceAcceptance.WriteExactly` | src/ninep.rs:1545-1605 | a ranged write succeeds if and only if the inode is a file and what it grows to fits; an empty write changes nothing |
| `FileWrites.WriteFileExactly` | src/ninep.rs:907-950 | write_file succeeds if and only if its path is legal and leads to a directory, the name is free and may be created or names a file, and both byte limits hold; else the first fault is reported |
| `FileWrites.WriteFileDoes` | src/ninep.rs:907-950 | afterwards the path resolves to the returned inode, its body is what was written, and every other entry and body is unchanged |
| `FileWrites.HostResizeExactly` | src/ninep.rs:1606-1670 | an attribute update by path succeeds if and only if the path resolves and a new size fits the file there; it then resizes that file, byte for byte, and nothing else |
| `FileWrites.ReadExactly` | src/ninep.rs:1498-1522 | a read returns exactly the bytes from the offset on, up to the count and the end of the file, and fails only without a file |
| `FileWrites.WriteThenRead` | src/ninep.rs:1498-1605 | what a ranged write stored is read back from where it went, append included, and no other file reads differently |
| `FileWrites.WriteFileThenRead` | src/ninep.rs:907-1522 | a whole file stored by path is read back by the inode its path resolves to |
| `NamespaceWalks.StepPartition` | src/ninep.rs:433-459 | one step of the backwards walk keeps: found paths plus paths through pending climbs are exactly the paths that resolve to the target, each once |
| `NamespaceWalks.FinishedPaths` | src/ninep.rs:433-459 | when the stack is empty the found paths are exactly those that resolve to the target |
| `NamespaceWalks.RootHasOnePath` | src/ninep.rs:433-459 | only the empty path resolves to the root |
| `NamespaceWalks.ResolvedPathIsValid` | src/ninep.rs:678-690 | every path that resolves is made of legal names |
| `NamespaceWalks.ClimbShrinks` | src/ninep.rs:433-459 | each step lowers the total depth of the stack, so the walk ends |
| `NamespaceWalks.JoinedIsInjective` | src/ninep.rs:433-459 | distinct paths have distinct texts, so sorting and deduplicating texts loses no path |
| `NamespaceWalks.AllVisited` | src/ninep.rs:1271-1296 | the preorder gathered by clear reaches every linked directory |
| `NamespaceWalks.NextRemoval` | src/ninep.rs:1271-1296 | in reverse preorder the next entry removed names a file or an empty directory |
| `NamespaceWalks.RemovalHolds` | src/ninep.rs:1271-1296 | each removal leaves exactly the entries still to be removed |
| `NamespaceWalks.NothingHeldIsCleared` | src/ninep.rs:1271-1296 | with no entry left, the root and the fid-held inodes remain and the byte sum is that of the held files |
| `FilesystemObject.Filesystem.AllocateSession` | src/ninep.rs:337-342 | in place: session numbers are handed out once, until they are exhausted |
| `FilesystemObject.Filesystem.FindPath` | src/ninep.rs:678-690 | the component loop computes forward resolution with its errors |
| `FilesystemObject.Filesystem.PathsOf` | src/ninep.rs:433-459 | returns, sorted and without duplicates, exactly the paths whose lookup yields the inode; the loop terminates |
| `FilesystemObject.Filesystem.EntryPath` | src/ninep.rs:1342-1373 | finds a path of the directory and appends the name, or reports the entry error |
| `FilesystemObject.Filesystem.RetainFid` | src/ninep.rs:382-393 | in place: one reference more, or an error and no change |
| `FilesystemObject.Filesystem.ReleaseFid` | src/ninep.rs:395-412 | in place: one reference less and reclaim at zero, or an error and no change |
| `FilesystemObject.Filesystem.TryLock` | src/ninep.rs:568-575 | in place: granted exactly when nothing conflicts, else the list is untouched |
| `FilesystemObject.Filesystem.Unlock` | src/ninep.rs:627-648 | in place: subtracts the owner's range |
| `FilesystemObject.Filesystem.ReleaseSessionLocks` | src/ninep.rs:649-652 | in place: drops the session's locks |
| `FilesystemObject.Filesystem.Insert` | src/ninep.rs:804-870 | in place: all checks first, then exactly the new inode, entry, link row and counters |
| `FilesystemObject.Filesystem.CreateAt` | src/ninep.rs:1375-1407 | in place: name, parent and limit errors in the code's order, else the insert |
| `FilesystemObject.Filesystem.RemoveAt` | src/ninep.rs:964-1025 | in place: exactly the removal of the value model, or an error and no change |
| `FilesystemObject.Filesystem.LinkAt` | src/ninep.rs:1040-1099 | in place: exactly the link of the value model, or an error and no change |
| `FilesystemObject.Filesystem.IsAncestor` | src/ninep.rs:1141-1149 | the parent loop decides whether an inode is on the way from a directory to the root |
| `FilesystemObject.Filesystem.RenameAt` | src/ninep.rs:1114-1252 | in place: every failure leaves the object untouched, success is the rename that RenameExactly admits and RenameDoes describes |
| `FilesystemObject.Filesystem.WriteFile` | src/ninep.rs:907-950 | in place: replaces or creates a file by path within the quotas, or changes nothing |
| `FilesystemObject.Filesystem.WriteInode` | src/ninep.rs:1573-1605 | in place: patched body and byte sum, or an error and no change |
| `FilesystemObject.Filesystem.SetSize` | src/ninep.rs:1606-1670 | in place: resized body and byte sum, or an error and no change |
| `FilesystemObject.Filesystem.Reset` | src/ninep.rs:1302-1339 | in place: a fresh root with the next identity and generation, or an error and no change |
| `FilesystemObject.Filesystem.Clear` | src/ninep.rs:1271-1296 | never fails on a well-formed tree: keeps root identity and generation, leaves the root and fid-held inodes, byte sum exact |
| `Sessions.InstallFidKeepsInv` | src/ninep_protocol.rs:378-384 | binding a fid keeps the namespace invariant |
| `Sessions.ReleaseFidsKeepsInv` | src/ninep_protocol.rs:242-249 | releasing a session keeps the namespace invariant |
| `SessionWorld.ExecuteIsSound` | src/ninep_protocol.rs:386-467 | every request with room for its minimum reply either succeeds or leaves namespace and fids unchanged, and keeps reference counts exact |
| `SessionWorld.ExecuteKeepsInv` | src/ninep_protocol.rs:386-467 | every request keeps the namespace invariant |
| `SessionTraces.TraceExactlyWhenSaturated` | src/ninep_protocol.rs:286-347 | for every session of a sound world and every message: it is not answered with success and still leaves a trace if and only if it passes the gate with room for its reply and truncates, by create, a non-empty file whose reference counter is full and whose loss the quota allows |
| `SessionTraces.FewSessionsLeaveNoTrace` | src/ninep_protocol.rs:286-376 | with at most 65535 sessions every message that fails leaves namespace, locks and fids as they were |
| `SessionTraces.AFailedCreateEmptiesAFile` | src/ninep_protocol.rs:588-643 | the input exists: a sound world of 65536 sessions with 65536 fids each in which a create fails and empties its file |
| `SessionTraces.CrowdIsSound` | src/ninep_protocol.rs:366-384 | any number of sessions with up to 65536 fids each, all but one on one file, is a sound world |
| `SessionWorld.FewSessionsNeverSaturate` | src/ninep_protocol.rs:366-376 | with at most 65535 sessions no reference count saturates, so the exception cannot arise |
| `SessionWorld.ResetNeverFails` | src/ninep_protocol.rs:254-265 | in every sound world a session reset succeeds |
| `SessionWorld.EveryRunKeepsTheWorld` | src/ninep_protocol.rs:233-347 | over every interleaving of sessions, host operations (attribute updates included) and namespace resets, from any sound world, the tree invariant holds, each reference count is the number of synced fids on the inode, and no synced fid dangles |
| `SessionWorld.IdentitiesAreNeverReused` | src/ninep.rs:1302-1339 | an inode identity that is gone never comes back, through any run, resets included |
| `SessionWorld.StartIsSound` | src/ninep_protocol.rs:189-199 | a new namespace without sessions is a sound world |
| `SessionEffects.WalkIsLookup` | src/ninep_protocol.rs:498-549 | a walk by ordinary names passes exactly the inodes of forward resolution |
| `SessionEffects.WalkBindsTheLookup` | src/ninep_protocol.rs:498-549 | a complete walk binds the fid to what its names resolve to, a partial one binds nothing; other fids stay |
| `SessionEffects.AttachThenWalkIsLookup` | src/ninep_protocol.rs:396-549 | attaching and then walking all the names binds exactly what looking up the names finds |
| `SessionEffects.InstallThenClunkRestores` | src/ninep_protocol.rs:378-467 | clunking a fid just bound gives back the namespace, reference counts included, and the fid table |
| `SessionEffects.AttachThenClunkRestores` | src/ninep_protocol.rs:396-467 | attach and clunk cancel out |
| `SessionEffects.WalkThenClunkRestores` | src/ninep_protocol.rs:459-549 | a walk to a new fid and its clunk cancel out, wherever the walk went |
| `SessionEffects.CreateBindsTheEntry` | src/ninep_protocol.rs:588-643 | a successful create binds the fid to the inode its name now denotes |
| `SessionRequests.TwriteExactly` | src/ninep_protocol.rs:438-453 | Twrite succeeds if and only if its fid is open for writing on a file that can grow as far as needed |
| `SessionRequests.TwriteDoes` | src/ninep_protocol.rs:692-701 | byte for byte: the data at the offset, or at the end for a fid opened to append, old bytes elsewhere, zeros in a gap; no entry and no other body changes |
| `SessionRequests.TsetattrExactly` | src/ninep_protocol.rs:454-458 | Tsetattr succeeds if and only if fid and attributes are legal and a new size fits; it changes the size of the fid's file, byte for byte, and nothing else |
| `SessionRequests.TlopenExactly` | src/ninep_protocol.rs:551-586 | Tlopen succeeds if and only if the fid is not open, the flags are legal and suit the kind of its inode |
| `SessionRequests.TlopenDoes` | src/ninep_protocol.rs:551-586 | the fid becomes open with its flags; the file is emptied exactly when they truncate; nothing else changes |
| `SessionRequests.TmkdirExactly` | src/ninep_protocol.rs:764-775 | Tmkdir succeeds if and only if the entry may be created in the fid's directory, and adds exactly one empty directory under a fresh inode |
| `SessionRequests.TsymlinkExactly` | src/ninep_protocol.rs:752-763 | Tsymlink likewise, for a target without NUL of at most 65535 bytes, and the new inode holds that target |
| `SessionRequests.TlinkExactly` | src/ninep_protocol.rs:776-791 | Tlink succeeds if and only if the second fid's inode may be linked into the first fid's directory, and is then that link |
| `SessionRequests.LinkDoes` | src/ninep.rs:1040-1099 | a link adds its one entry and touches no body |
| `SessionRequests.TrenameExactly` | src/ninep_protocol.rs:792-802 | Trenameat succeeds if and only if both fids are directories and the rename between them is admitted, and is then that rename |
| `SessionRequests.TunlinkExactly` | src/ninep_protocol.rs:803-821 | Tunlinkat succeeds if and only if the flags are known and the entry is an empty directory with the flag, or no directory without it |
| `SessionRequests.RemoveDoes` | src/ninep.rs:964-1025 | a removal takes its one entry; a file with another name or a fid keeps its bytes |
| `SessionRequests.TlockExactly` | src/ninep_protocol.rs:922-970 | Tlock answers if and only if its fid is open on a file with the access the lock is for; it reports blocked exactly when another owner holds some byte incompatibly, and then changes nothing |
| `SessionRequests.TlockDoes` | src/ninep_protocol.rs:950-970 | per byte: a granted lock is held by its owner for this session over exactly its range, an unlock frees it, every other hold stays |
| `SessionRequests.TlcreateExactly` | src/ninep_protocol.rs:588-643 | Tlcreate succeeds if and only if the name may be created or opened so; the fid then names that inode, open with the flags, new or emptied as asked, and nothing else differs |
| `SessionRequests.TversionExactly` | src/ninep_protocol.rs:469-496 | Tversion succeeds if and only if it is untagged with a size of at least 256; it drops every fid and agrees on size and dialect |
| `SessionRequests.SubmitExactly` | src/ninep_protocol.rs:286-347 | a message is answered with success if and only if session, tag, dialect and room admit it and its request succeeds; a message not admitted changes nothing |
| `FileWrites.TreadExactly` | src/ninep_protocol.rs:420-437 | Tread answers if and only if its fid is open for reading on a file, with that slice of its bytes, as long as count, reply and file allow |
| `FileWrites.TwriteThenTread` | src/ninep_protocol.rs:420-453 | what a fid open for both wrote is what it reads back there, append included |
| `SessionErrors.NumbersAreTold` | src/ninep_protocol.rs:201-213 | the Linux error number of each namespace error |
| `SessionErrors.TmkdirRefused` | src/ninep_protocol.rs:764-775 | the number a refused Tmkdir reports: its first fault among fid, name, place, existing entry and quota |
| `SessionErrors.TsymlinkRefused` | src/ninep_protocol.rs:752-763 | likewise for Tsymlink, a bad target before the name |
| `SessionErrors.TlinkRefused` | src/ninep_protocol.rs:776-791 | likewise for Tlink: unknown and stale fids, a directory as target, place, counter, existing entry, quota |
| `SessionErrors.TrenameRefused` | src/ninep_protocol.rs:792-802 | likewise for Trenameat: either fid, then the first fault of the rename |
| `SessionErrors.TunlinkRefused` | src/ninep_protocol.rs:803-821 | likewise for Tunlinkat: flags, fid, name, missing entry, wrong kind for the flag, directory not empty |
| `SessionErrors.TwriteRefused` | src/ninep_protocol.rs:438-453 | likewise for Twrite: fid not open for writing, no file, too large, no space |
| `SessionErrors.TsetattrRefused` | src/ninep_protocol.rs:454-458 | likewise for Tsetattr: fid, attributes, missing inode, size |
| `SessionErrors.TlopenRefused` | src/ninep_protocol.rs:551-586 | likewise for Tlopen: fid, already open, flags, stale, directory, symlink, wrong kind |
| `SessionErrors.TlockRefused` | src/ninep_protocol.rs:922-970 | likewise for Tlock: flags, fid, stale, no file, kind, access |
| `SessionErrors.RepliesFit` | src/ninep_protocol.rs:318-347 | every reply fits and takes exactly the minimum asked for beforehand, walks and versions at least that |
| `SessionWalks.StepExactly` | src/ninep_protocol.rs:516-524 | one step of a walk goes to itself for ".", to the directory whose entry it is for ".." (the root to itself), else to the inode of the entry; it fails exactly when there is none |
| `SessionWalks.WalkExactly` | src/ninep_protocol.rs:513-533 | a walk takes the names as long as they lead on, and stops at the first that leads nowhere |
| `SessionWalks.OneRoute` | src/ninep_protocol.rs:513-533 | names lead along one route only |
| `SessionWalks.TattachExactly` | src/ninep_protocol.rs:396-412 | Tattach succeeds if and only if the fid is free, no authentication is asked for and the root can count it; the fid then names the root |
| `SessionWalks.TwalkExactly` | src/ninep_protocol.rs:498-549 | Twalk answers if and only if fid, new number and first name allow; it binds the fid only when every name leads on, to the inode the route ends at, and changes no entry or body |
| `SessionWalks.TclunkExactly` | src/ninep_protocol.rs:459-463 | Tclunk succeeds exactly for a known fid; entries stay, and all bytes but those of an unnamed inode only this fid held |
| `SessionWalks.FidsAreCounted` | src/ninep_protocol.rs:242-384 | in every world a run reaches, each synced fid is counted by an inode that is there, and all of them can be released |
| `SessionLocks.RequestKeepsLocks` | src/ninep_protocol.rs:386-467 | no request but Tlock and Tversion touches a lock of an inode that stays |
| `SessionLocks.ReleaseFidsDoes` | src/ninep_protocol.rs:242-249 | the end of a session takes exactly the holds it took, and leaves every named inode with its contents |
| `SessionLocks.ResetStartsAfresh` | src/ninep_protocol.rs:254-265 | a reset leaves no fid, the full message size and no dialect, in the current generation |
| `SessionLocks.HoldsOutlive` | src/ninep.rs:568-652 | over every run of sessions and host: a hold on a byte changes only by a Tlock of its owner that covers it, by Tversion, reset or close of the session that took it, by a namespace reset, or with its inode; and none appears otherwise |
| `SessionObject.NinePSession.SyncGeneration` | src/ninep_protocol.rs:233-240 | in place: a changed generation empties the table without releasing |
| `SessionObject.NinePSession.InstallFid` | src/ninep_protocol.rs:378-384 | in place: retain, insert, then release what was replaced |
| `SessionObject.NinePSession.ReleaseFids` | src/ninep_protocol.rs:242-249 | in place: the ascending loop over the taken table, then the session's locks |
| `SessionObject.NinePSession.WalkNames` | src/ninep_protocol.rs:513-533 | the name loop computes the passed inodes and where it stopped |
| `SessionObject.NinePSession.Walk` | src/ninep_protocol.rs:498-549 | in place: errors, partial and complete walks as the value model |
| `SessionObject.NinePSession.Clunk` | src/ninep_protocol.rs:459-467 | in place: releases and drops the fid, or changes nothing |
| `SessionObject.NinePSession.Reset` | src/ninep_protocol.rs:254-265 | in place: release into the current generation, or forget the fids of a replaced one |
| `DirectoryPaging.DirectoryEntries` | src/ninep.rs:1468-1484 | the collected and sorted list holds each entry once, in cookie order |
| `DirectoryPaging.ReadDirectory` | src/ninep_protocol.rs:882-920 | the reply loop computes the page: entries past the offset until one does not fit |
| `DirectoryPaging.PageIsFull` | src/ninep_protocol.rs:894-916 | a reply fits its maximum and ends only at the end of the listing or before an entry that would not fit |
| `DirectoryPaging.PagesAscend` | src/ninep_protocol.rs:882-920 | cookies strictly increase from page to page, so nothing is listed twice |
| `DirectoryPaging.StayingEntryIsListedOnce` | src/ninep_protocol.rs:882-920 | a cookie present in every listing of a finished reading is on exactly one page |
| `DirectoryPaging.InsertKeepsCookies` | src/ninep.rs:804-870 | creating an entry moves no other cookie |
| `DirectoryPaging.LinkKeepsCookies` | src/ninep.rs:1040-1099 | linking moves no other cookie |
| `DirectoryPaging.RemoveKeepsOtherCookies` | src/ninep.rs:964-1025 | removing an entry moves no other cookie |
| `DirectoryPaging.RenameKeepsCookies` | src/ninep.rs:1185-1233 | a rename inside a directory keeps the cookie; only a moved or replaced entry leaves |
| `DirectoryReading.AfterLaw` | src/ninep.rs:804-1252 | no namespace operation reuses a cookie: every entry of a directory afterwards was there before, with its inode, or has a cookie that was still free |
| `DirectoryReading.ChangeKeepsEntry` | src/ninep.rs:804-1252 | an operation that does not remove, replace or move out an entry, nor resets the tree, leaves it in its directory with inode and cookie |
| `DirectoryReading.SurvivorIsListedOnce` | src/ninep_protocol.rs:882-920 | over every run of namespace operations between the pages: an entry there at the first and the last page is on exactly one page, with its inode and the name it has at that moment |
| `DirectoryReading.UntouchedIsListedOnce` | src/ninep_protocol.rs:882-920 | the same for an entry that no operation of the run removes, replaces or moves out |
| `ChunkCache.ReadReturnsTheDisk` | src/block_storage.rs:428-468 | a successful read returns the latest writes over the base; any read keeps the invariant and changes no contents |
| `ChunkCache.WriteFromSets` | src/block_storage.rs:475-500 | a write changes exactly its own sectors of the flat disk |
| `ChunkCache.WriteKeepsInv` | src/block_storage.rs:475-500 | a write keeps the store invariant |
| `ChunkCache.CompleteKeepsInv` | src/block_storage.rs:404-421 | a completion keeps cached, pending and failed chunks disjoint, one fetch per chunk, the cache within its limit and equal to the base |
| `ChunkCache.FailKeepsInv` | src/block_storage.rs:387-397 | a failed fetch keeps the invariant and the contents |
| `ChunkCache.RequestKeepsFetches` | src/block_storage.rs:532-552 | asking for a chunk joins its fetch or starts the only one |
| `ChunkCache.DiscardRestoresTheBase` | src/block_storage.rs:369-378 | discarding changes restores the base on every sector |
| `DiskAnswers.ReadExactly` | src/block_storage.rs:428-468 | a read in range succeeds if and only if every sector is dirty or cached; it fails exactly when the chunk of its first missing sector failed, and else waits |
| `DiskAnswers.ReadEnds` | src/block_storage.rs:428-468 | a waiting read has a demanded fetch of the chunk of its first missing sector in flight; a read out of range changes nothing |
| `DiskAnswers.RequestExactly` | src/block_storage.rs:532-552 | asking for a chunk succeeds exactly in range, starts or joins its fetch unless it is cached, and makes somebody wait only when demanded |
| `DiskAnswers.PrefetchInRange` | src/block_storage.rs:338-352 | a prefetch list is accepted exactly when every chunk of it is in range |
| `DiskAnswers.PrefetchExactly` | src/block_storage.rs:338-352 | prefetching fetches exactly what is named and not cached, and makes nobody wait |
| `DiskAnswers.GoodAnswerIsCached` | src/block_storage.rs:404-421 | a good answer ends its fetch and caches its bytes; nobody is blamed and no other chunk changes |
| `DiskAnswers.BadAnswerBlamesDemanded` | src/block_storage.rs:387-421 | a failure or an answer of the wrong size ends the fetch and blames the chunk exactly when it was demanded |
| `DiskAnswers.StrayAnswerIsIgnored` | src/block_storage.rs:387-421 | an answer nobody waits for changes nothing |
| `DiskAnswers.SpeculativeFailureIsForgotten` | src/block_storage.rs:387-397 | after a speculative fetch failed, the next read that needs the chunk asks for it again, under a new id and demanded |
| `DiskAnswers.NothingFailsAfresh` | src/block_storage.rs:369-385 | right after a reset, a discard or a reported error no read fails |
| `DiskAnswers.FailedWasDemanded` | src/block_storage.rs:387-421 | over every run: a chunk marked failed was demanded when an earlier answer for it failed |
| `DiskAnswers.AwaitedWasRead` | src/block_storage.rs:428-552 | over every run: a fetch is demanded only since a read stopped at its chunk |
| `DiskAnswers.FailureWasAwaited` | src/block_storage.rs:387-552 | from a disk nobody waits for: a chunk fails only after a read stopped at it and its fetch then failed |
| `ChunkProgress.TrimKeepsNewer` | src/block_storage.rs:554-561 | eviction never reaches the chunks touched by the latest attempt while they fit the limit |
| `ChunkProgress.AttemptWaits` | src/block_storage.rs:428-468 | an attempt that meets a missing chunk has touched every chunk before it, raised the limit to the working set, and has a demanded fetch in flight |
| `ChunkProgress.EventKeepsReached` | src/block_storage.rs:404-421 | no completion or failure, prefetch included, loses a chunk the latest attempt passed |
| `ChunkProgress.ReadFinishesAfterItsChunks` | src/block_storage.rs:428-468 | a read of k chunks retried after every event is over after k deliveries of the chunk it waited for |
| `ChunkProgress.BrokenChunkIsReported` | src/block_storage.rs:387-421 | if the awaited chunk breaks, the next attempt reports the failure |
| `HttpDisk.RunRefinesFlatDisk` | src/block_storage.rs:369-500 | over every run the contents equal a flat disk that only writes and discards change |
| `HttpDisk.ReadsSeeTheFlatDisk` | src/block_storage.rs:428-468 | every successful read of a run returns the flat disk at that moment |
| `HttpDisk.RetiredForever` | src/block_storage.rs:258-271 | an answer under a retired request id is unknown and changes nothing, for the rest of every run |
| `HttpDisk.EndingRetires` | src/block_storage.rs:369-421 | completion, failure and both resets retire a request |
| `HttpDisk.OpenedIsInv` | src/block_storage.rs:306-337 | a store just opened is sound |
| `HttpDisk.PrefetchingKeepsInv` | src/block_storage.rs:306-352 | the prefetch list of a manifest leaves a sound store |
| `HttpDisk.HttpBlockStore.Prefetch` | src/block_storage.rs:338-352 | in place: the manifest loop asks for each chunk and stops at one out of range |
| `HttpDisk.HttpBlockStore.RequestBlock` | src/block_storage.rs:532-552 | in place: out of range, cached, joined or a new fetch |
| `HttpDisk.HttpBlockStore.ReadSectors` | src/block_storage.rs:428-468 | in place: the sector loop computes the value model's attempt |
| `HttpDisk.HttpBlockStore.WriteSectors` | src/block_storage.rs:475-500 | in place: the sector loop writes the overlays of the value model |
| `HttpDisk.HttpBlockStore.TrimCache` | src/block_storage.rs:554-561 | in place: the loop evicts least recently used chunks until the limit holds |
| `HttpDisk.HttpBlockStore.Complete` | src/block_storage.rs:404-421 | in place: unknown, wrong size or admitted, as the value model |
| `HttpDisk.HttpBlockStore.Fail` | src/block_storage.rs:387-397 | in place: unknown or retired, blamed only when demanded |
| `Descriptors.WalkDescriptors` | src/virtio.rs:343-397 | the bounded loop computes the walk with its errors in order |
| `Descriptors.ReadChainExactly` | src/virtio.rs:343-397 | a chain is read if and only if its links end and its descriptors are direct, in guest RAM, readable before writable and below 2^32 bytes per direction; then it is read whole and in order |
| `Descriptors.AcceptedIsInRange` | src/virtio.rs:343-397 | every segment of an accepted chain is the in-range descriptor the links lead to, and the chain ends |
| `Descriptors.AcceptedIsSimple` | src/virtio.rs:343-397 | two places of an accepted chain are the same descriptor only if they are the same place |
| `Descriptors.NeverAFalseLoop` | src/virtio.rs:343-397 | no chain that ends is rejected as a loop |
| `Descriptors.EndingPathIsShort` | src/virtio.rs:343-397 | an ending path is shorter than the table (pigeonhole) |
| `Descriptors.SumsAreLengths` | src/virtio.rs:343-397 | the readable and writable totals are the lengths of the two directions |
| `Descriptors.CopyChain` | src/virtio.rs:399-445 | a copy at any offset is that slice of the concatenated readable bytes; overflow and short chains are errors |
| `Descriptors.GuestMemory.WriteChain` | src/virtio.rs:460-492 | a write at any offset replaces that slice of the concatenated writable bytes when segments are disjoint; errors change nothing |
| `VirtQueue.TakeIsNext` | src/virtio.rs:239-262 | a reader takes the items of a ring in the order they were put, across wrap-around of the 16-bit index |
| `VirtQueue.PutKeepsHolds` | src/virtio.rs:299-323 | a writer with a free slot overwrites nothing still to be taken |
| `BlockRequests.ServeIsRight` | src/virtio_devices.rs:323-377 | serving the next request keeps the disk equal to the requests before it; a read is answered with the disk after them, or fails over a chunk of its own range whose demanded fetch failed |
| `BlockRequests.ReadReplyExactly` | src/virtio_devices.rs:323-352 | a well-formed read is answered with data if and only if every sector is dirty or cached, fails if and only if the chunk of its first missing sector failed, and is held back otherwise |
| `BlockRequests.FailureIsForgotten` | src/virtio_devices.rs:347-352 | a failure is reported once: the same read served again waits for a new fetch |
| `BlockRequests.LengthIsRight` | src/virtio_devices.rs:323-395 | the bytes reported are the sectors and the status byte of a read, 21 for an identity, else the status byte |
| `BlockRequests.Serve` | src/virtio_devices.rs:323-395 | a request is malformed exactly when its header, lengths or range are; otherwise the bytes reported fit the chain, so publication cannot fail |
| `BlockQueue.TurnKeepsStep` | src/virtio_devices.rs:283-301 | one turn of the notify loop takes the chain posted next and publishes it, holds it back or drops it as malformed |
| `BlockQueue.PublishKeepsProtocol` | src/virtio.rs:299-323 | publishing writes the next used slot, of a chain in flight, and overwrites no element the driver has not read |
| `BlockQueue.DrainKeepsInv` | src/virtio_devices.rs:283-301 | the notify loop keeps rings, replies and disk in step; a successful one stops only at an empty ring or a chain held back |
| `BlockQueue.ResumeKeepsInv` | src/virtio_devices.rs:308-321 | resuming publishes the chain held back before anything else and then drains |
| `BlockQueue.PostKeepsInv` | src/virtio.rs:239-262 | posting a free descriptor always finds a free slot and keeps everything in step |
| `BlockQueue.ReapKeepsInv` | src/virtio.rs:299-323 | what the driver reads next from the used ring is the oldest chain it has not read, with its own reply |
| `BlockQueue.EveryRunIsSequential` | src/virtio_devices.rs:283-377 | over every run of driver, device and HTTP answers on both rings: the driver reads from the used ring the heads of the well-formed chains it posted, once each and in order, with their lengths; each read reflects exactly the writes before it, or failed over a chunk of its range whose demanded fetch had failed by then |
| `BlockQueue.HeldBackIsNext` | src/virtio_devices.rs:283-321 | what is published is a prefix of the well-formed chains posted; at most one more is taken, and it is the next |
| `BlockQueue.KickPublishesAll` | src/virtio_devices.rs:283-301 | after a successful notify with nothing held back every well-formed chain posted is in the used ring or read |
| `BlockProgress.HeldWaits` | src/virtio_devices.rs:323-352 | a chain is held back only while it is a read whose first missing sector lies in a chunk that has not failed and is being fetched on demand |
| `BlockProgress.KickGoesOn` | src/virtio_devices.rs:283-301 | a notify with nothing held back serves everything posted, or stops at a chain that waits so; it fails only on a malformed chain |
| `BlockProgress.RetryGoesOn` | src/virtio_devices.rs:308-321 | a resume publishes the chain held back unless it still waits so, and then goes on like a notify; it fails only on a malformed chain |
| `BlockQueue.StartIsSound` | src/virtio_devices.rs:258-282 | a queue just set up over any sound disk, after opening or reset, starts a run |
| `BlockQueue.OpenedStartIsSound` | src/block_storage.rs:306-337 | over a disk just opened the run starts from the base image |
| `BlockQueue.QueueMemory.FetchChain` | src/virtio.rs:239-262 | next_chain on guest memory: empty, bad head or unreadable chain, else the chain |
| `BlockQueue.QueueMemory.CompleteChain` | src/virtio.rs:299-323 | in place: the element in its slot, then the wrapped index |
| `BlockQueue.BlockDevice.ServeRequest` | src/virtio_devices.rs:323-377 | in place: one request against the backend, as Serve, whose read replies ReadReplyExactly decides |
| `BlockQueue.BlockDevice.TakeChain` | src/virtio_devices.rs:292-298 | in place: one turn of the loop |
| `BlockQueue.BlockDevice.NotifyQueue` | src/virtio_devices.rs:283-301 | in place: the loop computes the drain of the value model |
| `BlockQueue.BlockDevice.ResumeQueue` | src/virtio_devices.rs:308-321 | in place: retries the chain held back, then drains |
| `Mmu.WalkStable` | tinyemu-core/riscv_cpu.c:239-331 | accessed/dirty updates of leaves leave a settled walk and the words it reads unchanged |
| `Mmu.UpdateIsGentle` | tinyemu-core/riscv_cpu.c:306-318 | the update a walk writes sets accessed/dirty bits of a leaf and nothing else |
| `Mmu.WalkSettles` | tinyemu-core/riscv_cpu.c:239-331 | once its update is written the same walk finds the same page with nothing due, even through self-referring tables |
| `Mmu.SettledBits` | tinyemu-core/riscv_cpu.c:306-318 | a walk with nothing due ends at a leaf with the accessed bit, and for a write the dirty bit, set |
| `Sv39.FoundExactlyWhenMapped` | tinyemu-core/riscv_cpu.c:239-331 | the walk finds a page with an update if and only if the page-table words map it: at most two pointer words and a leaf at the slots of the 9-bit fields, a legal and aligned leaf, the page being the leaf's plus the offset in its span (NAPOT: in its 16 pages), the permission table on R/W/X/U, SUM, MXR, A/D and ADUE, and exactly the due bits written back |
| `Sv39.FaultExactly` | tinyemu-core/riscv_cpu.c:239-331 | an access fault exactly when a table lies outside RAM or a due update would go to ROM; a page fault in every other unmapped case |
| `Sv39.NeighboursStayNeighbours` | tinyemu-core/riscv_cpu.c:306-331 | two virtual pages of one leaf that differ by d lie d apart in physical memory |
| `Tlb.HitMeans` | tinyemu-core/riscv_cpu_priv.h:216-246 | the fast-path comparison hits exactly aligned accesses to a valid entry's page; an invalid entry never matches |
| `Tlb.HitIsWalk` | tinyemu-core/riscv_cpu_priv.h:216-246 | below machine mode a hit lands where the walk would, with no update due |
| `Tlb.WriteHitIsDirty` | tinyemu-core/riscv_cpu_priv.h:235-246 | a write hit implies that the leaf's dirty bit is already set |
| `Tlb.StepKeepsModes` | tinyemu-core/riscv_cpu.c:1201-1325 | every event keeps MPRV clear below machine mode |
| `Tlb.StepKeepsCoherent` | tinyemu-core/riscv_cpu.c:334-735 | every CSR write, trap, return, access and flush keeps each entry equal to the walk while software spares the tables |
| `Tlb.EveryRunKeepsModes` | tinyemu-core/riscv_cpu.c:1201-1325 | over every run MPRV is clear below machine mode and entries sit at their index |
| `Tlb.EveryHitIsTheWalk` | tinyemu-core/riscv_cpu.c:239-331 | over every run: if page tables changed only by accessed/dirty updates since the last flush, a hit below machine mode is what the full walk gives now |
| `Cpu.CpuState.FlushAll` | tinyemu-core/riscv_cpu.c:644-658 | in place: the loop invalidates all three TLBs |
| `Cpu.CpuState.FlushWriteRange` | tinyemu-core/riscv_cpu.c:667-684 | in place: the loop drops exactly the write entries into the host range |
| `Cpu.CpuState.GetPhysAddr` | tinyemu-core/riscv_cpu.c:239-331 | the level loop computes the walk, which FoundExactlyWhenMapped and FaultExactly describe on page-table words, and writes its accessed/dirty update |
| `Cpu.CpuState.SlowAccess` | tinyemu-core/riscv_cpu.c:391-413 | in place: walk, update and fill of the right TLB |
| `Cpu.CpuState.AccessMemory` | tinyemu-core/riscv_cpu_priv.h:216-246 | in place: fast path or slow path |
| `Cpu.CpuState.SetMstatus` | tinyemu-core/riscv_cpu.c:721-735 | in place: flush exactly on a change of MPRV, SUM or MXR, or of MPP while MPRV is set |
| `Cpu.CpuState.WriteSatp` | tinyemu-core/riscv_cpu.c:1088-1100 | in place: an unknown mode keeps the old one; always flushes |
| `Cpu.CpuState.WriteMenvcfg` | tinyemu-core/riscv_cpu.c:1129-1149 | in place: flush exactly on a change of ADUE or PBMTE |
| `Cpu.CpuState.SetPriv` | tinyemu-core/riscv_cpu.c:1201-1207 | in place: flush exactly on a change of privilege |
| `Cpu.CpuState.RaiseException` | tinyemu-core/riscv_cpu.c:1250-1286 | in place: delegated to supervisor only from supervisor or user mode, saving the old mode, as the round trips of Privilege require |
| `Cpu.CpuState.HandleSret` | tinyemu-core/riscv_cpu.c:1294-1308 | in place: clears MPRV and returns to the saved mode |
| `Cpu.CpuState.HandleMret` | tinyemu-core/riscv_cpu.c:1310-1325 | in place: clears MPRV unless returning to machine mode |
| `Privilege.TrapEntersMode` | tinyemu-core/riscv_cpu.c:1250-1286 | a trap ends in supervisor mode exactly when it is delegated from below machine mode, else in machine mode |
| `Privilege.ModesKeepSettings` | tinyemu-core/riscv_cpu.c:1250-1325 | traps and returns leave SUM, MXR, satp, menvcfg and memory alone |
| `Privilege.SretUndoesTrap` | tinyemu-core/riscv_cpu.c:1266-1308 | a delegated trap and its sret give back the mode and every setting, with MPRV clear and SPP reset |
| `Privilege.MretUndoesTrap` | tinyemu-core/riscv_cpu.c:1277-1325 | a machine trap and its mret give back the mode and every setting, MPRV kept only in machine mode |
| `Privilege.NestedTrapsUnwind` | tinyemu-core/riscv_cpu.c:1250-1325 | a machine trap inside a supervisor handler unwinds to the handler and then to the interrupted code |
| `Privilege.EveryTrapReturns` | tinyemu-core/riscv_cpu.c:1250-1325 | over every run: the mode after a trap and its return is the mode before |
| `Privilege.SatpMeans` | tinyemu-core/riscv_cpu.c:1088-1100 | satp mode 0 turns translation off, mode 8 starts it at the new root, any other mode keeps the mode with the new root |
| `Privilege.RegistersReadBack` | tinyemu-core/riscv_cpu.c:721-735 | every field of mstatus and menvcfg reads as written and no other changes |
| `Privilege.StatusWrites` | tinyemu-core/riscv_cpu.c:1037-1149 | mstatus and menvcfg are written from machine mode only, sstatus from supervisor mode up and only in its own fields; every field reads as written |
| `Privilege.RestartIsBare` | tinyemu-core/riscv_cpu.c:1435-1450 | after a restart every access goes to its own address, in machine mode with every option off |
| `Privilege.SlowAccessLands` | tinyemu-core/riscv_cpu.c:391-413 | the slow path lands at the host address the page tables map, with the right write-back, or faults without a change |
| `Privilege.AccessIsRemembered` | tinyemu-core/riscv_cpu.c:391-413 | an aligned access that reached RAM is remembered: repeated, it hits the same place and changes nothing |
| `Privilege.EveryAccessLands` | tinyemu-core/riscv_cpu_priv.h:216-246 | over every run, hit or miss: an access below machine mode lands where the page tables map it now |
| `Privilege.StoreLands` | tinyemu-core/riscv_cpu.c:494-525 | a store writes its word where its access lands, and changes no other word but what the access wrote back |
| `Privilege.FencesFlush` | tinyemu-core/riscv_cpu.c:644-658 | a fence or a write of satp leaves no TLB entry valid |
| `DirtyPages.GuestKeepsInv` | tinyemu-core/riscv_cpu.c:494-525 | every guest and host event keeps: a write entry into a tracked page implies its bit is set |
| `DirtyPages.WritesAreMarked` | tinyemu-core/riscv_cpu.c:225-236 | every page an event writes, whether or not a value changes, is untracked or marked afterwards, fast-path stores included |
| `DirtyPages.ChangesAreWritten` | tinyemu-core/riscv_cpu.c:225-236 | a word of memory changes only in a page the event is said to write |
| `DirtyPages.CreatedIsLossless` | tinyemu-core/bridge.c:62-83 | a reset hart over well-formed, disjoint, mapped ranges starts a run |
| `DirtyPages.TakeKeepsInv` | tinyemu-core/iomem.c:143-171 | swapping to a cleared bitmap keeps the invariant although the flush is skipped when no bit is set or the range is unmapped |
| `DirtyPages.ClearKeepsInv` | tinyemu-core/iomem.c:174-192 | clearing one bit keeps the invariant |
| `DirtyPages.MoveKeepsInv` | tinyemu-core/iomem.c:228-252 | moving, enabling or disabling a range keeps the invariant |
| `DirtyPages.NoWriteIsLost` | tinyemu-core/bridge.c:177-201 | over every run from a machine just built each tracked page written since its last snapshot or clear is marked |
| `DirtyPages.SnapshotIsComplete` | tinyemu-core/bridge.c:177-190 | a snapshot names every page of its range written since the last one |
| `DirtyPages.SnapshotReadsBack` | tinyemu-core/iomem.c:143-171 | over every run: until the next snapshot of its range, the bitmap handed out has the bit of a page set if and only if the page was written since the snapshot before, whatever the guest writes meanwhile |
| `DirtyPages.SnapshotIsExact` | tinyemu-core/iomem.c:143-171 | from blank bitmaps, over every run: a page of a tracked range is marked if and only if it was written since its last snapshot or clear |
| `DirtyPages.DirtyRange.SetDirtyBit` | tinyemu-core/iomem.h:106-116 | in place: marks one page in the active bitmap |
| `DirtyPages.DirtyRange.MarkBytes` | tinyemu-core/bridge.c:132-147 | the page loop marks exactly the pages the bytes touch |
| `DirtyPages.DirtyRange.TakeDirtyBits` | tinyemu-core/iomem.c:143-171 | in place: the old bits are returned, a cleared bitmap becomes active, a flush is due exactly when some bit was set and the range is mapped |
| `DirtyPages.DirtyRange.ResetDirtyBit` | tinyemu-core/iomem.c:174-192 | in place: clears one bit, a flush is due exactly when it was set |
| `FloatRounding.RoundingUnique` | tinyemu-core/softfp_template.h:108-174 | the correct rounding of a real magnitude is unique |
| `FloatRounding.RoundingIsOptimal` | tinyemu-core/softfp_template.h:108-174 | the specified rounding is the closest representable value in the mode's sense among all of the grid |
| `FloatRounding.StickyJams` | tinyemu-core/softfp_template.h:93-105 | a sticky right shift loses nothing that rounding can see |
| `FloatRounding.StickyIsDivision` | tinyemu-core/softfp_template.h:93-105 | repeated one-bit sticky shifts are the closed form the code computes |
| `SoftFloat.RshiftIsSticky` | tinyemu-core/softfp_template.h:93-105 | rshift_rnd is the sticky shift, also for shifts of a whole word or more |
| `FloatCorrectness.WordRounds` | tinyemu-core/softfp_template.h:108-158 | adding the addend and clearing a tie's low bit rounds whatever real number the word stands for, in all five modes; lost bits tell exactness |
| `FloatCorrectness.TinyTest` | tinyemu-core/softfp_template.h:131-145 | the code's test for a tiny result is tininess after rounding with unbounded exponent |
| `FloatCorrectness.RoundPackIsCorrect` | tinyemu-core/softfp_template.h:108-174 | rounding and packing returns the correct rounding with subnormals, overflow and the overflow, underflow and inexact flags exact |
| `FloatOperations.NormalizeIsCorrect` | tinyemu-core/softfp_template.h:178-187 | normalising first loses nothing when the word is exact or long |
| `FloatOperations.AddIsCorrect` | tinyemu-core/softfp_template.h:234-290 | addition of any finite operands is the correct rounding of the exact real sum, zero sign included, inexact exactly when it differs |
| `FloatOperations.SubtractIsCorrect` | tinyemu-core/softfp_template.h:292-296 | subtraction likewise |
| `FloatOperations.AddOnSpecials` | tinyemu-core/softfp_template.h:248-264 | infinities and NaNs: quiet NaN, invalid flag and infinity as the standard asks |
| `FloatOperations.MultiplyIsCorrect` | tinyemu-core/softfp_template.h:349-399 | multiplication of any finite operands is the correct rounding of the exact product |
| `FloatOperations.DivideIsCorrect` | tinyemu-core/softfp_template.h:589-653 | division by any finite nonzero operand is the correct rounding of the exact quotient |
| `FloatOperations.SquareRootIsCorrect` | tinyemu-core/softfp_template.h:720-767 | the square root of any positive finite operand is the correct rounding of the real root |
| `FloatOperations.DivideOnSpecials` | tinyemu-core/softfp_template.h:603-637 | 0/0 and inf/inf are invalid, x/0 is a signed infinity with the divide-by-zero flag, x/inf a signed zero |
| `FloatWords.InvalidExactly` | tinyemu-core/softfp_template.h:248-637 | over all operands of the four operations: the invalid flag is raised exactly for a signalling NaN or inf-inf, 0*inf, 0/0, inf/inf, the division flag exactly for a finite nonzero x/0 |
| `FloatWords.RootInvalidExactly` | tinyemu-core/softfp_template.h:720-767 | over all operands: a root is invalid exactly for a signalling NaN or a negative number other than zero |
| `FloatWords.AddCommutes` | tinyemu-core/softfp_template.h:234-290 | addition commutes on all operands, NaNs included, although the code orders them by magnitude |
| `FloatWords.MultiplyCommutes` | tinyemu-core/softfp_template.h:349-399 | multiplication commutes on all operands although the code shifts them by different amounts |
| `FloatWords.NansPropagateAlike` | tinyemu-core/softfp_template.h:248-637 | every operation turns a NaN on either side into the one quiet NaN with the same flags |
| `FloatWords.MultiplyUndoesDivide` | tinyemu-core/softfp_template.h:364-637 | multiplying back undoes the division of an infinity or a zero, sign included and without flags |
| `FloatWords.RootOfSquare` | tinyemu-core/softfp_template.h:364-749 | the root of the square of an infinity or a zero is its absolute value |
| `FloatWords.WordsCarryOutcomes` | tinyemu-core/softfp_template.h:78-91 | on packed words the result word unpacks to the outcome on the unpacked operands |
| `FloatWords.WordsAreCorrect` | tinyemu-core/softfp_template.h:234-653 | on packed words: sum, difference, product and quotient of finite operands are the correct rounding of the exact result, in every mode, flags included |
| `WordArithmetic.MulU` | tinyemu-core/softfp_template.h:320-343 | the half-word product is the exact double-word product |
| `WordArithmetic.ProductByHalves` | tinyemu-core/softfp_template.h:396-398 | the word mul_sf continues with, computed by half words, is the sticky high word of the exact product |
| `WordArithmetic.DivRemU` | tinyemu-core/softfp_template.h:567-585 | the bit-by-bit loop is division with remainder |
| `WordArithmetic.QuotientByBits` | tinyemu-core/softfp_template.h:648-652 | the word div_sf continues with, computed bit by bit, is the sticky quotient |
| `WordArithmetic.SqrtRemU` | tinyemu-core/softfp_template.h:659-685 | the loop ends at the floor root of a if and only if a < (u+1)^2 for its start u; always when either word is zero; non-squares are reported |
| `WordArithmetic.NewtonRoot` | tinyemu-core/softfp_template.h:674-680 | from any start the Newton loop finds the floor root if and only if the start is not below it |
| `WordArithmetic.NewtonStaysAbove` | tinyemu-core/softfp_template.h:674-680 | a Newton step never goes below the floor root |
| `WordArithmetic.NewtonStops` | tinyemu-core/softfp_template.h:674-680 | a step that no longer decreases started at most at the floor root |
| `WordArithmetic.NewtonFromBelow` | tinyemu-core/softfp_template.h:674-680 | started below the floor root the loop stops at once |
| `WordArithmetic.StartSuffices` | tinyemu-core/softfp_template.h:657-673 | the start is high enough for a zero low word, as sqrt_sf passes it, and for a zero high word, as the documented range implies |
| `WordArithmetic.StartTooLow` | tinyemu-core/softfp_template.h:664-673 | with both words nonzero the start can be too low: a concrete 33-bit radicand at word width 32 |
| `WordArithmetic.RootOf` | tinyemu-core/softfp_template.h:753-766 | the word sqrt_sf continues with is the sticky floor root of its radicand |
| `WordArithmetic.UnpackPack` | tinyemu-core/softfp_template.h:78-91 | unpacking undoes packing |
| `WordArithmetic.PackUnpack` | tinyemu-core/softfp_template.h:78-91 | packing undoes unpacking on every word |
| `GuestClock.TicksMonotone` | src/browser_runtime.rs:306-313 | more cycles never give an earlier guest time |
| `GuestClock.ElapsedIsFloor` | src/browser_runtime.rs:306-313 | the elapsed ticks are the cycles run, at the cycle rate, counted at the tick rate and rounded down |
| `GuestClock.DeadlineIsLeast` | src/browser_runtime.rs:315-328 | the cycle count for a deadline is the least at which the clock has advanced that far; a clamped count never overshoots |
| `GuestClock.LimitIsSafe` | src/browser_runtime.rs:757-767 | a CPU that keeps to its cycle limit never exceeds the budget, and short of the limit it has not reached the next timer deadline |
| `GuestClock.LimitIsTight` | src/browser_runtime.rs:757-767 | the limit uses up the budget or reaches the next deadline |
| `GuestClock.HonestCpuKeepsBudget` | src/browser_runtime.rs:757-800 | a CPU that keeps to the limits it is handed never runs a quantum past its budget |
| `GuestClock.WakeupIsOnTime` | src/browser_runtime.rs:902-913 | when nothing saturates the requested delay is the least number of milliseconds after which the host clock has reached the wake-up time |
| `GuestClock.RunQuantum` | src/browser_runtime.rs:748-838 | every activation before the last ran, made progress, left budget, was no sleep and called for no host; the last decides: inactive, machine failure, no progress, host service, sleep with its wake delay, or budget reached, each if and only if; within two activations per budget cycle, charging exactly the cycles run |
| `GuestClock.BeginReachesHostTime` | src/browser_runtime.rs:666-728 | an accepted begin starts a fresh quantum with its rates and budget whose clock is the later of the host's time and the old clock; it is refused exactly while one is active or the machine is not running |
| `GuestClock.EndingKeepsTheClock` | src/browser_runtime.rs:844-923 | only a finished quantum finishes, any is aborted, and both keep the time the guest has seen |
| `GuestClock.NextKeepsTime` | src/browser_runtime.rs:666-728 | no begin, run, finish or abort turns the clock back, whatever the host clock says |
| `GuestClock.ClockNeverGoesBack` | src/browser_runtime.rs:844-923 | over every sequence of begin, run, finish and abort from a runtime just prepared the guest clock is monotone |
| `GuestClock.BrowserClock.Advance` | src/browser_runtime.rs:734-746 | in place: the quantum ends as RunQuantum says, and running never turns the clock back, errors included |
| `GuestClock.BrowserClock.BeginQuantum` | src/browser_runtime.rs:666-728 | in place: starts at the later of host time and floor; refused while active or inactive |
| `GuestClock.BrowserClock.FinishQuantum` | src/browser_runtime.rs:844-872 | in place: the floor becomes the finished quantum's clock and the wake-up delay is requested; an unfinished one stays |
| `GuestClock.BrowserClock.AbortQuantum` | src/browser_runtime.rs:918-923 | in place: the floor rises to the aborted quantum's clock |

## Left out

- Timestamps, modes, ownership, QID versions, change notifications and the text of paths: opaque to every result here.
- UTF-8 validation and the byte encoding of 9P messages: requests arrive parsed, replies are counted in bytes.
- Read-only 9P requests (getattr, read, readlink, statfs, getlock) inside a run: they share one constructor and cannot change state; FileWrites.TreadExactly says what a read returns.
- Writer buffers of the 9P reply: only their lengths matter to the failure results.
- Namespace reset, open, create, write and lock requests of a session as in-place methods: modelled on values only, so aliasing of the shared filesystem between sessions is not captured for them.
- Wrong-filesystem checks (`check_identity`): one filesystem object is assumed.
- Sessions.VersionRequest: when a release fails midway the model keeps the namespace as it was; SessionWorld proves that the case cannot arise.
- Disk contents below the sector: whole 512-byte sectors are the unit, so non-sector lengths are rejected before the model.
- Wrap-around of HTTP request ids and of the LRU clock.
- Array-backed disks and the manifest parser.
- Bytes of a block request's header: kind, sector and whole payload sectors arrive parsed; a missing header and a payload of no whole sectors are one case.
- Byte addresses of the rings and descriptors of a chain inside the queue model: rings are slots and indices, a chain's contents are looked up by head; Descriptors models the bytes. A chain held back is looked up again by its head, where the program keeps its descriptors; a driver that leaves chains in flight alone sees no difference.
- Block device reset during a run: a run lasts from one reset to the next, and BlockQueue.StartIsSound starts the next one.
- Console, network, entropy, input and 9P VirtIO devices.
- The instruction interpreter, interrupt selection, counters, PMP and device accesses; unaligned accesses are their aligned parts.
- Data TLB entries in machine mode while MPRV is set: traps within machine mode change MPP without a flush, so the claim is kept below machine mode.
- Saved interrupt-enable bits across traps and returns.
- RAM ranges that are not page-aligned, and overlapping ranges: the physical map gives each page one host page.
- Packing of dirty bits into 32-bit words: one boolean per page.
- DirtyPages.MoveKeepsInv: covers dirty tracking only; moving a range does not flush read and code TLBs, so remapping is not part of the translation result.
- Fused multiply-add, conversions, comparisons, minimum and maximum, and NaN payloads.
- The double-word variant of `sqrtrem_u` without a 128-bit type: same recurrence, not modelled separately.
- WordArithmetic.SqrtRemU: uses unbounded integers; the double word of the code does not overflow for the calls made.
- Rate estimation, adaptive skew and speed history in floating point: arbitrary positive integer rates instead.
- GuestClock.BrowserClock.FinishQuantum: leaves out the statistics and the rate estimation, which are in floating point.
- Configuration, device tree, UART, RTC, PLIC, framebuffer, JavaScript adapter and FFI.
