# SpaceOS, verified

SpaceOS is a small 32-bit x86 kernel written in C, with a packer for its packages in Python. This project models the
parts of it that hold real algorithms, in the form the source gives them (objects whose fields are updated become
classes, loops become loops, word arithmetic is written with its wrap-around), and proves what those parts are for.
It is written for Dafny 4.11: `dafny verify dfyconfig.toml`.

## What is modelled

**SpaceTLS primitives** (`kernel/net/tls.c`). `Poly1305` computes in five 26-bit limbs and is proved equal, for
every key and message, to the polynomial modulo 2^130 - 5 of section 2.5 of RFC 7539, evaluated at the key under the
mask of that section, with every 32-bit and 64-bit operation in range. `Sha256` is FIPS 180-4, `Sha256Context` the
streaming context (any chunking of a message gives the hash of the message padded as in section 5.1.1) and `Hmac`
section 2 of RFC 2104; a collision of the hash is one of its compression function. `Sha256Roots` proves that the
constants are the roots of primes that section 4.2.2 of FIPS 180-4 makes them, `Sha256Abc` that the digest of "abc"
is the one published. `ChaCha20` is section 2.4 of RFC 7539, `ChaCha20Block` its block of section 2.3.2; `Aead`
composes it with Poly1305: what was sealed opens, a tag is rejected exactly when it is not the recomputed one, and
the authenticated string determines the associated data and the ciphertext.

**Journal and SpaceFS** (`kernel/fs/journal.c`, `kernel/fs/spacefs.c`). `Disk` is a drive of sectors that records
its writes. `Journal` is the 31-slot ring log; `JournalCrash` proves that after any run of journalled writes,
crashes inside them (the home write possibly torn), crashes inside recoveries, and recoveries, every home sector
holds its last completed write and the sector in flight is wholly old or wholly new. `Dirents`, `SpaceFsState`,
`SpaceFsPaths`, `SpaceFsOps` and `SpaceFsDirs` give the file system as a value with its consistency invariant, kept
by every run of format, write, mkdir and unlink, the write/read round trip with its frame, and exactly when a new
name leads to what was made under it, which older paths a call changes, and when an unlinked one leads nowhere.
`SpaceFsMade` says what the calls make, inode by inode and octet by octet: a directory that takes files, a file in
its blocks, free blocks. `SpaceFsRoom` shows that blocks never run out, `SpaceFsFull` a volume on which a write is
reported and lost, `SpaceFsLong` one on which it takes over the path of another file. `SpaceFs.Volume` is the driver
in the order of the code, with its copies of counters and bitmaps in memory, refining the values.

**FAT32** (`kernel/fs/fat32.c`). `FatChains` and `FatFiles` have the cluster chains: writing extends a chain by free
clusters only and reads back, deleting frees exactly the chain, and over any run chains stay acyclic and disjoint
and every file keeps its last contents. `FatNames` has the 8.3 names, `FatDirs` directories as maps, `FatDirScan`
their layout over sectors, and `Fat32`, `Fat32Dirs` the driver on a drive. `FatLists` reads a directory with the
contents of its files, and `FatStore` joins all: over every run of creations, writes and deletions by name, each
name holds a list of contents, and the directory is a map where names are created once.

**Memory** (`kernel/mem/`). `Heap` (first fit, splitting, joining), `Slab` (free lists threaded through the slots of
a page), `Pmm` (page bitmap with a cached count), `Paging` (two-level tables with one aliased entry).

**Scheduler** (`kernel/proc/sched.c`, `kernel/proc/processo.c`). `Sched` is one timer tick on values with the safety
properties over whole runs, `SchedShares` the exact proportional shares and the renewal of credits, `SchedQueue` the
linked control blocks updated in place.

**Formats and checksums.** `Djb2` (three copies of one hash), `Spk` and `SpkTools` (what the packer writes the
installer accepts and extracts), `Ipv4` (Internet checksum and header).

`Bytes` and `Bits` hold octets, little- and big-endian fields, C strings, and the arithmetic of masks and shifts;
`Wrappers` an optional value.

## What the proofs found

- The bitmap of SpaceFS has room for 4096 blocks and its 256 inodes for 2560, so blocks never run out
  (`SpaceFsRoom.BlockLeft`): `spfs_write` returns the size whenever the data are not too long, the parent exists and
  an inode is there or free, and -1 otherwise (`SpaceFsOps.WriteKeeps`).
- `spfs_write` returns the size even when the new file could not be entered in its directory, because the result of
  `dir_add_entry` is not looked at (spacefs.c:343), or was entered under a name cut to 27 octets (spacefs.c:210).
  What was written can be read exactly when the path existed, or its parent is a directory with a slot left of its
  160 and its last component has at most 27 octets; otherwise the path leads nowhere (`SpaceFsOps.WriteThenRead`).
  `spfs_mkdir` reports success in the same way (spacefs.c:387, `SpaceFsDirs.MakeDirNew`).
  `SpaceFsFull.FullRootLosesName` and `SpaceFsLong.LongNameTakesPath` give consistent volumes on which both happen,
  for the one and for the other reason.
- A new entry can hide an older path: exactly those paths lead elsewhere that pass the inode found under the cut
  name behind the first free slot (`SpaceFsOps.WriteLeavesOtherFiles`, `SpaceFsDirs.MakeDirThenResolve`), and there
  are some exactly when there is such a slot (`SpaceFsOps.NothingHidden`). In `SpaceFsLong.LongNameTakesPath` the
  path of an older file comes to lead to the new one.
- Neither call looks whether the parent is a directory. A write under a file returns the size, its path leads
  nowhere, and the file has grown by a directory entry (`SpaceFsOps.WriteUnderFile`).
- Consistency is kept by every write to a file, every mkdir, and exactly those unlinks that do not name the root
  (`SpaceFsDirs.UnlinkConsistentIff`); a write over a directory can break it (`SpaceFsDirs.WriteOverRootBreaks`).
- `spfs_mkdir` allows a name twice, so an unlinked path leads nowhere exactly when no other slot of its directory
  holds the name (`SpaceFsDirs.UnlinkThenResolve`).
- `journal_init` takes any head and tail from disk; the loop of `journal_recover` ends exactly when they are equal
  or the tail is below 31 (`Journal.RecoveryEnds`).
- `fat32_find` passes over volume labels and `fat32_delete` does not (fat32.c:255, 468): deleting a name makes it
  unfindable exactly when every visible slot of that name is the one deleted (`FatDirs.DropThenFind`);
  `FatDirs.LabelDeletedInstead` gives the directory for which it fails.
- Creating in a FAT directory keeps the result for another name exactly when it does not use up an end marker that
  stopped the search for that name in front of a slot with it (`FatDirs.AddKeepsOtherIff`). Where everything behind
  an end marker is an end marker that never happens; `FatDirs.StaleSlotReturns` gives a directory where it does.
- `fat32_create` does not look whether the name is taken. The name then leads to the new, empty file exactly when no
  slot in front of the one taken has it, and where it led otherwise (`FatDirs.AddThenFind`); a later deletion brings
  the next one back (`FatStore.RunIsLists`).
- `fat32_create` in a full directory keeps the cluster it claimed (`Fat32Dirs.Created`).
- An 8.3 name survives being read and normalised exactly when both fields are upper case, NUL-free and padded on the
  right, and the base holds no dot (`FatNames.NormalOfReadable`).
- `kmalloc` of 2^32 - 3 and more rounds the request to nothing and hands out a block of fewer than seventeen octets,
  of none when it was split; all smaller requests get what they asked for (`Heap.TakenHolds`).
- A slab cache for objects above 4084 octets makes the bound of the loop in `slab_novo` wrap around
  (`Slab.LoopBoundWraps`).
- `fat32_write_file` returns the size as a signed number: what it wrote of 2 GB and more comes back negative
  (`Fat32.Driver.WriteFile`).
- A region of the memory map that begins in the middle of a page makes that page free although it holds only a part
  of it (`Pmm.OffersMeans`, `Pmm.PageOutsideRegion`).
- The directory entry made for a new table has no user bit, so a page mapped by `paging_mapear_usuario` is open to
  user code exactly when its directory entry was there and had the bit (`Paging.UserMappingIff`); from the tables of
  `paging_init` no run of mappings opens any page to user code (`Paging.RunNeverUser`).
- The guard `paginas_livres > 0` in `pmm_marcar_usado` never fails (`Pmm.Allocator.CountDown`).
- Credits are never spent in a process's own control block, so a turn repeats for ever, and a ready process without
  credits waits as long as two others hold some (`SchedShares.ExactShares`).
- A failed installation leaves the file system as it was exactly when none of the paths it had written existed
  before (`SpkTools.RollbackRestores`); `SpkTools.RollbackDestroys` gives a package and a file system that lose a
  file.
- Installing what was packed puts every file of a package at its path exactly when no two of them have one path and
  different contents (`SpkTools.InstallAfterPack`).
- The installer adds offset and size in 32 bits: an accepted record lies in the payload exactly when the sum does
  not wrap around (`Spk.InsideIff`), and the payload in the file likewise (`Spk.FramedIff`).
  `Spk.WrappingRecordPasses` is a record that passes and lies outside.
- A change of one word of a header passes the checksum exactly when it turns 0 into 0xFFFF, or 0xFFFF into 0 while
  another word is not 0 (`Ipv4.OneWordChange`).
- A package whose payload lies in the file is refused after the change of any one octet of the payload: djb2 always
  shows it (`Spk.CorruptionIsRefused`, `Djb2.OneOctetShows`).
- The second of the two loops that store the length in `sha256_final` changes nothing: the first has stored the same
  octets (`Sha256Context.Context.StoreLengthAgain`).

## Model

| member | source | states |
|---|---|---|
| Poly1305.ClampKey | kernel/net/tls.c:167-171 | the seven octet masks leave r AND 0x0FFFFFFC0FFFFFFC0FFFFFFC0FFFFFFF, the bits RFC 7539 keeps |
| Poly1305.ClampIsMask | kernel/net/tls.c:167-171 | for every key, clamping octet by octet is the AND with that one 128-bit number |
| Poly1305.LoadR | kernel/net/tls.c:174-178 | the shifts and masks of five overlapping words give limbs below 2^26 (the last below 2^20) whose value is the clamped key |
| Poly1305.LoadBlock | kernel/net/tls.c:193-198 | a 17-octet block becomes five limbs whose value is its little-endian number |
| Poly1305.ColumnsAreTheProduct | kernel/net/tls.c:200-206 | the five column sums, with the multiples of five, are congruent to the product of accumulator and r modulo 2^130 - 5 |
| Poly1305.ColumnsFit | kernel/net/tls.c:201-206 | no column sum leaves 64 bits for any accumulator the loop can hold |
| Poly1305.MulCarry | kernel/net/tls.c:200-213 | multiplication and carry chain give a number congruent to h * r, with the limbs back in the bounds of the loop head and no word overflowing |
| Poly1305.CarryChain | kernel/net/tls.c:208-213 | the carry chain keeps the value modulo 2^130 - 5 and restores the limb bounds |
| Poly1305.AbsorbChunk | kernel/net/tls.c:186-213 | one iteration takes the accumulator from the value of the message so far to that of the message with the next chunk |
| Poly1305.Absorb | kernel/net/tls.c:185-214 | after the loop the accumulator is congruent to the RFC's accumulator of the whole message |
| Poly1305.FinalCarry | kernel/net/tls.c:217-221 | the last carries leave five limbs below 2^26 and the same value modulo 2^130 - 5 |
| Poly1305.SubtractOnce | kernel/net/tls.c:224-235 | one masked subtraction leaves the value fully reduced below 2^130 - 5 |
| Poly1305.PackWords | kernel/net/tls.c:246-249 | the limbs repacked in four 32-bit words are the value modulo 2^128 |
| Poly1305.AddWords | kernel/net/tls.c:245-249 | adding word by word with the carry in 64 bits is adding modulo 2^128 |
| Poly1305.StoreTag | kernel/net/tls.c:238-249 | the sixteen tag octets are the little-endian h + s modulo 2^128 |
| Poly1305.Poly1305Mac | kernel/net/tls.c:164-250 | for every key and message the tag is that of section 2.5 of RFC 7539: the polynomial of the message at the masked first half of the key, plus the second half, modulo 2^128 |
| Poly1305.TagIsPolynomial | kernel/net/tls.c:164-250 | the tag is the sum of the chunks' numbers times powers of the masked key, modulo 2^130 - 5, plus the rest of the key, modulo 2^128 |
| Poly1305.CoefficientIs | kernel/net/tls.c:188-198 | the number of a chunk is its little-endian value and a one behind its last octet |
| Poly1305.AccumulateIsPolynomial | kernel/net/tls.c:185-214 | the RFC's recurrence equals the sum of c_i * r^(q+1-i) modulo 2^130 - 5 |
| Sha256.PaddingInjective | kernel/net/tls.c:71-82 | different messages are padded to different blocks |
| Sha256.HashCollision | kernel/net/tls.c:36-89 | two different messages with one hash lead to two different inputs of the compression function with one outcome |
| Sha256.FoldCollision | kernel/net/tls.c:62-69 | the same for runs of blocks of equal length |
| Sha256.FoldConcat | kernel/net/tls.c:62-69 | folding the compression function over two runs of blocks is folding it over one after the other |
| Sha256Roots.ConstantIsRoot | kernel/net/tls.c:17-34 | round constant t is the first 32 bits of the fraction of the cube root of the prime with t primes below it |
| Sha256Roots.IvIsRoot | kernel/net/tls.c:54-60 | initial word i is the first 32 bits of the fraction of the square root of the prime with i primes below it |
| Sha256Abc.HashOfAbc | kernel/net/tls.c:9-89 | the hash of "abc", computed through all 64 rounds, is ba7816bf ... f20015ad as FIPS 180-4 has it |
| Sha256Context.ExpandSchedule | kernel/net/tls.c:37-42 | the two loops fill the message schedule of FIPS 180-4 |
| Sha256Context.RunRounds | kernel/net/tls.c:43-49 | the 64 updates of eight variables are the rounds of FIPS 180-4 |
| Sha256Context.Context.Transform | kernel/net/tls.c:36-52 | the state becomes the compression of the old state with the buffer |
| Sha256Context.Context.Update | kernel/net/tls.c:62-69 | the message grows by the data; the state always folds the whole blocks and the buffer holds the rest |
| Sha256Context.Context.TakeOctet | kernel/net/tls.c:65-68 | one octet keeps that relation, filling a block or not |
| Sha256Context.Context.CloseMessage | kernel/net/tls.c:72-74 | the octet 0x80 and, when the length no longer fits, a block of its own |
| Sha256Context.Context.StoreLength | kernel/net/tls.c:75-82 | the length in bits, most significant octet first, behind the other octets |
| Sha256Context.Context.StoreLengthDown | kernel/net/tls.c:76-77 | the loop that shifts the length out stores it, last octet first |
| Sha256Context.Context.StoreLengthAgain | kernel/net/tls.c:80-81 | the loop that shifts each octet into place finds all of them there and changes nothing |
| Sha256Context.Context.Final | kernel/net/tls.c:71-89 | the digest is the FIPS 180-4 hash of all the data ever updated |
| Sha256Context.FinalFold | kernel/net/tls.c:71-82 | the one or two closing blocks are what padding as in section 5.1.1 appends |
| Hmac.HashOfChunks | kernel/net/tls.c:54-89 | any way of cutting a message into updates gives the hash of the message |
| Hmac.HashOf | kernel/net/tls.c:91-96 | the one-shot function is the hash of its data, the one of FIPS 180-4 by `Sha256Roots` and `Sha256Abc` |
| Hmac.HmacSha256 | kernel/net/tls.c:102-115 | H((K0 xor opad) followed by H((K0 xor ipad) followed by m)), long keys hashed first |
| Hmac.MacIsTwoHashes | kernel/net/tls.c:102-115 | for any two pads that XOR to the key with 0x36 and 0x5C, the tag is the hash of the outer one and the hash of the inner one and the message |
| ChaCha20.QuarterAt | kernel/net/tls.c:121-126 | the macro on four words of an array is the quarter round on those four and leaves the others |
| ChaCha20.BlockInto | kernel/net/tls.c:128-138 | ten double rounds and the addition of the input give the block function |
| ChaCha20Block.BlockIs | kernel/net/tls.c:119-138 | the block of section 2.3.2 of RFC 7539, computed through the ten double rounds, is the one printed there |
| ChaCha20Block.StreamIs | kernel/net/tls.c:140-157 | its words leave as octets least significant first |
| ChaCha20.Encrypt | kernel/net/tls.c:140-157 | the nested loop XORs octet i with octet i mod 64 of the block with counter + i / 64, in place or not, and writes nothing beyond |
| ChaCha20.CryptTwice | kernel/net/tls.c:140-157 | encrypting twice with the same key, nonce and counter gives the message back |
| ChaCha20.CryptSplits | kernel/net/tls.c:150-156 | whole blocks can be encrypted apart, the rest with the counter moved on |
| Aead.BuildMacInput | kernel/net/tls.c:270-280 | the buffer holds both parts padded to sixteen and both lengths, and never overflows for data that fit |
| Aead.MacInputInjective | kernel/net/tls.c:270-280 | different pairs of associated data and ciphertext are authenticated as different strings |
| Aead.MacInputLayout | kernel/net/tls.c:270-280 | the authenticated string octet by octet: both parts, zeros up to a multiple of 16, both lengths in eight octets |
| Aead.SealIsOneStream | kernel/net/tls.c:256-284 | ciphertext and one-time key come from one key stream, the ciphertext 64 octets behind the key |
| Aead.SealInto | kernel/net/tls.c:256-284 | ciphertext and tag are those of the specification, the ciphertext allowed to replace the plaintext |
| Aead.OpenInto | kernel/net/tls.c:286-316 | -1 and an untouched output exactly when the tag is not the recomputed one, else the decryption |
| Aead.SameTag | kernel/net/tls.c:308-311 | the constant-time comparison reports equality exactly |
| Aead.SealThenOpen | kernel/net/tls.c:256-316 | opening what was sealed gives the plaintext, for all inputs |
| Journal.MetaRoundTrip | kernel/fs/journal.c:31-42 | the meta record decodes to what was encoded |
| Journal.HeaderRoundTrip | kernel/fs/journal.c:88-95 | an entry header decodes to what was encoded |
| Journal.RecordsInOctets | kernel/fs/journal.c:12-29 | the fields of both records as words of octets; a meta record is recognised by the octets 4C 4E 52 4A |
| Journal.BeginInOctets | kernel/fs/journal.c:82-103 | the three writes by sector and octet: header with txid, block, 0 and the checksum, the data behind it, the meta record in sector 35 with the next of 31 places |
| Journal.MarkInOctets | kernel/fs/journal.c:110-117 | the mark of a commit makes octets 8 to 11 of the header 1, 0, 0, 0 and leaves the others |
| Journal.Log.Init | kernel/fs/journal.c:48-58 | takes a recognised meta record as it is, whatever its head and tail, and writes an empty one over anything else |
| Journal.RecoveryEnds | kernel/fs/journal.c:65-76 | the loop of recovery ends exactly when head and tail are equal or the tail is a place of the ring |
| Journal.Log.Begin | kernel/fs/journal.c:82-103 | exactly header, data and meta are written, in this order, and the record moves on by one entry |
| Journal.Log.Commit | kernel/fs/journal.c:105-127 | the first uncommitted entry of the transaction is marked, head advances over committed entries, the meta record is flushed |
| Journal.Log.Recover | kernel/fs/journal.c:60-80 | the uncommitted entries from head to tail are written home in order, then the ring is empty |
| Journal.Log.WriteSector | kernel/fs/spacefs.c:31-36 | begin, home write and commit as one sequence of sector writes |
| JournalCrash.CommitFindsEntry | kernel/fs/journal.c:105-118 | the entry marked is exactly the one just begun, whatever older txids the ring holds |
| JournalCrash.WritesAreSix | kernel/fs/spacefs.c:31-36 | a journalled write on a quiet disk is exactly six sector writes, of which only the fourth touches a home sector |
| JournalCrash.CrashInsideWrite | kernel/fs/spacefs.c:31-36 | stopping after any of the six, the next one torn, leaves a disk from which recovery yields the old sector before the meta flush of begin and the new one from it on |
| JournalCrash.RecoveryIsIdempotent | kernel/fs/journal.c:60-80 | a recovery stopped anywhere leaves a disk from which recovery yields the same; completed, the journal is empty |
| JournalCrash.EventKeeps | kernel/fs/journal.c:60-127 | every event keeps the crash invariant |
| JournalCrash.RunIsCrashSafe | kernel/fs/journal.c:44-127 | after any legal sequence of writes, crashes and recoveries every home sector holds its last completed write, or wholly the one in flight |
| JournalCrash.InitIsQuiet | kernel/fs/journal.c:48-58 | a disk never used for a journal becomes one with an empty journal |
| JournalCrash.Session | kernel/fs/journal.c:44-127 | the running system: mounting a used or unused disk and writing sectors leaves the home sectors as if written atomically |
| JournalCrash.Mount | kernel/fs/journal.c:48-80 | init and recovery on any disk a crash can leave give the contents recovery promises |
| Dirents.PutThenRead | kernel/fs/spacefs.c:209-214 | an entry stored in a block reads back with its name cut to 27 characters, the others as before |
| Dirents.EntryOctets | kernel/fs/spacefs.c:209-214 | the 32 octets of an entry: the inode least significant octet first, at most 27 octets of the name, zeros; no others change |
| Dirents.ClearThenRead | kernel/fs/spacefs.c:413-418 | clearing an entry's inode empties that entry only |
| SpaceFsState.AttachKeeps | kernel/fs/spacefs.c:85-97 | giving a free block to an empty slot of a live inode keeps the whole invariant |
| SpaceFsState.DropKeeps | kernel/fs/spacefs.c:99-106 | freeing a block and forgetting it keeps the whole invariant |
| SpaceFsState.BirthKeeps | kernel/fs/spacefs.c:72-83 | a new inode in a free place keeps the whole invariant |
| SpaceFsState.EnterKeeps | kernel/fs/spacefs.c:207-218 | naming an unnamed live inode in the first free slot of a directory keeps the whole invariant |
| SpaceFsState.EraseKeeps | kernel/fs/spacefs.c:406-419 | removing the name of an inode keeps the whole invariant |
| SpaceFsPaths.SplitTokens | kernel/fs/spacefs.c:168-180 | the components of a path are those of its parent path followed by its last name |
| SpaceFsPaths.TokensAre | kernel/fs/spacefs.c:110-132 | components are what stands between octets 47, empty ones dropped, of the first 127 octets behind a leading 47 |
| SpaceFsPaths.FindIsFirst | kernel/fs/spacefs.c:128-156 | the search finds the first entry of that name and misses none, although unlink leaves holes |
| SpaceFsPaths.PathKept | kernel/fs/spacefs.c:110-165 | when every search that does not end at an inode stays the same, so does every path that does not pass it |
| SpaceFsPaths.PathCut | kernel/fs/spacefs.c:110-165 | when no path leads to an inode any more, none leads to what a path through it led to |
| SpaceFsOps.WriteKeeps | kernel/fs/spacefs.c:310-366 | for every path within the buffers, whatever the length of its last component and the kind of its parent, writing keeps the file system consistent; it returns the size exactly when the data are not too long and there is a target, else -1 and no change; the target then holds exactly the data, and every file but it and the parent is the same |
| SpaceFsOps.WriteThenRead | kernel/fs/spacefs.c:286-366 | when the size is returned, a read of the path yields exactly those octets if and only if the path existed, or its parent is a directory with a slot left and its last component has at most 27 octets; otherwise the path leads nowhere |
| SpaceFsOps.EnteredPath | kernel/fs/spacefs.c:184-222 | after an entry was made for a path, it leads there exactly when its last component is not empty and not cut and no slot in front has the name, else where it led |
| SpaceFsOps.EnteredOther | kernel/fs/spacefs.c:184-222 | any other path leads where it led exactly when it does not pass the inode that the entry hides |
| SpaceFsOps.EnteredHidden | kernel/fs/spacefs.c:184-222 | a path that led to that inode leads to the new one |
| SpaceFsOps.NothingHidden | kernel/fs/spacefs.c:184-222 | a new entry hides no path exactly when its name is empty or the cut name is not first found behind the slot it takes |
| SpaceFsOps.WriteUnderFile | kernel/fs/spacefs.c:310-366 | a write under a file returns the size, its path leads nowhere, and the file grows by one entry if it has 32 octets that look like a free one |
| SpaceFsOps.AddEntrySucceeds | kernel/fs/spacefs.c:184-222 | an entry can be added exactly when some slot of the directory has no name |
| SpaceFsRoom.BlockLeft | kernel/fs/spacefs.c:85-97 | in a consistent file system some block is free |
| SpaceFsFull.FullRootLosesName | kernel/fs/spacefs.c:340-343 | a consistent volume on which every write of a new file returns its size, every mkdir 0, and the path leads nowhere |
| SpaceFsLong.LongNameTakesPath | kernel/fs/spacefs.c:207-217 | a consistent volume on which writing a last component of 28 octets returns the size, its path leads nowhere, and the path of an older file leads to what was written; likewise for mkdir |
| SpaceFsOps.WriteLeavesOtherFiles | kernel/fs/spacefs.c:310-366 | a path to another file still leads there exactly unless a file was made whose entry hides it, and the file reads as before unless it is the parent of the path |
| SpaceFsDirs.MakeDirKeeps | kernel/fs/spacefs.c:368-389 | making a directory keeps the file system consistent and every file but the parent; it returns 0 exactly when the parent is there and an inode is free, else -1 and no change (what is made: `SpaceFsMade.MakeDirMakes`) |
| SpaceFsDirs.MakeDirThenResolve | kernel/fs/spacefs.c:368-389 | when 0 is returned, taken name or not, the path leads to the new directory exactly when the entry got a slot of a directory, its name was not cut and no slot in front has it, else where it led; every other path leads where it led exactly when it does not pass the inode hidden |
| SpaceFsDirs.MakeDirNew | kernel/fs/spacefs.c:368-389 | for a name that was free the path leads somewhere exactly when the parent is a directory with a slot left and the name has at most 27 octets |
| SpaceFsMade.MakeDirMakes | kernel/fs/spacefs.c:378-388 | when 0 is returned the lowest free inode is live, of kind 2 with one link and no blocks, names nothing, and no other inode became live |
| SpaceFsMade.MadeDirTakesFiles | kernel/fs/spacefs.c:310-389 | a file written under a directory just made reads back, for every name of at most 27 octets without a slash |
| SpaceFsMade.MadeDirIsNoFile | kernel/fs/spacefs.c:286-293 | the path of a directory just made leads to it, and reading it fails |
| SpaceFsMade.EntryGrowsParent | kernel/fs/spacefs.c:184-222 | an entry added lets the size of its directory grow by 32 and changes no field of another inode |
| SpaceFsMade.WriteMakes | kernel/fs/spacefs.c:321-366 | a write leaves a new file in the lowest free inode, of kind 1 with one link; of an older one only size and blocks change |
| SpaceFsMade.WrittenOctet | kernel/fs/spacefs.c:346-366 | octet i of what was written is octet i mod 512 of the sector in slot i / 512 of the inode |
| SpaceFsMade.ReadSucceedsIff | kernel/fs/spacefs.c:286-293 | a read finds a file exactly where the path leads to an inode of kind 1 |
| SpaceFsDirs.UnlinkKeeps | kernel/fs/spacefs.c:391-421 | unlinking keeps the file system consistent and succeeds exactly when the path exists |
| SpaceFsMade.UnlinkFrees | kernel/fs/spacefs.c:391-405 | an unlink frees exactly the inode and the blocks it held, and no other |
| SpaceFsDirs.UnlinkConsistentIff | kernel/fs/spacefs.c:391-421 | an unlink keeps the file system consistent exactly when the path does not lead to the root |
| SpaceFsDirs.UnlinkThenResolve | kernel/fs/spacefs.c:391-421 | an unlinked path leads nowhere exactly when no other slot of its directory holds the name |
| SpaceFsPaths.OneWay | kernel/fs/spacefs.c:110-165 | two paths to one inode have equally many components |
| SpaceFsDirs.UnlinkLeavesOtherFiles | kernel/fs/spacefs.c:391-421 | after the unlinking of a file or directory a path leads where it led exactly when it does not pass that inode, and a file it leads to reads as before |
| SpaceFsDirs.FormatIsConsistent | kernel/fs/spacefs.c:226-267 | a formatted volume is consistent whatever inodes 1 to 7 hold |
| SpaceFsDirs.FormatMakes | kernel/fs/spacefs.c:226-267 | everything is free but the root, a directory that names nothing, and only paths without a component lead anywhere |
| SpaceFsDirs.RunKeeps | kernel/fs/spacefs.c:310-421 | consistency is kept by every run of writes, mkdirs and unlinks |
| SpaceFsDirs.FormattedRunsAreConsistent | kernel/fs/spacefs.c:226-421 | every state reached from a formatted volume is consistent |
| SpaceFsDirs.ConsistencyMeans | kernel/fs/spacefs.c:72-106 | a block bit is set exactly when one slot of one live inode holds the block; names have at most 27 octets and lead to live inodes, each named at most once; both free counts are right |
| SpaceFsDirs.WriteOverRootBreaks | kernel/fs/spacefs.c:322-366 | one octet written over the root of a new volume leaves it naming a dead inode |
| SpaceFs.Volume.Format | kernel/fs/spacefs.c:226-267 | the disk holds the formatted file system and the copies in memory agree with it |
| SpaceFs.Volume.AllocInode | kernel/fs/spacefs.c:72-83 | the lowest free inode is taken, bitmap and count updated in memory and on disk |
| SpaceFs.Volume.AllocBlock | kernel/fs/spacefs.c:85-97 | the lowest free block is taken, bitmap and count updated in memory and on disk |
| SpaceFs.Volume.FreeBlock | kernel/fs/spacefs.c:99-106 | the block's bit is cleared and the count raised, in memory and on disk |
| SpaceFs.Volume.FindPath | kernel/fs/spacefs.c:110-165 | the token loop resolves a path as the value model does |
| SpaceFs.Volume.DirAddEntry | kernel/fs/spacefs.c:184-222 | the entry goes into the first free slot, in a new block if all are full |
| SpaceFs.Volume.Read | kernel/fs/spacefs.c:286-308 | the octets of the file, at most max |
| SpaceFs.Volume.Write | kernel/fs/spacefs.c:310-366 | disk and result are those of the value model, memory still agreeing with disk |
| SpaceFs.Volume.MkDir | kernel/fs/spacefs.c:368-389 | disk and result are those of the value model, which makes a directory (`SpaceFsMade.MakeDirMakes`), memory still agreeing with disk |
| SpaceFs.Volume.Remove | kernel/fs/spacefs.c:391-421 | disk and result are those of the value model, memory still agreeing with disk |
| FatChains.ChainAcyclic | kernel/fs/fat32.c:83-91 | a chain never returns to a cluster it has passed |
| FatChains.ChainLinks | kernel/fs/fat32.c:83-91 | each entry of a chain is its next cluster, the last one at least 0x0FFFFFF8 |
| FatChains.OctetAlong | kernel/fs/fat32.c:283-309 | which sector of which cluster of the chain an octet read comes from |
| FatChains.ChainExtend | kernel/fs/fat32.c:344-349 | linking a fresh last cluster behind the end of a chain gives the chain one longer |
| FatChains.WriteExtends | kernel/fs/fat32.c:331-370 | from any point of a chain a write keeps what was passed, takes only free clusters, no more than needed, and holds as much of the buffer as fits |
| FatFiles.WriteThenRead | kernel/fs/fat32.c:283-370 | a write succeeds exactly when the chain and the free clusters hold the data, for every size and cluster size; it then reads back, and the free count falls by the clusters added |
| FatFiles.WriteLeavesOtherChains | kernel/fs/fat32.c:331-370 | every chain disjoint from the written one keeps links and data and stays disjoint |
| FatFiles.FreeFrom | kernel/fs/fat32.c:482-488 | the freeing loop ends on every in-range table, cyclic or not, and only clears entries |
| FatFiles.DeleteFrees | kernel/fs/fat32.c:482-488 | on a well-formed chain exactly its clusters are freed, the free count rises by its length, every disjoint chain is intact |
| FatFiles.RunKeepsFiles | kernel/fs/fat32.c:283-499 | over any run of creations, writes and deletions chains stay well-formed and disjoint, no cluster is lost, every file reads back its last contents |
| FatFiles.FilesMean | kernel/fs/fat32.c:283-499 | what that invariant says of any two files |
| FatStore.RunIsLists | kernel/fs/fat32.c:239-499 | after any run of creations, writes and deletions by name, each name holds exactly the contents, in the order in which they are found, that the same calls make of its list: a creation inserts behind the slots in front of it, a write changes the head, a deletion removes it |
| FatStore.RunIsMap | kernel/fs/fat32.c:239-499 | after a run that creates no name a slot answers to, the directory and its files hold exactly what the same calls make of a map from names to contents |
| FatStore.NamedIffFound | kernel/fs/fat32.c:239-278 | a name is found exactly when its list is not empty, and then its first content |
| FatStore.EmptyDirectory | kernel/fs/fat32.c:239-278 | a volume on which only the directory has clusters, all of its slots end markers, is the empty map |
| FatStore.CreateKeeps | kernel/fs/fat32.c:375-448 | a creation reported gives its name one more, empty content at that place, taken name or not; one that fails changes no name |
| FatStore.WriteKeeps | kernel/fs/fat32.c:239-370 | a write to the file a name leads to changes the first content of that name and nothing else |
| FatStore.DeleteKeeps | kernel/fs/fat32.c:453-499 | a deletion takes the first content of the name away, unless it takes a volume label, and changes nothing else |
| FatStore.LookupReads | kernel/fs/fat32.c:239-309 | what a name holds first is what a read along its chain gives |
| FatStore.EntriesLeadIntoTable | kernel/fs/fat32.c:477 | what the freeing loop needs of first clusters and links always holds |
| FatStore.Perform | kernel/fs/fat32.c:239-499 | the driver's create, find and write, and delete, under any name, keep the directory those lists |
| FatLists.AddedContents | kernel/fs/fat32.c:416-444 | creating inserts an empty content into the list of the name and leaves every other list |
| FatLists.StoredContents | kernel/fs/fat32.c:239-278 | another content of the file found changes the head of that list only |
| FatLists.DroppedContents | kernel/fs/fat32.c:464-488 | freeing the slot fat32_delete finds removes the head of that list, unless it is a label, and leaves every other list |
| FatNames.Normalize | kernel/fs/fat32.c:140-157 | the loops compute the eleven octets of a name, upper case and padded, and a NUL |
| FatNames.Reconstruct | kernel/fs/fat32.c:116-135 | the loops compute the readable name of an entry and a NUL |
| FatNames.NormalOfReadable | kernel/fs/fat32.c:116-157 | normalising the readable name gives the entry's name back exactly for upper-case, NUL-free, padded fields without a dot in the base |
| FatNames.SameNormalIff | kernel/fs/fat32.c:140-157 | two short names are looked up by the same eleven octets exactly when they are one name, whatever the case of its letters |
| FatNames.NormalIsUpper | kernel/fs/fat32.c:140-157 | no lower-case letter is left in the eleven octets |
| FatNames.NormalOfKernel | kernel/fs/fat32.c:140-157 | "kernel.c" is looked up as "KERNEL  C  " |
| FatDirs.AddThenFind | kernel/fs/fat32.c:239-278 | a created entry is the one found exactly when the directory had room and no slot in front of it has the name; else the name leads where it led |
| FatDirs.FoundOctets | kernel/fs/fat32.c:239-278 | the search finds the first slot in use of that name, and reports the directory bit 0x10 and cluster and size by their octets |
| FatDirs.HitsIff | kernel/fs/fat32.c:252-264 | a slot answers to a name without NUL exactly when it is in use, no part of a long name, no label (0x08), and its first eleven octets are the name |
| FatDirs.SlotOctets | kernel/fs/fat32.c:41-55 | attribute bits, cluster in two halves and size of a slot by its octets |
| FatDirs.NewSlotOctets | kernel/fs/fat32.c:427-435 | the 32 octets of a new slot |
| FatDirs.AddKeepsOthers | kernel/fs/fat32.c:416-444 | under the end marker convention creating leaves every other name's result alone |
| FatDirs.AddKeepsOtherIff | kernel/fs/fat32.c:416-444 | creating leaves the search for another name alone exactly when it uses up no end marker that stopped that search in front of a slot with the name |
| FatDirs.AddKeepsEnd | kernel/fs/fat32.c:427-435 | creating keeps the end marker convention |
| FatDirs.AddKeepsUnique | kernel/fs/fat32.c:427-435 | creating a name no slot answers to keeps names unique |
| FatDirs.StaleSlotReturns | kernel/fs/fat32.c:427-435 | without the convention creating can bring a stale entry back: a concrete directory |
| FatDirs.DropThenFind | kernel/fs/fat32.c:453-499 | after a deletion the name is not found exactly when every visible slot of that name was the one deleted |
| FatDirs.DropThenGone | kernel/fs/fat32.c:453-499 | with unique names, labels included, a deleted name is not found |
| FatDirs.LabelDeletedInstead | kernel/fs/fat32.c:464-480 | a concrete directory in which deletion takes a volume label and the file is still found |
| FatDirs.DropKeeps | kernel/fs/fat32.c:479-480 | deleting keeps the end marker convention and unique names |
| FatDirs.DropKeepsOthers | kernel/fs/fat32.c:453-499 | deleting leaves every other name's result alone, in any directory |
| FatDirScan.PlaceStored | kernel/fs/fat32.c:421-438 | storing one slot of one sector changes that slot of the directory and no other |
| Fat32.EntryStored | kernel/fs/fat32.c:94-113 | rewriting four octets of a sector changes that entry of the table and nothing else |
| Fat32.SectorStored | kernel/fs/fat32.c:78-80 | writing a sector of a cluster changes that sector of that cluster and nothing else |
| Fat32.ViewInSectors | kernel/fs/fat32.c:77-91 | the entry of cluster c is the low 28 bits of the word at octet 4 * c of the table; its sectors begin at data_lba + (c - 2) * spc |
| Fat32.Driver.ReadFat | kernel/fs/fat32.c:83-91 | the low 28 bits of the entry |
| Fat32.Driver.WriteFatEntry | kernel/fs/fat32.c:94-113 | the table with that entry replaced, its top four bits cleared |
| Fat32.Driver.AllocCluster | kernel/fs/fat32.c:314-326 | the lowest free cluster, marked with 0x0FFFFFFF, or 0 and no change |
| Fat32.Driver.WriteFile | kernel/fs/fat32.c:331-370 | drive and result, as a signed number, are those of the write on values, along any links that stay in the table, cyclic or not |
| Fat32.Driver.Read | kernel/fs/fat32.c:283-309 | the octets along the links, at most those asked for, and nothing written beyond them |
| FatChains.ReadFromChain | kernel/fs/fat32.c:283-309 | along a well-formed chain these are the octets of its clusters |
| Fat32Dirs.Find | kernel/fs/fat32.c:239-278 | the result of the search in the directory laid out over its chain |
| Fat32Dirs.Create | kernel/fs/fat32.c:375-448 | the lowest free cluster is claimed and initialised (what a search in it finds: `Fat32Dirs.NewClusterFinds`), the entry stored in the first vacant slot, everything else untouched; a full directory keeps the cluster and reports 0 |
| Fat32Dirs.CreatedIsFound | kernel/fs/fat32.c:239-448 | what was created is found with the cluster reported exactly when no slot in front of it has the name; else the name leads where it led |
| Fat32Dirs.NewClusterFinds | kernel/fs/fat32.c:386-414 | in a directory just made "." leads to itself, ".." to its parent, every other name nowhere; in the cluster of a new file nothing is found |
| Fat32Dirs.Delete | kernel/fs/fat32.c:453-499 | the entry is marked, its chain freed, everything outside the directory's own clusters untouched; -1 and no change when nothing answers |
| Fat32Dirs.FreeClusters | kernel/fs/fat32.c:482-488 | the freeing loop ends and leaves the table of the value model |
| Heap.TakeKeeps | kernel/mem/kheap.c:89-104 | an allocation keeps the blocks tiling the region with no two free neighbours |
| Heap.TakeAdds | kernel/mem/kheap.c:89-108 | an allocation adds one region in use, of the rounded size or, when a rest of fewer than 17 octets would be left, of the whole block, and moves none |
| Heap.ReleaseKeeps | kernel/mem/kheap.c:116-135 | a free keeps the blocks tiling the region with no two free neighbours |
| Heap.ReleaseRemoves | kernel/mem/kheap.c:116-135 | a free takes exactly that region out of use |
| Heap.CoalesceJoins | kernel/mem/kheap.c:125-134 | one pass joins all free neighbours and keeps the extent |
| Heap.TakeThenRelease | kernel/mem/kheap.c:79-135 | allocating and freeing at once restores the very layout |
| Heap.NothingUsedIsInitial | kernel/mem/kheap.c:69-135 | with nothing in use the heap is the single free block it began as |
| Heap.FirstRequest | kernel/mem/kheap.c:69-114 | the first request of a new heap gets the block at 0x300009, and the rest of the 262144 octets stays one free block |
| Heap.UsedApart | kernel/mem/kheap.c:79-135 | regions in use do not overlap, headers included |
| Heap.UsedWithin | kernel/mem/kheap.c:79-135 | regions in use lie in the heap |
| Heap.RoundedHolds | kernel/mem/kheap.c:83 | the rounded size holds the request exactly when it is at most 2^32 - 4 |
| Heap.TakenHolds | kernel/mem/kheap.c:79-114 | the block handed out holds the request exactly when it is at most 2^32 - 4; for larger requests it has fewer than seventeen octets |
| Heap.WritesMissHeaders | kernel/mem/kheap.c:79-114 | no octet of a region is one of a header |
| Heap.RunKeepsTiling | kernel/mem/kheap.c:69-135 | after any run of calls the blocks tile the heap without free neighbours, and everything freed gives back the initial block |
| Heap.SegTake | kernel/mem/kheap.c:93-104 | the header writes of an allocation describe the split blocks |
| Heap.SegJoin | kernel/mem/kheap.c:127-130 | the header writes of a join describe the joined blocks |
| Heap.Kheap.Init | kernel/mem/kheap.c:69-78 | one free block of the whole region |
| Heap.Kheap.Kmalloc | kernel/mem/kheap.c:79-114 | the first fit is taken, split or whole; 0 exactly for an empty request, before initialisation, or when no free block fits |
| Heap.Kheap.Kfree | kernel/mem/kheap.c:116-135 | the block is released and all free neighbours joined |
| Slab.MaskFindsPage | kernel/mem/slab.c:109-111 | masking a pointer to any slot gives the page that holds it |
| Slab.SlotsDisjoint | kernel/mem/slab.c:34-52 | slots of a cache overlap neither each other nor a header |
| Slab.SlotsFillPage | kernel/mem/slab.c:34-52 | the slots begin twelve octets into the page, follow each other, and there are as many as fit |
| Slab.TakeKeeps | kernel/mem/slab.c:98-103 | taking a slot makes exactly that slot live, and it was not |
| Slab.GiveKeeps | kernel/mem/slab.c:113-117 | returning a slot makes exactly that slot free |
| Slab.TakeThenGive | kernel/mem/slab.c:98-117 | allocating and freeing at once restores the free list |
| Slab.GiveThenTake | kernel/mem/slab.c:98-117 | what went back comes out next |
| Slab.PopKeeps | kernel/mem/slab.c:98-103 | the header writes of an allocation keep every free list threaded and every count right |
| Slab.PushKeeps | kernel/mem/slab.c:113-117 | the word and header writes of a free keep every free list threaded and every count right |
| Slab.AddKeeps | kernel/mem/slab.c:89-96 | a new page in front leaves the free lists of the others |
| Slab.ObjectWritesKeep | kernel/mem/slab.c:79-119 | whatever octets a caller writes to a live object, the links of the free lists stay in memory |
| Slab.RunKeepsSound | kernel/mem/slab.c:79-119 | in every interleaving the objects out are exactly those on no free list, so none is handed out twice |
| Slab.Cache.constructor | kernel/mem/slab.c:58-77 | a cache of the rounded size with one page, or none |
| Slab.Cache.NewSlab | kernel/mem/slab.c:25-56 | the slots of the page threaded in order, the count right, nothing outside the page written |
| Slab.LoopBoundWraps | kernel/mem/slab.c:36-54 | the loop bound is one less than the number of slots exactly for objects a page can hold |
| Slab.Cache.Alloc | kernel/mem/slab.c:79-104 | a slot of the first page that has one, else of a new page in front; 0 exactly when there is neither |
| Slab.Cache.Free | kernel/mem/slab.c:106-119 | the slot is in front of the free list of its page |
| Pmm.Allocator.MarkUsed | kernel/mem/pmm.c:34-44 | exactly the pages the range touches, below the total, are marked, and the count follows |
| Pmm.Allocator.MarkFree | kernel/mem/pmm.c:46-56 | exactly the pages from the start's to the last whole one, below the total, are cleared, and the count follows |
| Pmm.Allocator.CountDown | kernel/mem/pmm.c:39-42 | marking a clear page lowers the count by one: the guard on it never fails |
| Pmm.Allocator.Init | kernel/mem/pmm.c:60-102 | a page is used exactly when it is in the first megabyte, the kernel or the bitmap, or no region of the memory map offers it; nothing is out, and the reserved pages are those runs keep |
| Pmm.ReservedMeans | kernel/mem/pmm.c:90-93 | in addresses: the pages kept back are those that touch the first megabyte, the kernel up to a page behind its end, or the bitmap |
| Pmm.OffersMeans | kernel/mem/pmm.c:46-83 | in addresses: a region makes free the pages that end in it, each of them a part of it as a whole unless it begins in the middle of that page |
| Pmm.Allocator.Alloc | kernel/mem/pmm.c:105-115 | the lowest clear page, or 0 and no change |
| Pmm.Allocator.Free | kernel/mem/pmm.c:117-123 | the page is clear, the count right |
| Pmm.RunKeepsReserved | kernel/mem/pmm.c:60-123 | in every run in which callers free what they got, reserved pages are never issued and stay used |
| Pmm.TakeIsFresh | kernel/mem/pmm.c:105-115 | the page issued is the lowest clear one, neither out nor reserved |
| Paging.MapThenTranslate | kernel/mem/paging.c:40-57 | the page leads to the frame with the flags; every other page leads where it led, except its twin through the shared table |
| Paging.MapKeeps | kernel/mem/paging.c:40-57 | distinct directory entries other than 0 and 768 never come to share a table |
| Paging.NewTableIs | kernel/mem/paging.c:44-56 | a missing table is made with its entry present and writable, all its other entries zero, and nothing else changes |
| Paging.UserMappingIff | kernel/mem/paging.c:40-62 | a page mapped for user code is open to it exactly when its directory entry was present and had the user bit |
| Paging.RunNeverUser | kernel/mem/paging.c:12-66 | from directory entries without the user bit no run of mappings opens any page to user code |
| Paging.EntryIsMasked | kernel/mem/paging.c:56 | the masks and ors of an entry as arithmetic, for all addresses and flags |
| Paging.Pager.constructor | kernel/mem/paging.c:12-28 | the first 64 MB lead to themselves, the 4 MB at 3 GB to the first 4 MB, everything else faults, and no directory entry has the user bit |
| Paging.Pager.Map | kernel/mem/paging.c:40-57 | directory and tables are those of the mapping on values |
| Sched.TickKeepsOne | kernel/proc/sched.c:60-90 | a tick keeps at most one process running, the current one, and wakes no dead or blocked one |
| Sched.RunKeepsOne | kernel/proc/sched.c:60-90 | the same over any run; a dead process that is not current never is again |
| Sched.TickSaves | kernel/proc/sched.c:67-89 | a tick saves the interrupted stack pointer in its own block only and returns that of the process to run |
| Sched.ResumedWithSavedEsp | kernel/proc/sched.c:60-90 | a preempted process, however long it waits, is resumed with exactly the stack pointer saved |
| SchedShares.PickIsNextHolder | kernel/proc/sched.c:31-46 | the scan stops at the next holder of credits in queue order |
| SchedShares.SteadyTick | kernel/proc/sched.c:60-90 | every tick moves the wheel of credits on by one and leaves what each process holds |
| SchedShares.SteadySwitch | kernel/proc/sched.c:76-89 | at the last credit the next holder in queue order gets all of its own |
| SchedShares.ExactShares | kernel/proc/sched.c:60-98 | every turn of as many ticks as there are credits, from any phase, gives each process exactly its credits and returns to where it was |
| SchedShares.InitIsSteady | kernel/proc/sched.c:93-98 | after sched_init those credits are 3, 2 or 1 by priority |
| SchedShares.LastCreditRenews | kernel/proc/sched.c:48-90 | when the last credit is spent and the scan finds no holder, every ready or running process gets 3, 2 or 1 credits and the first ready one runs; without one the current goes on |
| SchedShares.LastCreditHands | kernel/proc/sched.c:31-46 | when the scan finds a holder, the first one in queue order from behind the current process runs with all it holds, and no credits change |
| SchedShares.RenewedIsSteady | kernel/proc/sched.c:48-90 | a renewal begins turns of exact shares: each process that was ready or running gets its 3, 2 or 1 ticks |
| SchedShares.RunCounts | kernel/proc/sched.c:60-65 | over any run the counter counts the ticks modulo 2^32 |
| SchedQueue.Scheduler.Append | kernel/proc/processo.c:23-33 | the process is linked at the end, or becomes the head of an empty queue; the others and the current one stay |
| SchedQueue.Scheduler.ProcInit | kernel/proc/processo.c:35-54 | one running process, number 0, current |
| SchedQueue.Scheduler.ProcCreate | kernel/proc/processo.c:56-94 | a ready process with the next number at the end of the queue, empty or not |
| SchedQueue.Scheduler.ProcExit | kernel/proc/processo.c:97-103 | the current process is dead, nothing else changes |
| SchedQueue.Scheduler.Refill | kernel/proc/sched.c:16-28 | credits of all ready and running processes are renewed by priority |
| SchedQueue.Scheduler.ChooseNext | kernel/proc/sched.c:31-58 | the walks over the linked queue make the choice of the model, with the renewal of `SchedShares.LastCreditRenews` |
| SchedQueue.Scheduler.SchedTick | kernel/proc/sched.c:60-90 | the linked blocks and the result are those of one tick of the model, which `SchedShares.LastCreditRenews` and `SchedShares.LastCreditHands` describe at the last credit |
| SchedQueue.Scheduler.SchedInit | kernel/proc/sched.c:93-98 | the linked blocks are those of the initialisation of the model |
| Djb2.Checksum | kernel/pkg/pkg_checksum.c:7-12 | the C loop computes the hash |
| Djb2.PackerChecksum | mkspk.py:31-36 | the Python loop computes the same hash |
| Djb2.KnownHashes | kernel/pkg/pkg_checksum.c:7-12 | the checksums of nothing and of "hello world" |
| Djb2.OneOctetShows | kernel/pkg/pkg_checksum.c:7-12 | the change of one octet, anywhere, always changes the checksum |
| Spk.PackedInstalls | mkspk.py:80-139 | what the packer writes passes every check of the installer, and record i yields path i and exactly the content of file i |
| Spk.FrontReadsBack | mkspk.py:105-114 | signature, name, version, author and dependencies are read back from where the header of the kernel has them |
| Spk.RecordInOctets | mkspk.py:122-132 | path, size, offset and executable flag of record i, at octet 392 + 73 * i |
| Spk.ExecutableIff | mkspk.py:128-130 | the flag is 0 exactly for the extensions txt, cfg, lst and md |
| Spk.AcceptableIff | kernel/pkg/pkg_install.c:48-97 | which packages pass, by their octets: size, signature, one to eight files, the sum of the sizes in 32 bits, and the checksum |
| Spk.CorruptionIsRefused | kernel/pkg/pkg_install.c:91-97 | a package whose payload lies in the file is refused after any change of one octet of the payload |
| Spk.RecordPassesIff | kernel/pkg/pkg_install.c:123-126 | a record passes exactly when its offset and size, added in 32 bits, do not exceed the payload |
| Spk.InsideIff | kernel/pkg/pkg_install.c:123-128 | a record that passes lies in the payload exactly when its sum does not wrap around; what is written is that part of the payload then |
| Spk.FramedIff | kernel/pkg/pkg_install.c:86-92 | a header that passes describes a payload in the file exactly when its sum does not wrap around |
| Spk.WrappingRecordPasses | kernel/pkg/pkg_install.c:123-128 | a package that passes every check with a record outside its payload |
| Spk.PayloadTiles | mkspk.py:86-95 | the contents tile the payload in order, each at its offset |
| SpkTools.Pack | mkspk.py:47-139 | the octets written for any files and dependencies, and the two refusals |
| SpkTools.Installer.Install | kernel/pkg/pkg_install.c:37-173 | which packages are refused, sums taken in 32 bits; what a complete installation leaves, and what a rollback leaves |
| SpkTools.CompletesIff | kernel/pkg/pkg_install.c:119-173 | an installation goes through exactly when every record passes, every file can be written and the database takes the entry |
| SpkTools.InstallAfterPack | kernel/pkg/pkg_install.c:67-148 | installing what was packed puts every file at its path exactly when no two files have one path and different contents; other paths keep what they had |
| SpkTools.PlacedLast | kernel/pkg/pkg_install.c:119-148 | the last file of a path is what the path holds |
| SpkTools.WrappingInstalls | kernel/pkg/pkg_install.c:123-148 | a package with a wrapping record installs, and its file holds an octet from outside the payload |
| SpkTools.RollbackRestores | kernel/pkg/pkg_install.c:37-173 | a failed installation leaves the file system as it was exactly when none of the paths it wrote existed |
| SpkTools.RollbackDestroys | kernel/pkg/pkg_install.c:166-172 | a package and a file system that loses a file to a failed installation |
| Ipv4.IpChecksum | kernel/net/ipv4.c:23-35 | the complement of the one's complement sum, without 32-bit overflow up to 131074 octets |
| Ipv4.FoldStep | kernel/net/ipv4.c:32-33 | folding a carry keeps the sum modulo 65535 and never makes it vanish |
| Ipv4.PassesIff | kernel/net/ipv4.c:99 | the receiver's check passes exactly when the sum is a positive multiple of 65535 |
| Ipv4.StoredPasses | kernel/net/ipv4.c:51-55 | for every data, storing the checksum computed over a zero field makes the receiver's checksum zero |
| Ipv4.OneWordChange | kernel/net/ipv4.c:99 | a change of one word goes unnoticed exactly when it turns 0 into 0xFFFF, or 0xFFFF into 0 while another word is not 0 |
| Ipv4.CorruptedIsDropped | kernel/net/ipv4.c:94-106 | a header that is delivered is dropped after the change of any one of its words, but for 0 and 0xFFFF |
| Ipv4.OddIsPadded | kernel/net/ipv4.c:30-31 | a last odd octet counts as if a zero stood behind it |
| Ipv4.SumOfRfc | kernel/net/ipv4.c:23-35 | the sum of the octets of section 3 of RFC 1071 is the one computed there, its octets swapped |
| Ipv4.Sender.Send | kernel/net/ipv4.c:39-57 | what is sent is delivered by every host that should take it, with sender and protocol, and dropped by all others; every field of its header by its octets, and the payload |
| Ipv4.Sender.FillHeader | kernel/net/ipv4.c:43-53 | the fields of the header, octet by octet, are those of the IPv4 header |
| Ipv4.HtonsStores | kernel/net/net_util.h:12-14 | a 16-bit word converted and stored least significant octet first stands most significant octet first |
| Ipv4.HtonlStores | kernel/net/net_util.h:17-22 | the same of a 32-bit word |
| Ipv4.SentIsReceived | kernel/net/ipv4.c:43-106 | what ip_send builds is delivered to its destination with the sender's address and dropped by other hosts |

## Left out

- Hardware and user interface: ports, memory-mapped I/O, DMA, PCI, ACPI, interrupts, USB, audio, network card, keyboard, shell, assembly.
- I/O errors: sector reads and writes inside the drive succeed; the branches for failed reads and writes are not modelled.
- The locks (`sched_lock`) and several processors: a tick is one step.
- SpaceFS: the octet encodings of superblock, bitmaps and inode table (the copies on disk and in memory are values; directory blocks and data are octets), and the clock behind `mtime` (a parameter).
- SpaceFs.Volume.Write: its sector writes are not interleaved with the journal; that each journalled sector write is crash safe is proved in `JournalCrash` alone. Writing a whole file is not crash-atomic in the source (blocks are freed on disk before the inode drops them, spacefs.c:327-332, and the bitmaps are read before recovery, spacefs.c:274-278), so nothing is claimed about it.
- SpaceFS: paths of more than 127 octets are excluded for writing and mkdir, as `path_split` then indexes behind its buffer; so are writes over a directory and unlinking the root (see `SpaceFsDirs.WriteOverRootBreaks` and `SpaceFsDirs.UnlinkConsistentIff`), and directories whose recorded size would pass 2^32. Unlinking a directory that is not empty leaves its children unnamed, as in the source.
- The checksum of journal entries: the source stores it and recovery never looks at it; the model does the same.
- `Ipv4.Sender.Send`, `Spk.PackedInstalls` and the directory results speak of octets handed over unchanged; routing, ARP, the network card and `kernel/fs/vfs.c` are not part of this model.
- FAT32: the readable name `fat32_find` copies out (`FatNames.Reconstruct`) is not part of its result; tables with links outside the table are excluded, for reading also links to cluster 0; directories occupy well-formed chains. `fat32_init`, `fat32_readdir` and `fat32_rename` are not modelled, and the driver keeps only the first copy of the table.
- Fat32Dirs.Delete: entries whose first cluster lies outside the table are excluded; the source would clear octets of data sectors as if they were entries of the table.
- FatStore.RunIsMap: creations under a name that a slot answers to are excluded, as a map has no place for the second; `FatStore.RunIsLists` has them.
- SpaceTLS handshake and records, TCP, DHCP, DNS, UDP and the ARP cache.
- Aead.SealInto: the upper four octets of each stored length come from shifts by 32 and more, which C leaves undefined; they are an arbitrary function, the same for sealing and opening.
- Sha256Context.Context.Update: messages of 2^61 octets and more, whose length in bits leaves 64 bits, are excluded.
- Heap: that the heap and the page allocator use different memory, and the alignment of pointers, are not claimed; freeing a pointer that is not in use is excluded.
- Slab.Cache.constructor: objects above 4084 octets are excluded: the source then writes links all over memory (`Slab.LoopBoundWraps`); the cache structure's own `kmalloc` succeeds.
- Slab.Cache.Alloc: which page `pmm_alloc` gives out is a parameter, fresh and aligned.
- Pmm.Allocator.Init: memory ranges that wrap around 32 bits are excluded; the walk over the multiboot map is a sequence of entries.
- Paging.Pager.Map: which page `pmm_alloc` gives out is a parameter, fresh and aligned; loading CR3 and the TLB are left out.
- Scheduler: the contents of `proc_criar`'s stack, `proc_fork`, `proc_exec`, identities and names; a new process's credits are a parameter because the source does not set them.
- SpkTools.Installer.Install: directories made on the way, the package database and messages are left out (whether the database takes the entry is a parameter); memory outside the file is taken to stay the same during the call; paths that do not end inside their field of an accepted package are excluded.
- SpkTools.Pack: reading the manifest and the files; payloads of 2^32 octets and more, for which Python raises an error.
- The network, dependency resolution and removal of packages.
