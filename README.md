# SistemaDeArquivos in Dafny

A model of the core of SistemaDeArquivos, a small FAT-style volume written in C++. The
volume has four parts:

- a boot record that derives the geometry from the volume size;
- a file allocation table of 16-bit entries (FREE, end-of-chain, or the next cluster of a file);
- a flat root directory of 32-byte slots;
- a data area cut into clusters.

A `FileSystem` object formats the volume, copies files in and out, lists them and removes
them. Each C++ manager becomes a Dafny `class` whose fields the methods update in place.
The loops of the source stay `while` loops, proved against specification functions.

| file | module | models |
|---|---|---|
| `common.dfy` | `Common` | `uint8_t`/`uint16_t`/`uint32_t`, `memcpy`/`memset` effects on byte sequences |
| `fat.dfy` | `Fat` | `FATManager`: first-fit allocation, chain linking, chain freeing |
| `root_directory.dfy` | `RootDirectory` | `RootDirectoryManager`: `strncpy`/`strncmp` over 16-byte names, first-empty insert, first-match lookup and removal, listing |
| `data_area.dfy` | `DataArea` | `DataAreaManager`: a byte `array`, cluster reads and writes with their out-of-range policies |
| `boot_record.dfy` | `BootRecord` | `BootRecordManager::format` geometry in 32- and 16-bit arithmetic, region offsets |
| `file_system.dfy` | `FileSystem` | `FileSystem`: format, copy in, copy out, list, remove |

How the source is represented:

- A host file is a `seq<bv8>`: it is the input of `CopyToSystem` and the result of `CopyFromSystem`.
- A file name is a `seq<char>` in which every `char` stands for one byte of the `std::string`.
- The clock reading that `addFile` takes from `time(nullptr)` is the parameter `now`.
- `findFile`'s pointer into the slot vector is a slot index (`Option<nat>`).
- `listFiles` returns the slots it would print.

The central invariant, `FileSystem.Consistent`, holds for every formatted volume. It states three things:

- every occupied slot owns a chain of the table, starting at the slot's first cluster;
- a chain's links go strictly upwards and its last entry is EOF;
- no two files share a cluster.

Every operation preserves it. From it follow:

- every walk along a file's chain terminates;
- a file copied in is read back byte for byte;
- copying in or removing one file leaves what every other file reads unchanged.

Three behaviours of the code are modelled as written:

- `format` never rejects a geometry: it always returns true, and the data-sector subtraction wraps in `uint32_t` (`BootRecord.DataSectorsWrap`).
- Names may be empty. Such a name leaves its slot looking empty (`RootDirectory.EmptyNameLeavesSlotEmpty`).
- Duplicate names are accepted (`RootDirectory.DuplicatesCoexist`).

Two operations differ from the code. Each is listed under "## Findings":

- the model's `FileSystem` rejects the empty name in copy-out and remove;
- it refuses an empty file in copy-in.

`FileSystem.Format` counts clusters as the code does, without setting the FAT's own sectors
aside, so its data area can run past the volume. "## Findings" also lists this, with the
corrected count proved separately (`BootRecord.CorrectedLayoutFits`).

A `copyToSystem` under the empty name is modelled as written: the file is stored in a slot
that still reads as empty, so its clusters stay allocated with no file owning them.

## Model

| member | source | states |
|---|---|---|
| Fat.FatManager.constructor | SistemaDeArquivos/FAT.cpp:5-7 | The table has `clusterCount` entries, all FREE. |
| Fat.FatManager.Initialize | SistemaDeArquivos/FAT.cpp:10-14 | Every entry becomes FREE and the table keeps its size. |
| Fat.FreeFromIsFreeClusters | SistemaDeArquivos/FAT.cpp:21-25 | The ascending scan from an index collects every FREE cluster at or above it and nothing else, in strictly ascending order. |
| Fat.FatManager.FindFree | SistemaDeArquivos/FAT.cpp:21-25 | The scan loop stops after `n` finds or at the end of the table, holding the first `min(n, #FREE)` FREE clusters. |
| Fat.FirstFitIsLowest | SistemaDeArquivos/FAT.cpp:21-25 | The `n` clusters chosen are FREE, strictly ascending and inside the table; every FREE cluster left out lies above all of them (first fit). |
| Fat.LinkChainMakesChain | SistemaDeArquivos/FAT.cpp:34-40 | Linking ascending clusters makes each entry point to the next and the last hold EOF; no other entry changes. |
| Fat.FatManager.LinkClusters | SistemaDeArquivos/FAT.cpp:34-40 | The linking loop and the EOF store leave the table as `LinkChain` of the old table. |
| Fat.FatManager.AllocateClusters | SistemaDeArquivos/FAT.cpp:17-43 | All or nothing. With fewer than `n` FREE clusters it returns none and changes nothing. Otherwise it returns the `n` lowest FREE clusters, now a chain ending in EOF, and every other entry is unchanged. |
| Fat.LinkLoopBoundExact | SistemaDeArquivos/FAT.cpp:34 | With at least one cluster found, the `size_t` bound `size() - 1` is the number of links. |
| Fat.ZeroRequestOverruns | SistemaDeArquivos/FAT.cpp:21-36 | `allocateClusters(0)`: nothing is found, the shortage check passes, and the linking loop's bound wraps to `2^64 - 1`, so its first turn reads index 0 of an empty vector. |
| Fat.WalkShape | SistemaDeArquivos/FAT.cpp:47-52 | A completed walk visits clusters inside the table, each linked to the next, and stops exactly where the `freeClusters` loop stops (EOF or an index past the table). |
| Fat.ChainWalkEnds | SistemaDeArquivos/FAT.cpp:46-53 | The walk from the head of any chain ends within `clusterCount` steps, visits exactly the chain's clusters, and never revisits one. |
| Fat.AllocatedChainEnds | SistemaDeArquivos/FAT.cpp:34-40 | The chain `allocateClusters(n)` builds is a chain, and the walk from its first cluster visits exactly it and ends. |
| Fat.FatManager.FreeClusters | SistemaDeArquivos/FAT.cpp:46-53 | For a walk that ends, every cluster it visits becomes FREE and every other entry is unchanged. |
| Fat.AllocateThenFreeRestores | SistemaDeArquivos/FAT.cpp:17-53 | `allocateClusters(n)` followed by `freeClusters` on its first cluster gives back the original table exactly. |
| Fat.ChainNotFree | SistemaDeArquivos/FAT.cpp:34-40 | No entry of a chain is FREE, because links go strictly upwards. |
| Fat.ChainSurvives | SistemaDeArquivos/FAT.cpp:34-40 | A chain stays a chain under any change that leaves its own entries alone. |
| Fat.FreeZeroNeverEnds | SistemaDeArquivos/FAT.cpp:48-51 | From cluster 0 holding FREE, the walk of `freeClusters` never ends, whatever the step budget. |
| Fat.FatManager.GetNextCluster | SistemaDeArquivos/FAT.cpp:56-61 | It returns the entry for an index inside the table and EOF for one past it. |
| Fat.FatManager.SetNextCluster | SistemaDeArquivos/FAT.cpp:64-68 | It changes exactly the entry of an index inside the table; an index past it changes nothing. |
| Fat.FatManager.GetClusterCount | SistemaDeArquivos/FAT.cpp:83-85 | It returns the number of entries. |
| RootDirectory.RootDirectoryManager.constructor | SistemaDeArquivos/RootDirectory.cpp:7-10 | There are `entryCount` slots, all cleared. |
| RootDirectory.RootDirectoryManager.Initialize | SistemaDeArquivos/RootDirectory.cpp:13-17 | Every slot is cleared and the count is kept. |
| RootDirectory.ZeroedMatchesOnlyEmptyName | SistemaDeArquivos/RootDirectory.cpp:41-44 | A cleared slot is empty; the 16-byte `strncmp` matches it exactly when the name is empty. |
| RootDirectory.StrncmpEqualIff | SistemaDeArquivos/RootDirectory.cpp:70 | `strncmp(a, b, n) == 0` exactly when the two C strings agree on their first `n` characters (both directions). |
| RootDirectory.StoredNameIsTruncated | SistemaDeArquivos/RootDirectory.cpp:25-26 | The stored name field has 16 bytes, and its C string is the argument's C string cut to 15 characters. |
| RootDirectory.NewEntryMatchesIff | SistemaDeArquivos/RootDirectory.cpp:25-26 | A stored entry matches a query exactly when the query's first 16 characters equal the stored name. |
| RootDirectory.ShortNameMatchesItself | SistemaDeArquivos/RootDirectory.cpp:25-26 | A 1- to 15-character name without NUL is found again by its own spelling, and its slot is occupied. |
| RootDirectory.LongNameNotFound | SistemaDeArquivos/RootDirectory.cpp:25-26 | A name of 16 or more characters is stored truncated and is not found by its own spelling. |
| RootDirectory.EmptyNameLeavesSlotEmpty | SistemaDeArquivos/RootDirectory.cpp:23-26 | `addFile("")` writes NUL as the first character, so the slot still reads as empty. |
| RootDirectory.FirstEmpty | SistemaDeArquivos/RootDirectory.cpp:22-23 | The slot `addFile` fills is empty, and every slot before it is occupied; `None` means no slot is empty. |
| RootDirectory.FirstMatch | SistemaDeArquivos/RootDirectory.cpp:68-75 | The slot found matches under the 16-byte `strncmp`, and no earlier slot does; `None` means no slot matches. |
| RootDirectory.RootDirectoryManager.AddFile | SistemaDeArquivos/RootDirectory.cpp:20-36 | It succeeds exactly when some slot is empty. It fills the first empty slot and no other with the truncated name, size, first cluster, attribute 0x20 and `now` as both times. Otherwise nothing changes. |
| RootDirectory.AddThenFind | SistemaDeArquivos/RootDirectory.cpp:20-36 | After adding a short name no slot matched, the lookup finds the slot just filled. |
| RootDirectory.DuplicatesCoexist | SistemaDeArquivos/RootDirectory.cpp:20-36 | Adding a name already present succeeds when a slot is empty, and afterwards two distinct slots match it. |
| RootDirectory.RootDirectoryManager.RemoveFile | SistemaDeArquivos/RootDirectory.cpp:39-48 | It succeeds exactly when a slot matches, and clears the first matching slot and no other; otherwise nothing changes. |
| RootDirectory.RemoveThenNotFound | SistemaDeArquivos/RootDirectory.cpp:39-48 | Removing a non-empty name held by one slot leaves no slot matching it. |
| RootDirectory.ListedIsOccupied | SistemaDeArquivos/RootDirectory.cpp:51-65 | Exactly the occupied slots are listed (both directions), and the list is empty exactly when every slot is empty. |
| RootDirectory.RootDirectoryManager.ListFiles | SistemaDeArquivos/RootDirectory.cpp:51-65 | The loop returns the occupied slots in slot order. |
| RootDirectory.RootDirectoryManager.FindFile | SistemaDeArquivos/RootDirectory.cpp:68-75 | It returns the first slot matching under the 16-byte `strncmp`, or `None` when no slot matches. |
| RootDirectory.MatchedSlotOccupied | SistemaDeArquivos/RootDirectory.cpp:68-75 | Only an occupied slot matches a non-empty name. |
| RootDirectory.EmptyNameMatchesEmptySlot | SistemaDeArquivos/RootDirectory.cpp:70 | The empty name matches a slot exactly when the slot is empty. |
| RootDirectory.EmptyNameFindsFirstEmpty | SistemaDeArquivos/RootDirectory.cpp:68-75 | `findFile("")` returns the first empty slot. |
| DataArea.DataAreaManager.constructor | SistemaDeArquivos/DataArea.cpp:5-9 | The area has `clusterSize * clusterCount` bytes, all zero, and the sizes are kept. |
| DataArea.ClusterStartIsProduct | SistemaDeArquivos/DataArea.cpp:16 | Cluster `c` starts at byte `c * clusterSize`. |
| DataArea.ClustersDisjoint | SistemaDeArquivos/DataArea.cpp:16-18 | Different clusters occupy disjoint byte ranges. |
| DataArea.ClusterInArea | SistemaDeArquivos/DataArea.cpp:13-18 | Every cluster below `clusterCount` lies inside the area. |
| DataArea.StoreBytes | SistemaDeArquivos/DataArea.cpp:18 | The `memcpy` into the area replaces exactly the target range. |
| DataArea.CopyBytes | SistemaDeArquivos/DataArea.cpp:29 | The `memcpy` out of the area replaces exactly the target range of the buffer. |
| DataArea.FillZero | SistemaDeArquivos/DataArea.cpp:24 | The `memset` zeroes exactly the target range of the buffer. |
| DataArea.DataAreaManager.WriteData | SistemaDeArquivos/DataArea.cpp:12-19 | An index past the last cluster changes nothing. Otherwise the first `min(size, clusterSize)` bytes go to the cluster's start, and every other byte is unchanged. |
| DataArea.DataAreaManager.ReadData | SistemaDeArquivos/DataArea.cpp:22-30 | An index past the last cluster zero-fills `size` bytes of the buffer. Otherwise it copies `min(size, clusterSize)` bytes of the cluster. Other buffer bytes and the area are untouched. |
| DataArea.WriteThenRead | SistemaDeArquivos/DataArea.cpp:12-30 | Reading back `k <= clusterSize` bytes just written to a cluster yields those bytes. |
| DataArea.WritesDoNotInterfere | SistemaDeArquivos/DataArea.cpp:12-30 | A write to one cluster leaves what any other cluster reads unchanged. |
| DataArea.DataAreaManager.GetClusterSize | SistemaDeArquivos/DataArea.cpp:33-35 | It returns the cluster size given at construction. |
| DataArea.DataAreaManager.GetClusterCount | SistemaDeArquivos/DataArea.cpp:38-40 | It returns the cluster count given at construction. |
| BootRecord.BootRecordManager.constructor | SistemaDeArquivos/BootRecord.cpp:4-12 | The defaults are 512 bytes per sector, 1 sector per cluster, 1 FAT, 0 root slots, 0 FAT sectors and label "FAT". |
| BootRecord.RootDirSectors | SistemaDeArquivos/BootRecord.cpp:23 | The root directory's bytes, rounded up to whole sectors (at most 4096). |
| BootRecord.DataSectorsWrap | SistemaDeArquivos/BootRecord.cpp:26-27 | The data-sector subtraction is exact when the volume holds the reserved and root sectors. Otherwise it wraps modulo 2^32 to a count larger than the volume (both directions). |
| BootRecord.ClustersFillData | SistemaDeArquivos/BootRecord.cpp:30 | The clusters fill the data sectors as far as whole clusters go. |
| BootRecord.SectorsPerFatCoversTable | SistemaDeArquivos/BootRecord.cpp:33-34 | Up to `0xFFFF * 256` clusters, the FAT field is the table's 2-byte entries rounded up to whole sectors. |
| BootRecord.SectorsPerFatTruncates | SistemaDeArquivos/BootRecord.cpp:33-34 | Beyond that the 16-bit field wraps: a table of 2^24 clusters is recorded as taking no sector. |
| BootRecord.BootRecordManager.Format | SistemaDeArquivos/BootRecord.cpp:15-38 | Every field is set from the arguments alone (512, the given sectors per cluster, 1 FAT, the given slot count, the FAT size, "FAT"). Re-formatting with the same arguments gives the same record. |
| BootRecord.FormatExample | SistemaDeArquivos/BootRecord.cpp:15-38 | `format(1000, 16, 1)` gives one root sector, 998 clusters and a 4-sector FAT. |
| BootRecord.BootRecordManager.GetBootRecord | SistemaDeArquivos/BootRecord.cpp:41-43 | It returns the stored record. |
| BootRecord.RootDirOffset | SistemaDeArquivos/FileSystem.cpp:50 | The root directory starts after the boot sector and the FATs, on a sector boundary. |
| BootRecord.DataAreaOffset | SistemaDeArquivos/FileSystem.cpp:57 | The data area starts right after the root directory's slots, not rounded to a sector. |
| BootRecord.DataAreaPastImage | SistemaDeArquivos/BootRecord.cpp:26-34 | With one sector per cluster, the data area `format` lays out ends past the end of the volume. |
| BootRecord.DataAreaOverrunBound | SistemaDeArquivos/BootRecord.cpp:26-34 | On a volume that holds its reserved and root sectors, the data area `format` lays out ends at most the FAT's sectors past the volume. |
| BootRecord.CorrectedCountBounds | SistemaDeArquivos/BootRecord.cpp:26-34 | With the FAT's sectors set aside, the clusters fill the remaining data sectors, and there are no more of them than `format` counts. |
| BootRecord.CorrectedLayoutFits | SistemaDeArquivos/BootRecord.cpp:26-34 | With the FAT's sectors set aside, the data area ends inside the volume, and the FAT as sized still has an entry for every cluster. |
| FileSystem.FileSystem.constructor | SistemaDeArquivos/FileSystem.cpp:6-15 | A default boot record, and no FAT, directory or data area. |
| FileSystem.FileSystem.Format | SistemaDeArquivos/FileSystem.cpp:28-61 | It always succeeds and writes the boot record `format` computes. It installs an all-FREE FAT with one entry per cluster of the boot record's count (`dataSectors / sectorsPerCluster`), `rootEntryCount` cleared slots and a zeroed area of as many `512 * sectorsPerCluster` byte clusters, so the volume is consistent. The data area ends where the layout puts it: on a volume that holds its reserved and root sectors, past the volume by at most the FAT's sectors, and strictly past it with one sector per cluster and at least one cluster. |
| FileSystem.ClustersForIsCeilDiv | SistemaDeArquivos/FileSystem.cpp:84 | The number of one-cluster pieces of a file is `(fileSize + clusterSize - 1) / clusterSize`. |
| FileSystem.ClustersNeeded | SistemaDeArquivos/FileSystem.cpp:83-84 | The count computed as the source computes it is the number of pieces the file is cut into. |
| FileSystem.ClustersForFacts | SistemaDeArquivos/FileSystem.cpp:84-95 | A non-empty file needs at least one cluster and has less than one cluster to spare. Its last cluster holds `fileSize % clusterSize` bytes, or a full cluster when that is 0. |
| FileSystem.ClustersForOffsets | SistemaDeArquivos/FileSystem.cpp:84 | The clusters requested hold the file with less than one cluster to spare. |
| FileSystem.OffsetsGiveClustersFor | SistemaDeArquivos/FileSystem.cpp:84 | Conversely, any count that holds the file with less than one cluster to spare is the one requested. |
| FileSystem.SizeToWriteIsRest | SistemaDeArquivos/FileSystem.cpp:95-96 | Piece `i` starts inside the file at `i * clusterSize` and is the bytes left there, up to one cluster. |
| FileSystem.SizeToWriteAt | SistemaDeArquivos/FileSystem.cpp:95 | `sizeToWrite`, computed as the source computes it, is `min(clusterSize, fileSize - offset)`. |
| FileSystem.WriteStep | SistemaDeArquivos/FileSystem.cpp:94-97 | One turn of the write loop moves the offset to the next piece and keeps what is left to store unchanged. |
| FileSystem.FileSystem.WritePiece | SistemaDeArquivos/FileSystem.cpp:95-96 | Cluster `clusters[i]` receives the piece at `i * clusterSize`, and the offset moves to the next piece (or to the file's end after the last). |
| FileSystem.FileSystem.WriteChain | SistemaDeArquivos/FileSystem.cpp:94-97 | The write loop leaves the area as the file cut into one-cluster pieces, piece `i` in cluster `clusters[i]`. |
| FileSystem.StoreChainKeeps | SistemaDeArquivos/FileSystem.cpp:94-97 | Storing a file leaves every cluster outside its chain as it was. |
| FileSystem.StoreChainKeepsOthers | SistemaDeArquivos/FileSystem.cpp:94-97 | Storing a file leaves what any chain disjoint from its own reads unchanged. |
| FileSystem.StoreKeepsFiles | SistemaDeArquivos/FileSystem.cpp:94-97 | Storing a file on clusters no file owns leaves every file's contents unchanged. |
| FileSystem.StoreThenGather | SistemaDeArquivos/FileSystem.cpp:94-142 | Reading a file back along the distinct clusters it was stored on yields exactly its bytes. |
| FileSystem.ReadStep | SistemaDeArquivos/FileSystem.cpp:137-142 | One turn of the read loop extends the filled part of the buffer by the next cluster's bytes and keeps the unfilled part zero. |
| FileSystem.FileSystem.ReadChain | SistemaDeArquivos/FileSystem.cpp:133-142 | Walking a chain to EOF, it reads `min(clusterSize, bytes left)` bytes from each cluster into a zeroed `fileSize`-byte buffer. |
| FileSystem.FileSystem.CopyFromSystem | SistemaDeArquivos/FileSystem.cpp:118-149 | It succeeds exactly when the name is non-empty and a slot matches, and returns that file's contents; otherwise nothing. |
| FileSystem.AllocateKeepsConsistent | SistemaDeArquivos/FileSystem.cpp:87 | The clusters allocated belong to no file, and every file's chain survives the allocation. |
| FileSystem.AddKeepsConsistent | SistemaDeArquivos/FileSystem.cpp:100 | Filling the first empty slot with a file on a fresh chain keeps the volume consistent. |
| FileSystem.FileSystem.ReleaseClusters | SistemaDeArquivos/FileSystem.cpp:102 | Freeing the chain just allocated gives back the table as it was before the allocation. |
| FileSystem.FileSystem.AddEntry | SistemaDeArquivos/FileSystem.cpp:99-104 | It succeeds exactly when a slot is empty and fills the first one. Otherwise the chain is freed and the table is as before the allocation. The volume stays consistent either way. |
| FileSystem.FileSystem.FillFile | SistemaDeArquivos/FileSystem.cpp:93-104 | After the allocation it writes the file along its chain and adds its entry, whose contents are the file. With no empty slot the table is restored. Other files' contents are unchanged. |
| FileSystem.FileSystem.StoreFile | SistemaDeArquivos/FileSystem.cpp:87-104 | It succeeds exactly when enough clusters are FREE and a slot is empty. A failed allocation changes nothing; a full directory restores the table and directory. |
| FileSystem.FileSystem.CopyToSystem | SistemaDeArquivos/FileSystem.cpp:64-115 | It succeeds exactly when the file is non-empty, enough clusters are FREE and a slot is empty. It stores the file on the `n` lowest FREE clusters and fills the first empty slot, whose contents are the file. A short new name is then found in that slot. On failure the table and directory are unchanged. Other files keep their slots and contents. |
| FileSystem.RemoveKeepsConsistent | SistemaDeArquivos/FileSystem.cpp:166-170 | Freeing a file's chain and clearing its slot keeps the volume consistent. |
| FileSystem.FileSystem.RemoveFile | SistemaDeArquivos/FileSystem.cpp:158-179 | It succeeds exactly when the name is non-empty and a slot matches. It frees exactly that file's chain and clears that slot; otherwise nothing changes. Every remaining file reads as before. |
| FileSystem.FileSystem.ListFiles | SistemaDeArquivos/FileSystem.cpp:152-154 | The occupied slots in slot order, and exactly them. |
| FileSystem.EmptyNameRemovalBreaksFile | SistemaDeArquivos/FileSystem.cpp:158-170 | As written, `removeFile("")` on a volume whose first empty slot holds cluster 0 frees the chain of the file starting at cluster 0 but keeps that file's slot. No assignment of chains makes the result consistent. |
| FileSystem.EmptyNameWalkNeverEnds | SistemaDeArquivos/FileSystem.cpp:118-142 | As written, the lookup of `""` lands on the first empty slot. When that slot holds cluster 0 and cluster 0 is FREE, the walk from it never reaches EOF. |

## Left out

- Every `saveToDisk`/`loadFromDisk` and the `fseek`/`fwrite`/`fread` calls in `FileSystem` are not modelled. They are raw struct I/O to the image file, whose layout depends on padding and byte order. The offsets they use are modelled as `BootRecord.RootDirOffset` and `BootRecord.DataAreaOffset`.
- Opening and reading the host files is not modelled. The data arrives as a `seq<bv8>` and leaves as one, so the open failures of `copyToSystem` and `copyFromSystem` are not modelled.
- The `FileSystem` constructor's `fopen` and exception, and the destructor's `delete`/`fclose`, are not modelled because they are resource handling.
- Console messages (`cerr` and the `listFiles` printout) are left out. `listFiles` returns the selected slots instead.
- `time(nullptr)` is an external clock; its reading is the parameter `now`.
- Main.cpp, the interactive menu, is not part of this model.
- Operations on a volume before `format`, where `fat`, `rootDir` and `dataArea` are null, are not modelled. Every `FileSystem` operation requires `Valid()`, a volume reached through `Format` and these operations.
- Fat.FatManager.AllocateClusters: requires `n >= 1`, because `n = 0` is undefined behaviour (`Fat.ZeroRequestOverruns`). It also requires fewer than `0xFFF7` entries, so indices pushed as `uint16_t` neither truncate nor collide with the EOF and BAD markers.
- Fat.FatManager.FreeClusters: requires the walk from `startCluster` over the unmodified table to end without revisiting a cluster. Every chain of a consistent volume meets this (`Fat.ChainWalkEnds`). From a start the requirement excludes, the source frees entries as it goes, so it may loop forever (`Fat.FreeZeroNeverEnds`) or stop after freeing clusters outside that walk; neither outcome is modelled.
- DataArea.DataAreaManager.constructor: requires `clusterSize * clusterCount < 2^32`, so the vector size does not wrap.
- FileSystem.FileSystem.Format: requires fewer than `0xFFF7` clusters and a data area of fewer than `2^32` bytes, so the `uint32_t` products do not wrap and every cluster index fits a FAT entry. It also requires `sectorsPerCluster >= 1`, because the source divides by it (BootRecord.cpp:30, FileSystem.cpp:37).
- BootRecord.BootRecordManager.Format: requires `sectorsPerCluster >= 1`, because the source divides by it (BootRecord.cpp:30); a zero divisor is undefined behaviour.
- BootRecord.Clusters: requires `sectorsPerCluster >= 1` for the same division, and so do `BootRecord.Formatted`, `BootRecord.DataAreaEnd` and `BootRecord.CorrectedClusters`, which are built on it.
- FileSystem.FileSystem.CopyToSystem: requires `fileSize + clusterSize - 1 < 2^32`, so the rounded-up quotient does not wrap; the source's `uint32_t` file size is taken as exact.
- FileSystem.FileSystem.CopyToSystem: a 0-byte file is refused, so a 0-byte file cannot be copied in and read back. Every slot records a first cluster, so storing an empty file needs either a cluster of its own or a marker for "no cluster", and the code has neither. Its write loop would also copy a whole cluster as the last piece of an empty file. Choosing one of these designs would go beyond the code, so the model refuses the empty file and changes nothing.
- RootDirectory.StoredNameIsTruncated: counts the 16-byte name field in `char`s, each standing for one byte, so a name is cut after 15 of them. The source cuts after 15 bytes, which for a name with multi-byte UTF-8 characters can fall inside a character and makes the file unfindable by its own name. Names with characters outside one byte are not modelled, so `RootDirectory.ShortNameMatchesItself` and `RootDirectory.LongNameNotFound` count bytes as characters as well.
- FileSystem.FileSystem.ReadChain: takes the file's chain as a ghost argument from the consistency invariant. Walks over corrupted tables, where the loop of `copyFromSystem` may not end, are outside the model.
- FileSystem.FileSystem.WriteChain: keeps the source offset `i * clusterSize` as a running sum of piece sizes, proved equal to it (`DataArea.ClusterStartIsProduct`).
- The loops of `allocateClusters` and `copyToSystem` are split into helper methods with their own contracts. The scan and linking loops are `FindFree` and `LinkClusters`. The allocation, write and directory steps are `StoreFile`, `FillFile`, `AddEntry` and `ReleaseClusters`. The write loop is `WriteChain` and `WritePiece`; the read loop is `ReadChain`. Each keeps the source's order of effects.
- The BAD marker (`0xFFF7`) is declared but never produced, as in the source.
- A freed cluster's bytes are not wiped, as in the source. A directory-full failure leaves the written bytes in the data area, and the model states those bytes.

## Findings

| source | as written | input that shows it | evidently intended | confidence | as-written member | corrected member |
|---|---|---|---|---|---|---|
| SistemaDeArquivos/FileSystem.cpp:158-170 | `removeFile` passes an empty name to `findFile`, whose `strncmp` matches the first empty slot, so `freeClusters` walks from that slot's cluster 0 | format with 2 root slots; copy in a 1-byte file `a` (slot 0, cluster 0); `removeFile("")` frees cluster 0 while slot 0 still names `a` | the empty name names no file and is reported as not found | not executed | FileSystem.EmptyNameRemovalBreaksFile | FileSystem.FileSystem.RemoveFile |
| SistemaDeArquivos/FileSystem.cpp:118-142 | `copyFromSystem("")` (and `removeFile("")`) matches a cleared slot whose first cluster is 0; with cluster 0 FREE its entry links back to 0 and the walk never reaches EOF | `copyFromSystem("", path)` right after `format` | the empty name is reported as not found | not executed | FileSystem.EmptyNameWalkNeverEnds | FileSystem.FileSystem.CopyFromSystem |
| SistemaDeArquivos/FAT.cpp:34-35 | a 0-byte source file makes `clustersNeeded` 0; `allocateClusters(0)` passes the shortage check, and `size() - 1` wraps, so `allocatedClusters[0]` is read from an empty vector | `copyToSystem` of an empty host file | an empty file is refused like an allocation that yields no cluster, changing nothing; a 0-byte round trip would need a way to record a file with no cluster, which the code lacks (see "## Left out") | not executed | Fat.ZeroRequestOverruns | FileSystem.FileSystem.CopyToSystem |
| SistemaDeArquivos/BootRecord.cpp:26-34 | the clusters are counted from the sectors after the boot and root-directory sectors, without setting aside the FAT's own sectors, so the data area ends past the volume | `format(1000, 16, 1)`: data area at byte 3072 holding 998 clusters ends at byte 514048 of a 512000-byte volume | the FAT's sectors are subtracted before counting clusters, so every region lies inside the volume; `FileSystem.Format` keeps the code's count, and the corrected count is proved to fit on its own | not executed | BootRecord.DataAreaPastImage | BootRecord.CorrectedLayoutFits |
