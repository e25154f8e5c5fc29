# A verified model of the storage core

This project models, in Dafny, the algorithmic code a hardware wallet's firmware keeps its data with: the FatFs volume
engine, the QuickLZ compressor, the cJSON parser and printer, the journal file cache in front of SQLite, streaming
SHA-256 and a ring buffer between two threads.  Each part is proved against something simpler that says what it is
for: an array of FAT entries, a set of disjoint chains, a sequence of bytes with a cursor, the text of a value, the
formulas of a standard.

## What is modelled

- **FatFs** (`external/fatfs/ff.c`), in the configuration of `external/fatfs/ffconf.h`: exFAT, long names and fast
  seek on, a sector buffer for each file, sectors of 512 to 4096 bytes.  The drive is a sequence of sectors, and its
  transfers do not fail.
  - `FatEntry`: entries of 12, 16 and 28 bits as bytes of the FAT.
  - `FatVolume`: the one-sector window and the mirrored FAT.  *Sight* is the drive as its users see it, with the
    window laid over it.
  - `FatTable`, `FatChain`: chains of clusters, and creating, stretching and removing them.
  - `FatFastSeek`: the link map.
  - `FatFileData`, `FatFile`, `FatRuns`: one open file, its reads, writes and seeks, and whole runs of them.
  - `ExFatChain`: the allocation bitmap, and the chain of a growing exFAT file, which is kept partly in memory and
    written to the FAT later.
  - `FatGeometry`, `FatFormat`: the geometry formatting chooses, the boot sector it writes, and what mounting makes of
    it.
  - `LongName`: long names cut into directory entries and put together again.
- **QuickLZ** (`external/quicklz/quicklz.c`), level 3, without streaming, memory-safe, portable branches.
  `QuickLzFormat` is the stream format by itself.  `QuickLzMatcher` and `QuickLzEncoder` write it, `QuickLzGreedy` says
  which tokens of it they choose, and `QuickLzDecoder` reads it.  Positions are integers.
- **cJSON** (`external/cjson/cJSON.c`).  `JsonText` defines the text a value is printed as, and `JsonPrint` produces it
  in a growing buffer.  `JsonGrammar` says which texts derive which values; `JsonUnicode`, `JsonStringParse` and
  `JsonParse` read them, and `JsonRoundTrip` joins the two.  `JsonList` is the doubly linked list of children.
- **Journal cache** (`src/user_sqlite3.c`): `JournalCache`.
- **SHA-256** (`external/ccan/sha256.c`): `Sha256Standard` states FIPS 180-4 (sections 4.1.2, 4.2.2, 5.1.1, 5.2.1,
  5.3.3 and 6.2.2), `Sha256Constants` says where its constants come from, `Sha256Example` computes the hash of "abc"
  with it, and `Sha256` is the code.
- **Ring buffer** (`external/circular_buffer/circular_buffer.c`): `RingBuffer` has the calls as methods of a class,
  and the same calls split into their loads and stores as a state machine of two threads.

`Bytes` and `Sectors` hold facts about little-endian words, quotients and sequences of sectors.

The source's objects are classes, its loops are loops, and its in-place buffers are arrays; each method is proved
against a function or predicate over the old and new state.  Ghost parameters of methods name what a caller knows (the
chain of a file, the packet's original data); they do not influence what the methods do.

## The main results

- Any run of reads, writes and seeks on an open file is a run on a byte sequence with a cursor, and each read delivers
  what was written last, from the place a seek went to (`FatRuns.Run`, `FatRuns.HoldsLatest`, `FatRuns.ReadsLatest`,
  `FatRuns.SeekThenRead`).
- The FAT always is a set of disjoint chains and free entries, and mirrored copies agree
  (`FatChain.CreatedKeepsChains`, `FatChain.RemovedKeepsChains`, `FatVolume.Volume.SyncWindow`).
- Decompressing inverts compressing, and the decoder of compressed packets is safe on any bytes
  (`QuickLzEncoder.RoundTrip`, `QuickLzDecoder.DecompressCore`).  What compressing makes of an input is a function of the
  input alone: its greedy tokens, or the input itself exactly where these give up (`QuickLzEncoder.Compress`).
- Parsing is exact: it succeeds on the texts of a grammar and on no others, with the only value they derive
  (`JsonParse.ParseWithLengthOpts`), and it inverts printing (`JsonRoundTrip.PrintThenParse`).
- An exFAT file, new or opened again, grown and synchronised, consists of exactly its former clusters and the ones handed
  out (`ExFatChain.GrowThenSync`).
- Mounting recovers what formatting chose (`FatFormat.FormatThenMount`); registered names are read back, wherever in a
  directory they are (`LongName.RegisterThenRead`).
- The streamed hash is the standard's (`Sha256.HashPieces`), the ring loses nothing in any interleaving
  (`RingBuffer.NothingLost`), and the journal cache is a sparse file (`JournalCache.PushAllThenPull`).

## What turned out not to hold everywhere

Each item names the exact condition and, where there is one, a lemma or method at an input that fails.

- Zeros pushed are not stored, since a chunk is taken for blank by the 64 bytes from its first one on.  They are lost
  over older data (`JournalCache.ZerosLost`), and with no older data they are not seen by a caller whose buffer holds
  something else (`JournalCache.ZerosNeverSeen`).  `JournalCache.PushThenPull` says exactly when a push is read back.
- Those 64 bytes may reach behind the data (`JournalCache.FourBytesRead`); `JournalCache.ReadsInside` gives the size of
  buffer that is needed.
- A chunk of length 7 is mistaken for a failed allocation (`JournalCache.SevenBytes`); `JournalCache.CompletesIff` says
  for which ranges.  What was stored before it stays, and so may the chunk (`JournalCache.SevenBytesStored`);
  `JournalCache.AnyPushThenPull` says when such a push is read back.
- Creating a link map fails where a chain ends with the number of its last cluster plus one
  (`FatFastSeek.CreateLinkMap`).  No end mark of the FAT specification is such a number (`FatFastSeek.NoEndMark`), only an
  entry of a damaged FAT (`FatFastSeek.DamagedEndMark`).
- While the last fragment of an exFAT file is kept in memory, its FAT chain cannot be followed everywhere
  (`ExFatChain.LastFragmentHidden`); `ExFatChain.GetFatFollows` says where.  Seeking writes that fragment first
  (`ExFatChain.Volume.SeekBegin`).
- Mounting accepts boot sectors whose sizes are cut off at 32 bits (`FatFormat.CutIsAccepted`); these do not give the
  layout the file system relies on, but for one exception at the end of the 32-bit range (`FatFormat.MountedValidIff`).
- A stored QuickLZ packet is copied without a look at its compressed size (`QuickLzDecoder.StoredTooShort`);
  `QuickLzDecoder.StoredReadsBehind` says when bytes behind the packet are read.
- Parsing a text of exact length reads the byte behind it when the text breaks off behind a comma of an object
  (`JsonRoundTrip.UnfinishedOverruns`), and on no other text (`JsonParse.ParseWithLengthOpts`).  It suffices that the
  last byte is no comma.
- An escape whose first four digits are not all hexadecimal is not refused, but read as U+0000
  (`JsonUnicode.BadDigitsAreZero`); in the second half of a surrogate pair bad digits are refused
  (`JsonUnicode.BadHalfIsRefused`).  `JsonUnicode.ReadExactly` says what is read, and as what.
- Printing into a given buffer needs two bytes more than the text, one more than text and terminator
  (`JsonPrint.PrintPreallocated`, `JsonPrint.FiveBytesForNull`).
- Appending an item that is in the list already, or still has a successor, breaks the list (`JsonList.AddItemToArray`,
  `JsonList.AppendedTwice`, `JsonList.SuccessorAppended`).  So does inserting a child or the parent
  (`JsonList.InsertItemInArray`), or replacing an item by another child (`JsonList.ReplaceItemViaPointer`).

## Model

| member | source | states |
|---|---|---|
| QuickLzEncoder.RoundTrip | external/quicklz/quicklz.c:663-764 | decompressing a compressed packet gives the input back, for every non-empty input up to 2^32 - 401 bytes, whatever the compressor state was before |
| QuickLzEncoder.Compress | external/quicklz/quicklz.c:663-731 | fails exactly on empty and oversized inputs; holds the input as it is if and only if at the end of some group there was too little to be gained, and else its greedy tokens; takes at most size + 400 bytes, at most 255 below 216; first byte and length fields as in the format |
| QuickLzEncoder.CompressCore | external/quicklz/quicklz.c:254-509 | 0 if and only if the greedy tokens of the input give up; otherwise the payload has these tokens and literals for the last ten bytes or fewer, within size + 391 bytes (252 for inputs below 216) |
| QuickLzEncoder.EncodeMost | external/quicklz/quicklz.c:270-444 | main loop: the output so far always has the greedy tokens of the input consumed so far, and stops early if and only if they give up |
| QuickLzEncoder.TurnGroup | external/quicklz/quicklz.c:271-282 | a full group is closed with its control word, or compression gives up, exactly past the middle when the output has not shrunk by 1/32 |
| QuickLzEncoder.AccountedBound | external/quicklz/quicklz.c:270-285 | the size accounting behind the bounds: control words and tokens of every encoder run never exceed size + 132, and src + 28 for short inputs |
| QuickLzEncoder.EncodeNext | external/quicklz/quicklz.c:351-444 | the greedy token: the match found if it is near enough, else a literal; the output goes on spelling the input and the bound is kept |
| QuickLzEncoder.FindAndInsert | external/quicklz/quicklz.c:356-411 | what is found is the greedy token of the position, and the position is remembered |
| QuickLzEncoder.EmitMatch | external/quicklz/quicklz.c:417-438 | each of the five encodings is the byte form of its offset and length, no longer than the match |
| QuickLzEncoder.ControlWordPush | external/quicklz/quicklz.c:414-443 | shifting the next flag in from the top keeps the flags of the open group and its marker bit |
| QuickLzEncoder.EncodeRest | external/quicklz/quicklz.c:470-500 | exactly the closing literals are added, with their group changes |
| QuickLzEncoder.MoveDown | external/quicklz/quicklz.c:502-505 | moving an unfinished control word down ends at its marker bit and keeps its flags |
| QuickLzEncoder.HeaderReadsBack | external/quicklz/quicklz.c:179-201 | the one-byte or four-byte size fields read back exactly what was stored |
| QuickLzMatcher.CompressState.Insert | external/quicklz/quicklz.c:399-411 | one hash slot is set to a position before the present one, the 8-bit counter wraps, and every other slot and counter stays |
| QuickLzMatcher.FindMatch | external/quicklz/quicklz.c:363-398 | the match found is a real repetition inside the limits and the best among the candidates of its hash row |
| QuickLzMatcher.LengthRepeats | external/quicklz/quicklz.c:366-386 | what is counted as match length really repeats, is at least 3 and at most 255, and leaves the closing literals |
| QuickLzMatcher.RowIsVisible | external/quicklz/quicklz.c:353-372 | the slots searched hold the last positions, modulo 16, of all those before with the same hash value, as many as the 8-bit counter shows |
| QuickLzMatcher.InsertAt | external/quicklz/quicklz.c:399-411 | so they do with one position more |
| QuickLzMatcher.HashBit | external/quicklz/quicklz.c:95-104 | each of the twelve bits of a hash value is the exclusive or of two bits of the three bytes |
| QuickLzGreedy.GreedyOnce | external/quicklz/quicklz.c:351-444 | a position of an input has one greedy token |
| QuickLzGreedy.ParseOnce | external/quicklz/quicklz.c:270-444 | so an input has one sequence of them, whatever the state was before |
| QuickLzGreedy.NeverGivesUp | external/quicklz/quicklz.c:270-275 | past the last place for a match it is too late to give up |
| QuickLzGreedy.ShortIsCompressed | external/quicklz/quicklz.c:270-275 | inputs of at most 41 bytes are never stored |
| QuickLzFormat.MatchFieldsInvert | external/quicklz/quicklz.c:583-608 | reading the four bytes at a match gives back offset, length and size of all five encodings, whatever follows |
| QuickLzDecoder.Decompress | external/quicklz/quicklz.c:733-764 | returns 0 or the stated size, writes nothing behind that, delivers s for any packet that encodes s, and for a stored packet the bytes behind its header |
| QuickLzDecoder.StoredReadsBehind | external/quicklz/quicklz.c:741-746 | what a stored packet gives depends on bytes behind the packet if and only if header and stated text together are longer than the stated packet |
| QuickLzDecoder.StoredTooShort | external/quicklz/quicklz.c:741-746 | a packet of three bytes that is copied from one byte behind it |
| QuickLzDecoder.DecompressCore | external/quicklz/quicklz.c:511-661 | terminates on any payload, reads only inside the stated compressed size, writes only inside the output; no safety rejection fires on a valid packet |
| QuickLzDecoder.CopyMatch | external/quicklz/quicklz.c:605-617 | the two bounds checks, the second in unsigned arithmetic, keep the copy inside the output and accept every valid match |
| QuickLzDecoder.CopyUp | external/quicklz/quicklz.c:204-221 | an upward copy repeats its own output when source and target overlap |
| QuickLzDecoder.CopyReproduces | external/quicklz/quicklz.c:204-221 | the overlapping copy of a match reproduces the bytes the match stands for |
| QuickLzDecoder.BitlutCounts | external/quicklz/quicklz.c:520-633 | the literal count looked up for a control word covers clear flags only, and at least one if the lowest is clear |
| QuickLzDecoder.LiteralRun | external/quicklz/quicklz.c:624-633 | copying up to four literals in one step is as good as decoding them one by one |
| QuickLzDecoder.FinalLiterals | external/quicklz/quicklz.c:638-656 | the closing loop delivers the rest of a valid packet, and stays in bounds on any other |
| FatEntry.GetPut | external/fatfs/ff.c:1220-1239 | get_fat after put_fat gives the value cut to the entry width |
| FatEntry.GetPutOther | external/fatfs/ff.c:1294-1330 | no other entry changes, FAT12 neighbours that share a byte included |
| FatEntry.ReservedKept | external/fatfs/ff.c:1322-1328 | the four top bits of a FAT32 entry survive |
| FatEntry.EocReadsBack | external/fatfs/ff.c:3634-3643 | an end mark reads back as no cluster number under the limits of mounting |
| FatEntry.TablePut | external/fatfs/ff.c:1283-1333 | a put on the FAT bytes is one update of the table of entries |
| FatVolume.Volume.constructor | external/fatfs/ff.c:3654-3664 | a drive with agreeing FATs, just mounted, is seen as it is |
| FatVolume.Volume.SyncWindow | external/fatfs/ff.c:1098-1116 | what everyone sees stays, and then the drive itself shows it, with both FATs equal |
| FatVolume.Volume.MoveWindow | external/fatfs/ff.c:1120-1141 | the window shows another sector, and nothing anyone sees changes |
| FatVolume.FatsAgreeOnDrive | external/fatfs/ff.c:1106-1111 | sector by sector, the two FATs on the drive agree, except where the window is dirty |
| FatVolume.Volume.GetFat | external/fatfs/ff.c:1204-1273 | the entry of the table, or 1 out of range; nothing anyone sees changes, even when a FAT12 entry straddles two sectors |
| FatVolume.Volume.ReadEntry12 | external/fatfs/ff.c:1221-1229 | two window moves read one FAT12 entry |
| FatVolume.Volume.PutFat | external/fatfs/ff.c:1283-1333 | exactly one table entry changes, and nothing outside the FATs |
| FatVolume.Volume.PutEntry12 | external/fatfs/ff.c:1296-1309 | the two bytes of a FAT12 entry, possibly in two sectors, change by its twelve bits |
| FatTable.ChainDistinct | external/fatfs/ff.c:1575-1665 | chains never run in circles |
| FatTable.StretchOne | external/fatfs/ff.c:1650-1653 | linking a free cluster behind a chain leaves disjoint chains that cover all entries in use |
| FatTable.StretchNone | external/fatfs/ff.c:1650-1653 | so does making it a chain of its own |
| FatTable.FreeFromChain | external/fatfs/ff.c:1505-1537 | freeing from the head of a chain frees exactly that chain |
| FatChain.Search | external/fatfs/ff.c:1636-1649 | the wrap-around search finds the first free cluster, or shows that there is none |
| FatChain.FindFree | external/fatfs/ff.c:1624-1649 | the cluster behind the chain is tried first, then the whole table is searched from the suggested place |
| FatChain.CreateChain | external/fatfs/ff.c:1575-1665 | the exact result and table for every table, argument and free count; nothing outside the FATs changes |
| FatChain.CreatedKeepsChains | external/fatfs/ff.c:1575-1665 | on disjoint chains it fails only when no entry is free, hands out a free cluster, keeps the chains disjoint and an accurate free count accurate |
| FatChain.CreatedWhere | external/fatfs/ff.c:1625-1665 | a new cluster is the one behind the chain if that is free, and else the first free one going round from the cluster handed out last; its entry is the end mark, the chain leads to it and no other entry changes |
| FatChain.RemoveChain | external/fatfs/ff.c:1480-1537 | stops on any table, cyclic ones too; frees what following the entries frees; an accurate free count stays accurate |
| FatChain.FreeEntries | external/fatfs/ff.c:1505-1537 | the loop: each turn frees one entry in use, until a free entry, an end mark or an entry of 1 |
| FatChain.RemovedKeepsChains | external/fatfs/ff.c:1480-1537 | on disjoint chains exactly the given suffix of one chain becomes free |
| FatFastSeek.CreateLinkMap | external/fatfs/ff.c:4553-4582 | the table lists the fragments of the chain; when too small, the length reported is the length needed; fails if and only if the chain ends with the number of its last cluster plus one, and so never with a mark of the FAT specification |
| FatFastSeek.NoEndMark | external/fatfs/ff.c:1650-1653 | no end mark of the FAT specification, this code's own among them, is the number behind a cluster |
| FatFastSeek.DamagedEndMark | external/fatfs/ff.c:4562-4577 | a volume with a damaged FAT entry on which creating the map fails |
| FatFastSeek.FewestFragments | external/fatfs/ff.c:4557-4576 | no shorter list of fragments stands for the same chain |
| FatFastSeek.FragmentsSpell | external/fatfs/ff.c:4557-4576 | the fragments expand to exactly the chain |
| FatFastSeek.ClmtClust | external/fatfs/ff.c:1677-1697 | the cluster looked up in the table, 0 behind its end |
| FatFastSeek.FastAndSlow | external/fatfs/ff.c:4553-4596 | building the map and looking up leads to the cluster that following the FAT leads to, for every offset, and neither to one behind the chain |
| FatFastSeek.SlowWalk | external/fatfs/ff.c:1204-1273 | k calls of get_fat follow the table k steps, and stop outside the cluster numbers |
| FatFileData.FileWrite | external/fatfs/ff.c:1187-1195 | writing sectors of a cluster changes those sectors of the file and no other |
| FatFileData.SectorAtInjective | external/fatfs/ff.c:1187-1195 | different sectors of a file lie at different places |
| FatFileData.ClusterPlaces | external/fatfs/ff.c:1187-1195 | clusters are numbered from 2 on and lie one behind the other; other numbers have no place |
| FatFile.File.constructor | external/fatfs/ff.c:3812-3997 | a file just opened, at position 0 |
| FatFile.File.Flush | external/fatfs/ff.c:4075-4078 | writing the dirty buffer back changes no byte of the file |
| FatFile.File.ReadStep | external/fatfs/ff.c:4029-4093 | one turn delivers the next bytes of the file |
| FatFile.File.Read | external/fatfs/ff.c:4006-4096 | exactly the stored bytes at the position, short only at the end of the file; nothing stored changes |
| FatFile.File.DirectWrite | external/fatfs/ff.c:4167-4188 | a direct transfer writes those sectors and refreshes a buffer that shows one of them |
| FatFile.File.Follow | external/fatfs/ff.c:1575-1665 | called for a cluster of the file, gives the next one, which is free and linked behind the others if the chain ends |
| FatFile.File.EnterCluster | external/fatfs/ff.c:4134-4150 | writing goes on in cluster number fptr / cluster size of the chain |
| FatFile.File.WriteStep | external/fatfs/ff.c:4131-4215 | one turn splices bytes in at the position; none only when no cluster is free |
| FatFile.File.Write | external/fatfs/ff.c:4106-4218 | the file is the old one with the bytes spliced in; short only on a full volume or at 4 GiB - 1; other files and chains stay |
| FatFile.File.SeekStep | external/fatfs/ff.c:4638-4660 | one cluster forward, stretched in write mode |
| FatFile.File.LSeek | external/fatfs/ff.c:4605-4684 | every target up to the size is reached; one behind it is cut to the size, or in write mode reached up to 4 GiB - 1 with the chain stretched, unless no cluster is free; the bytes up to the former end stay |
| FatRuns.Call | external/fatfs/ff.c:4006-4684 | each call is a step of a byte sequence with a cursor: reads deliver what is there, writes put their bytes over it, and seeks go where they are told |
| FatRuns.Run | external/fatfs/ff.c:4006-4684 | so is any sequence of reads, writes and seeks |
| FatRuns.HoldsLatest | external/fatfs/ff.c:4029-4093 | after any run each place holds the byte written there last, or the first one; only a gap left by a seek is unspecified |
| FatRuns.ReadsLatest | external/fatfs/ff.c:4029-4093 | every byte any read delivers is the one written last at its place |
| FatRuns.SeekThenRead | external/sqlite3/sdfat_fns.c:66-74 | a read behind a seek to a place in the file delivers the bytes from that place on |
| ExFatChain.Volume.FindBitmap | external/fatfs/ff.c:1349-1388 | the first clear bit going round, or none is clear |
| ExFatChain.FlipBits | external/fatfs/ff.c:1395-1424 | flipping one bit of a byte changes that bit and no other |
| ExFatChain.Volume.SetBit | external/fatfs/ff.c:1395-1424 | marks a free cluster and changes nothing else; refuses one in use |
| ExFatChain.GetFatFollows | external/fatfs/ff.c:1241-1260 | in the middle of a list get_fat gives the next cluster if and only if that place is not in a fragment still kept in the object |
| ExFatChain.LastFragmentHidden | external/fatfs/ff.c:1241-1260 | a file of three sectors in clusters 5, 2 and 3, of which the last two are not yet on the FAT: from 2, get_fat gives an end mark |
| ExFatChain.GetFatAtEnd | external/fatfs/ff.c:1241-1260 | at its end it gives an end mark in every state, 0x7FFFFFFF where the chain is kept in memory |
| ExFatChain.GetFatOutside | external/fatfs/ff.c:1204-1273 | numbers that no cluster has are answered by 1 |
| ExFatChain.StretchDenotes | external/fatfs/ff.c:1598-1620 | start cluster, status, fragment counts and FAT go on denoting exactly the clusters handed out, in order, and no other entry changes |
| ExFatChain.Volume.CreateChain | external/fatfs/ff.c:1575-1623 | follows the list or appends the first free cluster; fails exactly when none is free; the free count stays right |
| ExFatChain.Volume.FillFirstFrag | external/fatfs/ff.c:1431-1447 | exactly the entries of the first fragment are written |
| ExFatChain.Volume.FillLastFrag | external/fatfs/ff.c:1454-1469 | exactly the entries of the last fragment are written |
| ExFatChain.SyncSpells | external/fatfs/ff.c:4250-4253 | after both are filled the FAT alone spells the list |
| ExFatChain.Volume.Sync | external/fatfs/ff.c:4247-4253 | f_sync leaves a file contiguous or spelled by the FAT alone |
| ExFatChain.Volume.SeekBegin | external/fatfs/ff.c:4544-4548 | f_lseek writes the last fragment first, after which every cluster of the list can be followed |
| ExFatChain.Reopened | external/fatfs/ff.c:3931-3945 | a file found contiguous or spelled by the FAT denotes its clusters, with nothing kept in memory |
| ExFatChain.GrowThenSync | external/fatfs/ff.c:1575-1623 | the whole life of a new or reopened file grown by any number of clusters: the new ones are distinct and were free, it stops only on a full volume, and in the end former and new clusters are one run or spelled by the FAT alone, and nothing else has changed |
| FatGeometry.AutoSize | external/fatfs/ff.c:6341-6359 | the cluster size is doubled for each boundary of the table up to the first above the volume size |
| FatGeometry.Determine | external/fatfs/ff.c:6335-6410 | the retry loop ends, with a consistent geometry for the first of a list of at most three attempts that is possible, and a FAT just large enough for its estimate, or with none if none is |
| FatGeometry.AskedPossible | external/fatfs/ff.c:6335-6410 | with a cluster size asked for, some attempt is possible if and only if some allowed sub-type is |
| FatGeometry.AutomaticIff | external/fatfs/ff.c:6335-6410 | without one, some attempt is possible if and only if: for FAT32 alone, from 131072 sectors on or with enough clusters of one sector; else for small volumes if a FAT12 has room; else if the size suggested is below 64, FAT32 is allowed, or 64 or 128 sectors a cluster suit FAT16 |
| FatGeometry.TurnGoesOn | external/fatfs/ff.c:6384-6406 | a turn that does not succeed goes on with the next attempt of the list, or none of the rest is possible |
| FatGeometry.GoodGeometry | external/fatfs/ff.c:6392-6407 | the FAT laid out for the first estimate is large enough for the final number of clusters |
| FatGeometry.FewestSectors | external/fatfs/ff.c:6342-6361 | a FAT is laid out with just enough sectors for the entries of all clusters there would be without it |
| FatGeometry.TooSmallForBoth | external/fatfs/ff.c:6390-6407 | where FAT16 leaves no room or too few clusters, FAT32 is impossible too, so that giving up there loses nothing |
| FatFormat.WriteBootSector | external/fatfs/ff.c:6419-6453 | the boot sector carries that geometry, the cluster of the root directory, the places of FSINFO and backup sector, the serial number and labels, and all other fields of the format |
| FatFormat.CheckFs | external/fatfs/ff.c:3387-3418 | which sectors are taken for FAT or exFAT boot sectors |
| FatFormat.MountVolume | external/fatfs/ff.c:3609-3658 | accepts exactly the boot sectors that describe a volume, and finds that volume and its root directory, in 32-bit arithmetic |
| FatFormat.AcceptedOnce | external/fatfs/ff.c:3609-3658 | a boot sector describes at most one volume |
| FatFormat.FormattedIsAccepted | external/fatfs/ff.c:3609-3658 | the sector of every consistent geometry is accepted with that geometry |
| FatFormat.FormatThenMount | external/fatfs/ff.c:6335-6453 | formatting succeeds exactly under those conditions, and then mounting recovers sub-type, cluster count, FAT base, data base and the place of the root directory |
| FatFormat.MountedIsValid | external/fatfs/ff.c:3609-3658 | every volume that mounts has the layout the rest relies on if its sizes add up in 32 bits |
| FatFormat.MountedValidIff | external/fatfs/ff.c:3609-3658 | on any partition, an accepted sector gives that layout if and only if no sum was cut off at 32 bits, or the FATs wrap round as a whole, which only a partition that begins among the last 65535 sector numbers allows |
| FatFormat.CutIsAccepted | external/fatfs/ff.c:3397-3658 | a FAT32 boot sector whose FATs are larger than its volume, which both the check of the sector and mounting accept |
| LongName.SumSfn | external/fatfs/ff.c:2109-2120 | the checksum of eleven bytes, one step for each |
| LongName.SumStepRotates | external/fatfs/ff.c:2109-2120 | one step is a rotation to the right and an addition, in eight bits |
| LongName.SumOfA | external/fatfs/ff.c:2109-2120 | the checksum of the letter A and ten spaces is 0x80 |
| LongName.SumOfTwo | external/fatfs/ff.c:2109-2120 | two names that differ in the order of two letters have different checksums |
| LongName.LfnPlaces | external/fatfs/ff.c:516 | the thirteen places of units in an entry |
| LongName.PutLfn | external/fatfs/ff.c:2014-2039 | an entry carries its thirteen units, the terminator, the filler, the order and the last-entry mark |
| LongName.PickLfn | external/fatfs/ff.c:1976-2005 | accepts an entry if and only if its units go up to a terminator with filler behind it, fit into the buffer and name no cluster; takes them, and the terminator of a full last part, into their place and nothing else |
| LongName.PartPicked | external/fatfs/ff.c:1976-2005 | every part of a name is accepted and brings the buffer one part further |
| LongName.Register | external/fatfs/ff.c:2592-2624 | the parts stand in descending order in front of the short entry, of which all 32 bytes are given; other entries stay |
| LongName.DirRead | external/fatfs/ff.c:2364-2434 | rebuilds a registered name that is the next one, whatever deleted, dot, label or stray entries stand in front; stops at the first file entry; whatever the directory holds, accepts a long name only from a counted-down run with the checksum of the short name |
| LongName.RegisterThenRead | external/fatfs/ff.c:2592-2624 | every name of 1 to 255 units, multiples of 13 included, is read back with its terminator from any place with no file in between |
| JsonPrint.PrintBuffer.Ensure | external/cjson/cJSON.c:463-546 | makes room, keeping what was printed, exactly when the limit allows |
| JsonPrint.PrintBuffer.UpdateOffset | external/cjson/cJSON.c:549-559 | moves to the end of the text by its terminator |
| JsonPrint.PrintBuffer.PrintNumber | external/cjson/cJSON.c:569-636 | the decimal digits of a 32-bit integer, which JsonText.DecimalIs shows to stand for it |
| JsonText.DecimalIs | external/cjson/cJSON.c:589-592 | the text of an integer is decimal, has the positional value of the integer, no zero in front, and a minus sign exactly for negative ones |
| JsonText.TwoNumbers | external/cjson/cJSON.c:589-592 | the texts of 12 and -205 |
| JsonText.Characters | external/cjson/cJSON.c:1336-1388 | structural characters and literal names are those of section 2 of RFC 8259 |
| JsonPrint.PrintBuffer.PrintString | external/cjson/cJSON.c:926-1045 | the second pass writes exactly what the first pass counted |
| JsonPrint.PrintBuffer.CountEscapes | external/cjson/cJSON.c:943-968 | the first pass counts the bytes escaping adds |
| JsonPrint.PrintBuffer.PrintValue | external/cjson/cJSON.c:1391-1462 | appends the text of the value; fails exactly when two bytes more than it find no room |
| JsonPrint.PrintBuffer.PrintArray | external/cjson/cJSON.c:1563-1622 | the same for arrays |
| JsonPrint.PrintBuffer.PrintObject | external/cjson/cJSON.c:1738-1849 | the same for objects, formatted or not |
| JsonText.ArrayLayout | external/cjson/cJSON.c:1563-1622 | arrays are printed in brackets, with commas, and formatted with a space behind each |
| JsonText.ObjectLayout | external/cjson/cJSON.c:1738-1849 | objects are printed in braces, with colons and commas, and formatted with a line for each member, indented by a tab for each level, and a tab behind each colon |
| JsonText.EscapedIs | external/cjson/cJSON.c:952-1038 | exactly control characters, quotes and backslashes are escaped, by two hexadecimal digits where there is no short escape |
| JsonText.ShortEscapes | external/cjson/cJSON.c:1010-1032 | the short escapes are those of section 7 of RFC 8259 |
| JsonPrint.Print | external/cjson/cJSON.c:1211-1273 | the whole text and its terminator, whatever growth it took |
| JsonPrint.PrintBuffered | external/cjson/cJSON.c:1286-1314 | the same from a buffer of any initial size |
| JsonPrint.PrintPreallocated | external/cjson/cJSON.c:1316-1333 | succeeds exactly when the text and two bytes fit |
| JsonPrint.FiveBytesForNull | external/cjson/cJSON.c:1316-1333 | five bytes, enough for null and its terminator, are refused |
| JsonUnicode.ParseHex4 | external/cjson/cJSON.c:639-672 | four hexadecimal digits, 0 for anything else |
| JsonUnicode.ReadLiteral | external/cjson/cJSON.c:676-726 | the code point of an escape or surrogate pair and its length; refuses exactly what can be read neither as an escape nor as one with bad first digits |
| JsonUnicode.EscapeIsRead | external/cjson/cJSON.c:676-726 | the six or twelve bytes that section 7 of RFC 8259 has for a code point are read as that code point, for every code point |
| JsonUnicode.ReadExactly | external/cjson/cJSON.c:676-726 | behind a backslash and a u, bytes are read as a code point if and only if they are an escape of it or, as code point 0, have something else among the first four digits |
| JsonUnicode.BadDigitsAreZero | external/cjson/cJSON.c:639-672 | a backslash, a u and four letters z are read as code point 0 |
| JsonUnicode.BadHalfIsRefused | external/cjson/cJSON.c:691-714 | something else among the digits of the second half of a surrogate pair is refused |
| JsonUnicode.WriteUtf8 | external/cjson/cJSON.c:728-790 | writes the octets of section 3 of RFC 3629, last first |
| JsonUnicode.Utf8RoundTrip | external/cjson/cJSON.c:728-790 | those octets decode to the code point, for every code point |
| JsonStringParse.FindEnd | external/cjson/cJSON.c:809-833 | finds the closing quote and counts the escapes |
| JsonStringParse.RoomUp | external/cjson/cJSON.c:835-841 | the room the first pass leaves is enough for every escape the second meets |
| JsonStringParse.UnescapeByte | external/cjson/cJSON.c:857-895 | unescaping inverts escaping |
| JsonStringParse.UnescapeAll | external/cjson/cJSON.c:844-897 | never leaves the room reserved, on any text; yields the meaning of the literal |
| JsonStringParse.ParseLiteral | external/cjson/cJSON.c:797-923 | succeeds if and only if a string literal stands at the offset inside the length, with what it means and the place behind it |
| JsonStringParse.WrittenIs | external/cjson/cJSON.c:843-897 | every string of RFC 8259, in any mixture of raw bytes, short escapes and escaped code points, is a literal that means the bytes of its characters |
| JsonStringParse.QuotedIs | external/cjson/cJSON.c:926-1045 | a printed string is a literal that means the string |
| JsonParse.ParseBuffer.SkipWhitespace | external/cjson/cJSON.c:1062-1085 | stops at the first byte that is no blank, or at the last byte |
| JsonParse.ParseBuffer.ParseNumber | external/cjson/cJSON.c:324-398 | the number strtod makes of the run of number bytes, of up to 63 of them, cut to 32 bits with saturation; fails exactly when strtod takes nothing |
| JsonText.NumberCharacters | external/cjson/cJSON.c:342-372 | the bytes collected for a number are digits and the characters + - . e E |
| JsonGrammar.SaturatedIs | external/cjson/cJSON.c:382-394 | the integer of a number is its part in front of the point, or the nearest 32-bit integer |
| JsonParse.ParseBuffer.ParseValue | external/cjson/cJSON.c:1336-1388 | succeeds if and only if the text derives a value nested within the limit; that value is the only one; looks at a byte behind the end if and only if the text breaks off behind a comma of an object |
| JsonParse.ParseBuffer.ParseElement | external/cjson/cJSON.c:1522-1530 | the same with blanks around the value |
| JsonParse.ParseBuffer.ParseArray | external/cjson/cJSON.c:1465-1560 | the same for arrays, elements and commas in order |
| JsonParse.ParseBuffer.ParseItem | external/cjson/cJSON.c:1498-1532 | one turn of the loop keeps what every derivation and every text that breaks off has to come through |
| JsonParse.ParseBuffer.ParseObject | external/cjson/cJSON.c:1625-1735 | the same for objects |
| JsonParse.ParseBuffer.ParseMember | external/cjson/cJSON.c:1681-1707 | a name, a colon and a value; looks at a byte behind the end if and only if the text ends in front of the name or breaks off in the value |
| JsonParse.ParseWithLengthOpts | external/cjson/cJSON.c:1119-1196 | the same for a whole text of any length, with or without a byte behind it: parsed exactly by the grammar, a byte order mark skipped, a terminator required on request; the byte behind the text is read if and only if the text breaks off behind a comma of an object |
| JsonGrammar.BreaksFirst | external/cjson/cJSON.c:1681-1690 | a text that breaks off so is given without a byte behind it and ends with a comma |
| JsonRoundTrip.PrintThenParse | external/cjson/cJSON.c:1211-1273 | printing and parsing gives the tree back, or fails, exactly by the nesting limit, for any strtod that reads integers by their positional value |
| JsonRoundTrip.PrintedDerives | external/cjson/cJSON.c:1391-1462 | the text of any value, formatted or not, derives that value |
| JsonRoundTrip.UnfinishedOverruns | external/cjson/cJSON.c:805 | the seven bytes of an object with a trailing comma make the parser read an eighth |
| JsonList.GetArrayItem | external/cjson/cJSON.c:1875-1892 | the item at an index, or none |
| JsonList.GetArraySize | external/cjson/cJSON.c:1852-1873 | the number of items |
| JsonList.AddItemToArray | external/cjson/cJSON.c:1980-2011 | appends, keeping next, prev and the tail link; if the item is in the list already, or still has a successor behind a non-empty list, the parent is left without any proper list, otherwise the list is the old one and the item |
| JsonList.AppendedTwice | external/cjson/cJSON.c:1993-2004 | an item appended to the list it is the last of points to itself, and there is no proper list |
| JsonList.SuccessorAppended | external/cjson/cJSON.c:1993-2004 | a child of another parent, appended, still leads to its old successor |
| JsonList.DetachItemViaPointer | external/cjson/cJSON.c:2211-2245 | removes one item from a list of any length, and the rest stays linked |
| JsonList.DetachItemFromArray | external/cjson/cJSON.c:2247-2255 | the same by index; the item is unlinked |
| JsonList.InsertItemInArray | external/cjson/cJSON.c:2287-2319 | inserts in front of an item, or appends; an item of the list already, the parent itself or an appended item with a successor leaves no proper list, any other gives the list with the item in its place |
| JsonList.ReplaceItemViaPointer | external/cjson/cJSON.c:2321-2368 | exchanges one item, the only one of a list included; the result is the list with the replacement if and only if this is the item itself or neither another child nor the parent |
| JsonList.DetachThenInsert | external/cjson/cJSON.c:2211-2319 | an item detached and inserted again at its index is where it was, the first, last and only one included |
| JsonList.InsertThenDetach | external/cjson/cJSON.c:2211-2319 | detaching what was inserted or appended leaves the list as it was |
| JournalCache.FileCache.FindLeaf | src/user_sqlite3.c:228-233 | the search stops at the last block not behind the offset, or at the first block |
| JournalCache.FileCache.Store | src/user_sqlite3.c:118-153 | blank chunks are skipped, others stored in their block, which is linked in order or handed back to become the first |
| JournalCache.FileCache.Push | src/user_sqlite3.c:201-251 | the list stays sorted without duplicates and holds the stored chunks; the size grows only when all chunks are done; asks for the bytes it reads and no more |
| JournalCache.ReadsInside | src/user_sqlite3.c:118-251 | all bytes that a push compares lie in the caller's buffer if and only if it has so many bytes: 64 from where the last chunk begins |
| JournalCache.FourBytesRead | src/user_sqlite3.c:124-125 | four bytes pushed to the start of the file are compared with 64 |
| JournalCache.WholeBlocksRead | src/user_sqlite3.c:118-251 | a push that ends with a whole block reads nothing behind its data |
| JournalCache.FileCache.Pull | src/user_sqlite3.c:155-199 | bytes of existing blocks are delivered, other bytes of the caller stay |
| JournalCache.PushedSeen | src/user_sqlite3.c:201-251 | after any push, completed or broken off, each byte of a chunk that was stored is the one pushed; every other place shows what it did, or zeros of a new block |
| JournalCache.PushedBlocks | src/user_sqlite3.c:118-251 | the blocks kept afterwards are those kept before and those of the chunks stored: not blank, none of length 7 in front, and one of length 7 only where its block can be linked |
| JournalCache.AnyPushThenPull | src/user_sqlite3.c:118-251 | any push, completed or broken off, is read back if and only if what it did not store was there before |
| JournalCache.PushThenPull | src/user_sqlite3.c:118-199 | for any bytes in the caller's buffer, a pull gives a push back if and only if the caller sees only zeros wherever a chunk was taken for blank: older data of kept blocks, and its own bytes elsewhere |
| JournalCache.ZerosLost | src/user_sqlite3.c:124-125 | a concrete push of zeros that is lost |
| JournalCache.ZerosNeverSeen | src/user_sqlite3.c:124-125 | zeros pushed into an empty cache are never seen by a caller whose buffer holds ones |
| JournalCache.CompletesIff | src/user_sqlite3.c:235-237 | a push completes exactly when no chunk of its range has length 7, the value of SQLITE_NOMEM |
| JournalCache.SevenBytes | src/user_sqlite3.c:235-237 | seven bytes pushed to the start of the file end the push |
| JournalCache.SevenBytesStored | src/user_sqlite3.c:149-151 | seven bytes pushed over a kept block are stored although the push reports a failure |
| JournalCache.PushAllThenPull | src/user_sqlite3.c:155-251 | after any pushes into a new cache, completed or broken off, a pull into any buffer delivers the last byte stored in blocks with a chunk stored in them and leaves the caller's bytes elsewhere; the size is the largest end of a completed push |
| Sha256.ChooseAndMajority | external/ccan/sha256.c:52-59 | the short forms of Ch and Maj equal those of FIPS 180-4 |
| Sha256.Rotations | external/ccan/sha256.c:60-75 | the shift pairs are the rotations of FIPS 180-4 |
| Sha256.RoundStep | external/ccan/sha256.c:78-84 | one round, in place on two variables, is the round of section 6.2.2 |
| Sha256.ConstantsAgree | external/ccan/sha256.c:92-164 | the 64 constants of the rounds are those of section 4.2.2 |
| Sha256.Octet | external/ccan/sha256.c:92-100 | eight rounds with rotated variable names are eight rounds of the standard |
| Sha256.Advance | external/ccan/sha256.c:109-124 | updating one of sixteen words gives the next word of the 64-word schedule |
| Sha256.SixteenRounds | external/ccan/sha256.c:109-124 | sixteen unrolled rounds are rounds t to t + 15 |
| Sha256.Transform | external/ccan/sha256.c:87-168 | the transformation is that of section 6.2.2 |
| Sha256.Context.Add | external/ccan/sha256.c:179-212 | after adding data the context stands for the longer message, whatever was buffered |
| Sha256.Context.Update | external/ccan/sha256.c:220-224 | so it does after each update |
| Sha256.Context.Done | external/ccan/sha256.c:226-240 | padding ends on a block boundary and the result is the hash of the message |
| Sha256.HashPieces | external/ccan/sha256.c:220-240 | for any split of a message into updates the result is the FIPS 180-4 hash of the whole, whose constants are derived from primes |
| Sha256Standard.FewestZeros | external/ccan/sha256.c:232-234 | the padding has the fewest zeros that reach a block boundary |
| Sha256Standard.BlocksPrefix | external/ccan/sha256.c:179-212 | the chaining value depends on the blocks taken in only |
| Sha256Constants.InitialRoots | external/ccan/sha256.h:98-107 | the initial hash value has the fractional parts of the square roots of the first eight primes (section 5.3.3) |
| Sha256Constants.ConstantRoots | external/ccan/sha256.c:92-164 | the round constants have those of the cube roots of the first 64 primes (section 4.2.2) |
| Sha256Constants.PrimesInOrder | external/ccan/sha256.c:92-164 | the list of primes begins with 2, and each is followed by the next |
| Sha256Example.HashOfAbc | external/ccan/sha256.c:87-168 | the hash of the three letters abc is the one of the first example of FIPS 180-2 |
| Sha256Standard.WordsAndOctets | external/ccan/sha256.c:102-109 | words and their octets are the same, most significant octet first |
| Sha256Standard.NumberGrows | external/ccan/sha256.c:226-240 | the octets of a number, most significant first |
| Sha256Standard.AddCounts | external/ccan/sha256.c:78-84 | addition counts on, and from the largest word to 0 |
| RingBuffer.InvKept | external/circular_buffer/circular_buffer.c:112-142 | every single step of producer or consumer keeps the invariant of the shared ring |
| RingBuffer.NothingLost | external/circular_buffer/circular_buffer.c:112-142 | in every state any interleaving leads to, consumed ++ stored = produced and at most max - 1 bytes are stored |
| RingBuffer.OldestDelivered | external/circular_buffer/circular_buffer.c:128-142 | no slot is overwritten between being loaded and being released |
| RingBuffer.RefusedRightly | external/circular_buffer/circular_buffer.c:112-154 | a put gives up exactly when the ring was full as it loaded the tail, a get exactly when it was empty as it loaded the head, in either order of the two loads |
| RingBuffer.SlotInjective | external/circular_buffer/circular_buffer.c:22-30 | positions less than a ring apart have different slots |
| RingBuffer.CircularBuffer.Size | external/circular_buffer/circular_buffer.c:64-84 | the number of bytes stored |
| RingBuffer.CircularBuffer.TryPut | external/circular_buffer/circular_buffer.c:112-126 | appends unless full |
| RingBuffer.CircularBuffer.Put | external/circular_buffer/circular_buffer.c:98-110 | appends, dropping the oldest byte when full |
| RingBuffer.CircularBuffer.Get | external/circular_buffer/circular_buffer.c:128-142 | takes the oldest byte unless empty |
| RingBuffer.CircularBuffer.Full | external/circular_buffer/circular_buffer.c:150-154 | full means max - 1 bytes |
| RingBuffer.CircularBuffer.Peek | external/circular_buffer/circular_buffer.c:156-178 | shows the oldest bytes and changes nothing |

## Left out

Weaker than the code allows or the design promises:

- FatFile.File.LSeek: the bytes of a gap behind the former end of the file are unspecified, as in the code.
- QuickLzDecoder.Decompress: the bytes a stored packet is copied from have to be there, up to the length its header states; QuickLzDecoder.StoredReadsBehind says when that is more than the packet.
- JsonParse.ParseBuffer.ParseNumber: the C library's strtod is a parameter, which takes no more than it is given and, for the round trip, reads decimal integers by their positional value; doubles are real numbers without infinities.
- JournalCache.FileCache.Push: quotients of floating-point numbers are exact within the offsets allowed and are modelled by integers.
- ExFatChain.Volume.CreateChain: is asked for clusters in the middle of a list only where the chain can be followed; f_lseek makes it so everywhere, and without it the callers ask for the last cluster.
- ExFatChain.GrowThenSync: the sectors of the volume are counted in 32 bits, and have at most 4096 bytes.
- RingBuffer.NothingLost: memory is sequentially consistent; the overwriting put is not safe between two threads and is modelled for one only.
- LongName.DirRead: the buffer rebuilt is stated for names without the units 0x0000 and 0xFFFF.

Not modelled:

- FatFs: errors of the drive and the branches that only report an inconsistent file object; opening, closing, truncating and expanding files; directories and the search in them; generated short names; the checksum and names of exFAT entries; fast seek inside reads and writes (a file has no link map there); formatting and truncating exFAT volumes; more than one cluster at a time in the allocation bitmap; the byte layout of the exFAT FAT, which is an array of 32-bit words; time stamps; code pages; partitions and where a boot sector is found; FSINFO; filling FATs and root directory when formatting; erase blocks larger than a sector.
- Bit masks and shifts of FatFs, QuickLZ and cJSON are written as remainders and quotients; those of SHA-256 are bit-vector operations.
- QuickLZ: levels 1 and 2, streaming, word copies of x86 processors.
- cJSON: numbers that are not 32-bit integers, raw text, references, failing allocations, replaceable allocators, decimal points of locales, comparing, duplicating and minifying; the tree of the parser and printer is a value, and linking is a topic of `JsonList` only.
- Journal cache: failing allocations, freeing the list, the file methods around it, and SQLite.
- SHA-256: the helpers for integers, invalidating a context, the OpenSSL variant and processors with a 32-bit counter; the unrolled rounds are written as groups of eight and the round constants as a table; SHA-512.
- Ring buffer: allocation, and resetting a ring in use.
- Everything else in the repository: hardware drivers, user interface, images, scripts, SQL.
