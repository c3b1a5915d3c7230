# A model of AquaFS, the zoned log-structured file system

AquaFS keeps files on a device of append-only zones. Files are lists of extents; a metadata log in its own
zones says which; an allocator hands out zones within two device limits; a collector moves extents; and a
mount after a crash has nothing but the zones to go by. This project models that core and proves what it
is for: what is on the device after any crash is what the file system says is there, no file touches the
bytes of another, and the checksum and hash kernels compute what they are defined to compute.

Classes stand for the source's objects and are proved method by method; functions and relations on values
say what the methods do; state machines stand for threads and for crashes. `dafny verify dfyconfig.toml`
checks everything.

| module | what it is |
|---|---|
| `Zoned`, `ZonedDevice` | zones and their bytes; class `Device` with the zone allocator, append, read, reset |
| `Extents`, `FileSteps`, `Images`, `Recovery`, `CrashSafety` | files as extent lists: what every step of a writer keeps, what a crash finds after each device write, when recovery is exact |
| `ZoneFiles`, `WritableFile` | classes `ZoneFile` and `ZonedWritableFile`, field by field |
| `Migration` | the collector's copy, the swap of the extent list, the freeing of the old places |
| `Space` | all files of a device together: what a step of one file, a reset, a migration and the end of an object keep |
| `Store` | the live files and, apart from them, what the metadata log says: whole runs with deletions, migrations, resets, crashes and mounts |
| `ActiveTokens`, `OpenTokens`, `ExtentLock`, `Counting` | any interleaving of threads at the token counters and at the extent list's lock |
| `Powers`, `Coding`, `FileCodec`, `MetaLog` | the encodings, and class `AquaMetaLog` with its CRC frames |
| `CrcDetection`, `FrameDamage` | which damage the CRC notices, and what a damaged frame of the metadata log reads as |
| `FileTable`, `FileOps`, `FileRuns`, `FileFields` | names, links, replay, and the operations that persist, over whole runs with rolls and mounts; what they leave of every field |
| `SyncRace` | writers that push extents while a sync or a roll encodes, appends and marks |
| `AquaFs`, `LiveBytes`, `LogReplay` | class `AquaFS` over the bytes of its metadata zone; class `MountTable`, which rebuilds the table and the counts of live bytes from them |
| `MetaRoll`, `RollCrash` | the roll to a fresh metadata zone and the mount, with a crash between any two device operations; the same of the bytes that `AquaFS` leaves in its zones |
| `Crc32cTables`, `Crc32c`, `BijectiveHash` | CRC-32C (section 13.1 of RFC 7143) with its logarithmic combine; the 128-bit bijective hash |
| `ZoneFsFileCache` | the cache of open zone files |

## What turned out not to hold

Each has a concrete state that shows it, and the exact condition under which the code is right.

- A direct file that fills its zone to the last byte and is then synced records the next zone's address;
  after a crash it is given that zone's bytes (`CrashSafety.FilledZoneRecoversTheNext`). Exact condition:
  `CrashSafety.CrashAfterSync`, `Recovery.RecoveryExact`. Which other files it then overlaps:
  `Store.EdgeOverlaps`.
- A buffered file that is not sparse, crashed between a write and its record, comes back with the padding
  (`CrashSafety.UnsyncedWriteRecoversPadding`). Exact condition: `Recovery.RecoveryExact`.
- A migrated extent of 4 GiB or more is cut to 32 bits on the way and its bytes are lost
  (`Migration.LongExtentLost`). Exact condition: `Migration.RelocatedBytes`.
- A file created by a call whose record makes the log roll is not in the snapshot, and a later delete of it
  damages the log (`FileOps.CreateRolledLoses`, `FileOps.CreateRolledThenDelete`). Exact condition: the
  record of the creation fits behind the log in the current metadata zone (`AquaFs.AquaFS.OpenWritableFile`,
  `AquaFs.AquaFS.CreateFile`, `FileOps.CreateRecoveredIff`).
- An extent list whose replace record cannot be persisted is added to the old list by the next sync
  (`FileOps.ReplaceLost`). Exact condition there: nothing of the old list was ever persisted.
- A roll moves the log to a fresh zone before it knows that the snapshot fits. If it does not, the next records
  are acknowledged behind a lone superblock and lost at a mount, and the old zone, free now, can be wiped by
  the next roll, after which nothing can be mounted (`MetaRoll.LostBehindRefusal`). Exact conditions: the
  roll is refused if and only if a meta zone is free and the frames of superblock and snapshot exceed it
  (`AquaFs.AquaFS.RollMetaZoneLocked`); a crash then loses something if and only if a record was appended or
  the old zone taken since (`MetaRoll.CrashAnywhere`).
- Those three are exactly the ways in which an operation breaks the log's agreement with memory, if no writer
  runs in the middle of it (`FileRuns.StepKeepsIff`).
- The checksum of a metadata record covers its length field, and yet a damaged length may go unnoticed: cut by four,
  for exactly one ending of the record (`FrameDamage.LengthCut`). What is always noticed: one byte or 32 bits in a
  row of the record, any change of the checksum field, a length of the wrong parity
  (`FrameDamage.RecordDamage`, `FrameDamage.ChecksumDamage`, `FrameDamage.LengthDamage`, `FrameDamage.LengthGrown`).
- A metadata record of 2^31 bytes or more is written and cannot be read back, for the count of a device read is
  an int. Exact condition: `MetaLog.ReadBack`, `LogReplay.MountRebuilds`.
- For the same reason a read of 2^31 bytes or more from one extent fails (`ZoneFiles.LongReadFails`). Exact
  condition: every piece of the range is shorter (`ZoneFiles.ZoneFile.PositionedRead`).
- An append of 2^32 bytes is acknowledged and takes nothing, since lengths go through 32 bits
  (`WritableFile.NothingAccepted`). Exact condition: `WritableFile.ZonedWritableFile.Append`.
- A flush that fails when it has filled a zone leaves the buffer counted as full; tried again it writes some bytes
  twice. Exact condition, and how many: `WritableFile.RetryRepeats`.
- An extent pushed while another thread syncs or rolls counts as synced and is in no record
  (`SyncRace.LosingRun`). Exact condition, over all runs: none was pushed between an encoding of the file and
  its mark since the last snapshot (`SyncRace.TracksIff`).
- A rename of a file onto its own name deletes it (`FileOps.RenameSelf`). Exact condition: the names differ
  (`FileOps.RenameMovesIff`).
- A rename over an existing file persists two records; a crash between them leaves the new name without a
  file. Exact condition for an atomic rename: the new name was free (`FileOps.RenameAtomicIff`).
- A direct read may write past the caller's buffer: it rounds each piece up to blocks and reads it into the
  buffer as it is (`ZoneFiles.ReadOverruns`: two extents of 3 and 13 bytes, blocks of 16, a read of 16 bytes
  writes 19). Exact condition: `ZoneFiles.BufferSuffices`; how far it writes: `ZoneFiles.ZoneFile.PositionedRead`.
- File ids are given again after a mount when the log no longer mentions them (`FileRuns.IdsStartOver`). Which
  id comes next: `FileRuns.RemountedNextId`.
- An active-zone token whose zone is filled by the collector, or closed by a writer that has written nothing, is not
  given back before the next mount. Exact condition for an exact counter: none of these happens
  (`ActiveTokens.TokensExactIff`). With all tokens lost that way nothing can be written any more
  (`ActiveTokens.StarvingRun`, `ActiveTokens.StarvedStays`).
- One notification for two kinds of waiters may go to a thread that cannot use it (`OpenTokens.WakeupLost`).
  Exact condition: `OpenTokens.NotifyOneEnough`.

Not a failure, but worth knowing: a device without a limit gives zero for its open-zone limit
(AquaZFS/fs/zonefs_aquafs.cc:210), and a file cache of limit zero then evicts nothing, by unsigned wrap-around
(`ZoneFsFileCache.NoLimitAtZero`). The number bounds the cache if and only if it is not zero
(`ZoneFsFileCache.BoundedIff`).

## Model

| member | source | states |
|---|---|---|
| Crc32c.TablesCorrect | AquaZFS/util/crc32c.cc:31-206 | each of the four tables holds eight, sixteen, 24 and 32 steps of the reflected polynomial for its byte |
| Crc32c.SlowCrc32 | AquaZFS/util/crc32c.cc:219-229 | eight bytes through the tables advance the register exactly as 64 bits fed one at a time |
| Crc32c.ExtendImpl | AquaZFS/util/crc32c.cc:251-292 | for every buffer, length and address the result is the bit-by-bit CRC-32C extension |
| Crc32c.ExtendAppend | AquaZFS/util/crc32c.cc:251-292 | extending by a and then by b is extending by a ++ b |
| CrcDetection.BurstDetected | AquaZFS/util/crc32c.cc:251-292 | two strings that differ within 32 consecutive bits have different CRCs, from any starting value |
| CrcDetection.ParityDetected | AquaZFS/util/crc32c.cc:251-292 | so have two strings of any lengths whose numbers of set bits differ in parity |
| CrcDetection.BridgeOnly | AquaZFS/util/crc32c.cc:251-292 | from one register to another there is exactly one string of four bytes |
| Crc32c.MultiplyIsProduct | AquaZFS/util/crc32c.cc:1164-1178 | the shift-and-add loop is the product of polynomials modulo the CRC polynomial |
| Crc32c.ProductCommutes | AquaZFS/util/crc32c.cc:1164-1178 | that product commutes |
| Crc32c.GfPowerIsPower | AquaZFS/util/crc32c.cc:1184-1227 | each memoised square is the stated power of x |
| Crc32c.Crc32AppendZeroes | AquaZFS/util/crc32c.cc:1230-1251 | repeated squaring over the bits of k gives the register after 4k zero bytes, for every k |
| Crc32c.PureExtendZeroes | AquaZFS/util/crc32c.cc:1305-1313 | a register extended by any number of zero bytes |
| Crc32c.Crc32cCombine | AquaZFS/util/crc32c.cc:1315-1320 | from crc(a), crc(b) and the length of b alone: the CRC of a ++ b |
| BijectiveHash.Multiply64to128 | AquaZFS/base/math128.h:171-191 | the four partial products give the exact 128-bit product, without overflow |
| BijectiveHash.AvalancheInverse | AquaZFS/util/hash.cc:132-144 | unavalanche undoes avalanche on every word |
| BijectiveHash.BijectiveHash2x64 | AquaZFS/util/hash.cc:148-166 | the updates of the halves compute the hash function that the two inverse laws are about |
| BijectiveHash.BijectiveUnhash2x64 | AquaZFS/util/hash.cc:168-190 | likewise for the inverse |
| BijectiveHash.UnhashHash | AquaZFS/util/hash.cc:148-190 | unhash inverts hash for every input and seed |
| BijectiveHash.HashUnhash | AquaZFS/util/hash.cc:148-190 | hash inverts unhash for every input and seed, so the hash is a bijection |
| Coding.GetPutFixed32 | AquaZFS/base/coding.h:274-281 | a 32-bit field is read back, and what follows it is left over |
| Coding.GetPutFixed64 | AquaZFS/base/coding.h:265-272 | a 64-bit field is read back, and what follows it is left over |
| Coding.EncodeVarint64 | AquaZFS/base/coding.h:182-191 | the loop writes the unique seven-bit groups, least first |
| Coding.VarintLength | AquaZFS/base/coding.h:256-263 | the length loop counts the bytes that the encoder writes |
| Coding.EncodeVarint32IsVarint | AquaZFS/base/coding.cc:25-51 | the unrolled 32-bit encoder writes the same bytes as the loop |
| Coding.GetVarint32 | AquaZFS/base/coding.cc:57-73 | the decoding loop and its one-byte fast path agree with the decoder that inverts the encoding |
| Coding.GetPutLengthPrefixed | AquaZFS/base/coding.h:229-232 | a length-prefixed string is read back if and only if its length fits 32 bits |
| FileCodec.DecodeFrom | AquaZFS/fs/io_aquafs.cc:129-199 | the tag loop computes the decoder that the round trips are about, corruption included |
| FileCodec.DecodeEncodeFile | AquaZFS/fs/io_aquafs.cc:68-105 | what decoding an encoded file gives, for every file: the file itself exactly if its extents lie in IO zones and its names are not empty |
| FileCodec.DecodeEncodeRecord | AquaZFS/fs/fs_aquafs.cc:1178-1190 | every record of the log, the snapshot with one entry per name included, is read back as it was |
| FileTable.UpdateMirrors | AquaZFS/fs/fs_aquafs.cc:1206-1245 | replaying an update or replace of one file turns a copy of the old table into a copy of the new one |
| FileTable.CreationMirrors | AquaZFS/fs/fs_aquafs.cc:1240-1245 | replaying the record of a new file enters it in the copy |
| FileTable.DeletionMirrors | AquaZFS/fs/fs_aquafs.cc:1279-1305 | replaying a deletion takes exactly that name and link off the copy |
| FileTable.SnapshotMirrors | AquaZFS/fs/fs_aquafs.cc:1247-1266 | a snapshot, which writes a linked file once per name, is decoded to the same names, the same files and the same sharing, for any link structure |
| FileTable.SharingAgrees | AquaZFS/fs/fs_aquafs.cc:1260-1261 | equal tables share objects between the same names |
| FileOps.SyncOp | AquaZFS/fs/fs_aquafs.cc:549-575 | a metadata sync keeps the indices, the tracking of what is persisted, and recoverability, however the record is persisted |
| FileOps.ReplaceOp | AquaZFS/fs/fs_aquafs.cc:523-546 | so does the replacement of an extent list whose record is persisted |
| FileOps.ReplaceFails | AquaZFS/fs/fs_aquafs.cc:528-534 | if it is not, memory has the new list, all of it unsynced, and the log is as it was |
| FileOps.ReplaceLost | AquaZFS/fs/fs_aquafs.cc:549-575 | the next sync then makes replay list the old extents and after them the new ones: right if and only if none of the old was ever persisted |
| FileOps.DeleteOp | AquaZFS/fs/fs_aquafs.cc:600-630 | a persisted delete takes exactly that name; the file is marked deleted if it was the last |
| FileOps.DeleteRollback | AquaZFS/fs/fs_aquafs.cc:617-620 | a delete that cannot be persisted restores the table, up to the order of links |
| FileOps.LinkOp | AquaZFS/fs/fs_aquafs.cc:1100-1121 | a persisted link adds exactly that name, to the same object |
| FileOps.LinkRollback | AquaZFS/fs/fs_aquafs.cc:1117-1121 | a link that cannot be persisted leaves the table as it was |
| FileOps.RenameOp | AquaZFS/fs/fs_aquafs.cc:1044-1086 | a rename to another name moves the object there, over an existing file or not |
| FileOps.RenameToRollback | AquaZFS/fs/fs_aquafs.cc:1073-1079 | a rename that cannot be persisted restores the table, up to the order of links |
| FileOps.RenameSelf | AquaZFS/fs/fs_aquafs.cc:1060-1071 | a rename onto itself deletes the name and then fails |
| FileOps.RenameMovesIff | AquaZFS/fs/fs_aquafs.cc:1044-1086 | a persisted rename moves the object to the new name if and only if the names differ |
| FileOps.RenameAtomicIff | AquaZFS/fs/fs_aquafs.cc:1044-1086 | at every crash point of a rename the names are those before or those after, if and only if nothing had the new name |
| FileOps.CreateRecoveredIff | AquaZFS/fs/fs_aquafs.cc:894-912 | a created file is recovered after a crash if and only if its record was appended, not rolled; AquaFS says when it is |
| FileOps.CreateRolledLoses | AquaZFS/fs/fs_aquafs.cc:508-521 | after a create that rolled the log, replay does not know the file |
| FileOps.CreateRolledThenDelete | AquaZFS/fs/fs_aquafs.cc:1279-1291 | and deleting it then makes the log unreadable |
| FileOps.FormattedInv | AquaZFS/fs/fs_aquafs.cc:1584-1645 | a fresh file system satisfies the invariant that all runs keep |
| FileRuns.StepKeepsIff | AquaZFS/fs/fs_aquafs.cc:440-1129 | every operation, succeeding, rolled back or refused, and every roll and mount keeps it, except in exactly three cases: the log rolls for the record of a create, the replace record of a file with persisted extents is refused, and a roll switches zones and cannot write its snapshot |
| FileRuns.RunRecoverable | AquaZFS/fs/fs_aquafs.cc:1346-1429 | after any run without those three cases, with any crashes and mounts in it, replaying the current log gives exactly the table as last persisted: ids, link sets, extents, sizes, active extent starts |
| FileRuns.RemountStep | AquaZFS/fs/fs_aquafs.cc:1346-1429 | what replay leaves in memory has the names there were, with the files as last persisted, and satisfies the invariant |
| FileRuns.RemountedNextId | AquaZFS/fs/fs_aquafs.cc:1240-1245 | after it the next id is the least above all that the log mentions |
| FileRuns.IdsStartOver | AquaZFS/fs/fs_aquafs.cc:1247-1266 | with no file left, a roll and a mount begin again with the first id |
| FileRuns.DeletedGone | AquaZFS/fs/fs_aquafs.cc:600-630 | a persisted delete makes the file's id one that no file has if and only if it takes the last name |
| FileRuns.DeletedNeverRecovered | AquaZFS/fs/fs_aquafs.cc:600-630 | from any state, behind a mount too: an id that no file has any more is in no table a crash recovers, whatever runs up to the next mount |
| FileFields.CreatedFound | AquaZFS/fs/fs_aquafs.cc:894-912 | a created file has, in memory and under its name on record, the id that was next, one name, no extents, size 0, no extent start, and the sparseness and time of the call |
| FileFields.SyncedFields | AquaZFS/fs/fs_aquafs.cc:549-575 | a sync sets the modification time of its file and changes no other field of any file; the record has the file as it is in memory |
| FileFields.ReplacedFields | AquaZFS/fs/fs_aquafs.cc:523-531 | a replacement sets the extents of its file and changes no other field of any file |
| FileFields.LinkedFields | AquaZFS/fs/fs_aquafs.cc:1100-1121 | a link leaves the data of its file as they were, on record too, and all other files |
| FileFields.RenameFields | AquaZFS/fs/fs_aquafs.cc:1044-1086 | so does a rename, whether or not it replaces a file |
| FileFields.DeletedFields | AquaZFS/fs/fs_aquafs.cc:600-630 | a delete leaves the data of its file as they were, and all other files |
| SyncRace.TracksIff | AquaZFS/fs/fs_aquafs.cc:417-430 | after any interleaving of writers with syncs and rolls, the log gives a file exactly the extents that count as synced, if and only if none was pushed between an encoding of the file and its mark since the last snapshot |
| SyncRace.CrashAnywhere | AquaZFS/fs/fs_aquafs.cc:549-575 | a crash in the middle of any of this: if nothing was lost, the log gives a beginning of the file with all that counts as synced |
| SyncRace.LostStays | AquaZFS/fs/fs_aquafs.cc:549-575 | what was lost stays lost until the next snapshot, whatever is synced |
| SyncRace.SyncQuietly | AquaZFS/fs/fs_aquafs.cc:549-575 | a sync with nothing pushed meanwhile is the atomic step that FileRuns takes it for |
| SyncRace.LosingRun | AquaZFS/fs/io_aquafs.cc:452-468 | a run from the start after which replay gives the first and third of three extents, all counted as synced |
| AquaFs.AquaFS.AddRecord | AquaZFS/fs/fs_aquafs.cc:151-184 | the zone's bytes are the frames of the records, one more, or none if it does not fit |
| AquaFs.AquaFS.RollMetaZoneLocked | AquaZFS/fs/fs_aquafs.cc:440-486 | the log is then exactly superblock and snapshot in a fresh zone, every named file is synced, the table is unchanged, the old zone wiped and free; on the way every device write leaves the old log in its zone, beside an empty zone or a lone superblock, or the snapshot in the new one; the log is broken if and only if a meta zone is free and the two frames do not fit it, and the old zone then keeps its records and is free and full |
| AquaFs.RollFitsIs | AquaZFS/fs/fs_aquafs.cc:1178-1190 | whether they fit does not depend on the order in which the names are walked |
| AquaFs.AquaFS.PersistRecord | AquaZFS/fs/fs_aquafs.cc:508-521 | appended, exactly if there is room in the zone, or rolled, or failed with nothing changed; broken exactly if there is no room and the roll breaks |
| AquaFs.AquaFS.SyncFileMetadataNoLock | AquaZFS/fs/fs_aquafs.cc:549-575 | the new state and status are those of the operation proved in FileOps |
| AquaFs.AquaFS.DeleteFileNoLock | AquaZFS/fs/fs_aquafs.cc:600-630 | likewise, and which records fit |
| AquaFs.AquaFS.RenameFileNoLock | AquaZFS/fs/fs_aquafs.cc:1044-1086 | likewise |
| AquaFs.AquaFS.LinkFile | AquaZFS/fs/fs_aquafs.cc:1100-1129 | likewise |
| AquaFs.AquaFS.OpenWritableFile | AquaZFS/fs/fs_aquafs.cc:863-917 | a file that is reopened is left as it is; else state and status are those of the operation, and the file under the name, in memory and if recovered on record, has the id that was next, that name alone, no extents, size 0, the modification time given, and is sparse if and only if its name ends in .log and it is not written directly; a crash afterwards leaves the name if and only if the record of the creation fitted behind the log, with the deletion of a former file on it |
| AquaFs.AquaFS.CreateFile | AquaZFS/fs/fs_aquafs.cc:894-912 | the creation alone: field by field what was asked for, in memory and on record; recovered if and only if its record fits the zone as it is before the call |
| AquaFs.AquaFS.SyncFileExtents | AquaZFS/fs/fs_aquafs.cc:523-531 | likewise, up to the counts of live bytes |
| MetaLog.UnmaskMask | AquaZFS/util/crc32c.h:42-51 | unmasking a masked checksum gives it back, for every 32-bit value |
| MetaLog.AquaMetaLog.AddRecord | AquaZFS/fs/fs_aquafs.cc:151-184 | the zone gains exactly one frame, padded to blocks, or nothing and NoSpace |
| MetaLog.AquaMetaLog.ReadRecord | AquaZFS/fs/fs_aquafs.cc:216-266 | unless a device read fails: the record at the read position, the end, or an error if the checksum does not match |
| MetaLog.ParseFrame | AquaZFS/fs/fs_aquafs.cc:216-266 | a frame read back gives its record and the place of the next, if the record is shorter than 2^31 bytes, and an error if not |
| MetaLog.ReadBack | AquaZFS/fs/fs_aquafs.cc:151-266 | a list of records is read back in order, and then the end, if and only if each is shorter than 2^31 bytes |
| FrameDamage.RecordDamage | AquaZFS/fs/fs_aquafs.cc:249-257 | a frame whose record is damaged within any 32 consecutive bits is not read as a record but as an error |
| FrameDamage.ByteDamage | AquaZFS/fs/fs_aquafs.cc:249-257 | nor is one with a byte of the record replaced |
| FrameDamage.ChecksumDamage | AquaZFS/fs/fs_aquafs.cc:252-257 | nor one with any other checksum in its header |
| FrameDamage.LengthDamage | AquaZFS/fs/fs_aquafs.cc:171-173 | nor one with another length whose field, with what it then covers, differs in parity from what was written |
| FrameDamage.LengthGrown | AquaZFS/fs/fs_aquafs.cc:171-173 | so for a length that grows into the padding and whose own parity changes |
| FrameDamage.LengthCut | AquaZFS/fs/fs_aquafs.cc:171-173 | a length cut by four is noticed, except for exactly one four-byte ending of the record: then the rest is read as a record |
| LogReplay.ReplayEncoded | AquaZFS/fs/fs_aquafs.cc:1346-1429 | replaying the encoded records is replaying the records |
| LogReplay.MountTable.DecodeFileUpdateFrom | AquaZFS/fs/fs_aquafs.cc:1206-1245 | the table of the replay function, and the counts of live bytes still exact: through the decoded temporary object, the merge, and the end of any object that loses its last name |
| LogReplay.MountTable.MergeExtents | AquaZFS/fs/io_aquafs.cc:201-228 | replaced extents come off, the update's go on once, the temporary ones come off |
| LogReplay.MountTable.DecodeSnapshotFrom | AquaZFS/fs/fs_aquafs.cc:1247-1266 | the table of the replay function, and the counts exact although a linked file is decoded once per name |
| LogReplay.MountTable.DecodeFileDeletionFrom | AquaZFS/fs/fs_aquafs.cc:1279-1305 | the table of the replay function, and the counts exact |
| LogReplay.MountTable.ClearFiles | AquaZFS/fs/fs_aquafs.cc:409-414 | no file is left and every zone counts nothing |
| LogReplay.MountTable.RecoverFrom | AquaZFS/fs/fs_aquafs.cc:1346-1429 | from the bytes of the zone: the table, not found, or damaged, as the replay of its records; and on success every zone's count is what the recovered files have in it |
| LogReplay.MountRebuilds | AquaZFS/fs/fs_aquafs.cc:1346-1429 | mounting the bytes that AquaFS keeps in its zone rebuilds the table as last persisted, if and only if no record is too long to be read; else the log counts as damaged |
| MetaRoll.Mount | AquaZFS/fs/fs_aquafs.cc:1451-1560 | the scan settles on the zone of highest sequence whose log has a snapshot, and recovers its table |
| MetaRoll.ActKeeps | AquaZFS/fs/fs_aquafs.cc:440-486 | every device operation of a roll, every refusal, crash and mount keeps: the zone with the last snapshot holds exactly the acknowledged records and outranks the others; or, once harm is done, no zone of its number has them all |
| MetaRoll.DurableOnly | AquaZFS/fs/fs_aquafs.cc:440-486 | as long as nothing is lost, only an appended record and the roll's own snapshot change what a crash must preserve |
| MetaRoll.CrashAnywhere | AquaZFS/fs/fs_aquafs.cc:1432-1582 | wherever the power fails in any run, the next mount replays exactly the acknowledged records from the zone with the last snapshot, if and only if no refused roll was followed by an append or by the loss of the old zone |
| MetaRoll.NothingRefused | AquaZFS/fs/fs_aquafs.cc:1432-1582 | so without a refused roll nothing is ever lost |
| MetaRoll.LostBehindRefusal | AquaZFS/fs/fs_aquafs.cc:461-485 | from a formatted file system: a refused roll, a file created and acknowledged, and a mount that does not know it; after the next roll has begun, no mount at all |
| RollCrash.RollMounts | AquaZFS/fs/fs_aquafs.cc:440-486 | from zones in which a mount finds the log: what AquaFS.RollMetaZoneLocked promises of its device writes means that after each of them a mount finds the log as it was or the snapshot, and the snapshot at the end |
| RollCrash.FailedRollMounts | AquaZFS/fs/fs_aquafs.cc:440-486 | likewise for a roll that fails: the log as it was, after each device write and at the end |
| RollCrash.AppendMounts | AquaZFS/fs/fs_aquafs.cc:508-521 | an appended record that can be replayed keeps it so that a mount finds the log |
| RollCrash.FormattedMounts | AquaZFS/fs/fs_aquafs.cc:1584-1645 | a fresh file system is in such a state |
| RollCrash.ShownReads | AquaZFS/fs/fs_aquafs.cc:216-266 | reading a metadata zone from its start gives the records that it is said to show, and no others |
| ZonedDevice.Device.Append | AquaZFS/fs/zbd_aquafs.cc:115-142 | all of the data at the write pointer, however the backend splits it, or nothing and NoSpace |
| ZonedDevice.Device.Read | AquaZFS/fs/zbd_aquafs.cc:703-724 | what it returns is what was written there; the count is cut to an int, nothing and negative counts are errors; less than asked only after a fault |
| ZonedDevice.Device.GetBestOpenZoneMatch | AquaZFS/fs/zbd_aquafs.cc:636-674 | exactly the returned zone is newly held: among the free, used, unfilled zones with room the last of those that the file prefers, which is none only if there are none |
| ZonedDevice.Device.ApplyFinishThreshold | AquaZFS/fs/zbd_aquafs.cc:559-588 | exactly the free, partly written zones below the threshold are finished, all else is as it was, and one token goes back for each |
| ZonedDevice.Device.FinishCheapestIOZone | AquaZFS/fs/zbd_aquafs.cc:590-634 | exactly the first free, partly written zone of least capacity is finished |
| ZonedDevice.Device.AllocateIOZone | AquaZFS/fs/zbd_aquafs.cc:760-875 | the decision in plain lifetimes: a zone is reused if one outlives the file, or both say in the same way that they have no lifetime, or, with no active token left, one has the file's own lifetime; the one reused is the best; else an empty zone is opened, after the cheapest has been finished if no token is left; exactly the returned zone is newly held and one more open token out, if and only if one is returned; no active token leaks |
| ZonedDevice.DiffMeans | AquaZFS/fs/zbd_aquafs.cc:440-457 | what the lifetime differences mean: zones that outlive the file come first, by least, then those of its own lifetime, then the rest |
| ZonedDevice.BestTells | AquaZFS/fs/zbd_aquafs.cc:792-805 | the best match alone tells whether any zone outlives the file, or has its lifetime |
| ZonedDevice.Device.ResetUnusedIOZones | AquaZFS/fs/zbd_aquafs.cc:486-503 | exactly the free zones with data and no live bytes are wiped, and tokens go back for the unfilled ones |
| ZonedDevice.Device.AllocateMetaZone | AquaZFS/fs/zbd_aquafs.cc:459-484 | the first free meta zone, wiped |
| ActiveTokens.StepKeeps | AquaZFS/fs/zbd_aquafs.cc:486-692 | every atomic operation of any thread keeps: partly written zones, held zones and tokens under way are within the counter, and the counter within its limit |
| ActiveTokens.ActiveLimit | AquaZFS/fs/zbd_aquafs.cc:530-634 | so in every interleaving the device never has more partly written zones than it allows |
| ActiveTokens.StepSlack | AquaZFS/fs/zbd_aquafs.cc:530-634 | every action accounts exactly for the tokens, except two that lose one: the collector lets go of a zone it has filled, a writer of a zone it has not written to |
| ActiveTokens.TokensExactIff | AquaZFS/fs/io_aquafs.cc:265-280 | between quiet states of any run the counter equals the number of partly written zones and of tokens lost; it is exact if and only if none was lost |
| ActiveTokens.StarvedStays | AquaZFS/fs/zbd_aquafs.cc:801-845 | with all tokens lost no zone is ever opened or written again, whatever is reset |
| ActiveTokens.StarvingRun | AquaZFS/fs/zbd_aquafs.cc:726-738 | a run from the start to that state: one extent moved into the last of a zone |
| OpenTokens.WalReserve | AquaZFS/fs/zbd_aquafs.cc:505-528 | in every interleaving others leave one open token to write-ahead logs, and a log waits only while a log holds one |
| OpenTokens.NotifyOneEnough | AquaZFS/fs/zbd_aquafs.cc:543-557 | when some sleeper could go on, whichever one a notification picks takes a token if and only if all sleepers are logs or two tokens are free |
| OpenTokens.WakeupLost | AquaZFS/fs/zbd_aquafs.cc:543-549 | a run from the start after which a log sleeps although a token is free for it and the notification is used up |
| ExtentLock.StepKeeps | AquaZFS/fs/io_aquafs.h:168-191 | every atomic operation of a reader or a writer keeps the lock's invariant |
| ExtentLock.OneListPerRead | AquaZFS/fs/io_aquafs.cc:734-740 | while the list is replaced nobody reads or can begin to; a reader sees one list from start to end |
| ZoneFiles.ZoneFile.PushExtent | AquaZFS/fs/io_aquafs.cc:452-468 | the pending bytes become one extent, counted in its zone; the content does not change |
| ZoneFiles.ZoneFile.AllocateNewZone | AquaZFS/fs/io_aquafs.cc:470-485 | the allocator's decision for the file's own lifetime and kind; a zone nobody held is open and on record before anything is written to it |
| ZoneFiles.ZoneFile.CloseActiveZone | AquaZFS/fs/io_aquafs.cc:265-280 | the zone and its tokens go back; only an empty zone leaves its active token behind |
| ZoneFiles.ZoneFile.CloseWR | AquaZFS/fs/io_aquafs.cc:302-310 | the record that nothing is open comes before the release, so that no other file can get at a zone that the record has the file start in; every crash between is covered |
| ZoneFiles.ZoneFile.Append | AquaZFS/fs/io_aquafs.cc:601-636 | the content gains exactly the data, its length taken modulo 2^32, over any number of zones, or a beginning of it with an error; every crash on the way is covered, no other file disturbed |
| ZoneFiles.ZoneFile.AppendSegments | AquaZFS/fs/io_aquafs.cc:488-598 | the same for the buffered and the sparse append, with headers, padding and moves of the buffer; if it fails, what is left is at the front of the buffer |
| ZoneFiles.ZoneFile.GetExtent | AquaZFS/fs/io_aquafs.cc:317-327 | the extent that holds a file offset, and its device address; none exactly past the end |
| ZoneFiles.ZoneFile.PositionedRead | AquaZFS/fs/io_aquafs.cc:361-450 | without device faults: exactly the bytes from the offset to the end of the range, the size or the extents, and memory written exactly up to the reach of the reads, past the result with what follows on the device, if every piece of the range fits an int; an error if and only if not; with faults a beginning of the bytes, or an error and nothing |
| ZoneFiles.LongReadFails | AquaZFS/fs/io_aquafs.cc:417-417 | an extent of 2^31 bytes is such a piece; one byte less is not |
| ZoneFiles.BufferSuffices | AquaZFS/fs/io_aquafs.cc:399-417 | the caller's buffer of n bytes is enough for a direct read if and only if the last piece lacks no more of a whole block than the range lacks of n; it is exceeded by less than a block; other reads stay within it |
| ZoneFiles.ReadOverruns | AquaZFS/fs/io_aquafs.cc:399-417 | extents of 3 and 13 bytes, blocks of 16: a direct read of 16 bytes reaches 19 |
| ZoneFiles.ZoneFile.RecoverSparseExtents | AquaZFS/fs/io_aquafs.cc:638-682 | without device faults, exactly the writes whose headers stand in the zone, each counted |
| ZoneFiles.ZoneFile.Recover | AquaZFS/fs/io_aquafs.cc:684-732 | without device faults it carries out the recovery function, and the zones' counts move with the extents |
| WritableFile.ZonedWritableFile.BufferedWrite | AquaZFS/fs/io_aquafs.cc:953-980 | what reached the device, then the buffer, is the old buffer followed by the data, its length taken modulo 2^32 |
| WritableFile.ZonedWritableFile.FlushBuffer | AquaZFS/fs/io_aquafs.cc:932-951 | the file gains the buffer, or a beginning of it with an error; then the rest is at the front of a buffer that counts as full as before |
| WritableFile.RetryRepeats | AquaZFS/fs/io_aquafs.cc:932-951 | a retry after that writes as many bytes too many as the first flush wrote; it is right if and only if that was none |
| WritableFile.ZonedWritableFile.Append | AquaZFS/fs/io_aquafs.cc:982-1005 | the same for an append in either mode; acknowledged, it has taken all of the data if and only if they are fewer than 2^32 bytes |
| WritableFile.NothingAccepted | AquaZFS/fs/io_aquafs.cc:954-954 | of exactly 2^32 bytes nothing is taken |
| WritableFile.ZonedWritableFile.DataSync | AquaZFS/fs/io_aquafs.cc:851-873 | nothing is buffered or pending afterwards, and a plain buffered file is on record |
| WritableFile.ZonedWritableFile.Fsync | AquaZFS/fs/io_aquafs.cc:875-892 | all that was appended is in the file, and the record is up to date |
| WritableFile.ZonedWritableFile.Close | AquaZFS/fs/io_aquafs.cc:917-930 | likewise, and nothing is open any more |
| FileSteps.ExtendStep | AquaZFS/fs/io_aquafs.cc:618-633 | a direct write: content, recoverability, counts, and nothing of other files |
| FileSteps.SegmentStep | AquaZFS/fs/io_aquafs.cc:572-584 | a buffered or sparse write, likewise |
| FileSteps.StoredCovered | AquaZFS/fs/io_aquafs.cc:572-579 | a crash between the device write and the update of the file still finds the write |
| FileSteps.MovedTwice | AquaZFS/fs/io_aquafs.cc:452-636 | steps that leave other files alone compose |
| Recovery.SparseRecovery | AquaZFS/fs/io_aquafs.cc:638-732 | a sparse file gets back the very extent list and size it had in memory |
| Recovery.RecoveryExact | AquaZFS/fs/io_aquafs.cc:684-732 | recovery gives back content and size if and only if nothing was open, or the recorded start lies in the zone written to and the file is sparse or wrote whole blocks, or that zone was full and the next is empty |
| CrashSafety.CrashDuringWrite | AquaZFS/fs/io_aquafs.cc:452-636 | a crash after any device write or record leaves the old content and a beginning of the new; recovery gives exactly that if and only if the image is recoverable |
| CrashSafety.SparseCrash | AquaZFS/fs/io_aquafs.cc:638-682 | a sparse file comes back from any crash image extent by extent |
| CrashSafety.CrashAfterSync | AquaZFS/fs/io_aquafs.cc:684-732 | a crash after a sync loses nothing, unless the zone was just filled and the next is not an empty one |
| CrashSafety.SettledBytes | AquaZFS/fs/io_aquafs.cc:361-450 | with nothing pending, what reads see is all that was written |
| CrashSafety.FilledZoneRecoversTheNext | AquaZFS/fs/io_aquafs.cc:466-466 | a synced direct file whose recovery takes the next zone's bytes |
| CrashSafety.UnsyncedWriteRecoversPadding | AquaZFS/fs/io_aquafs.cc:715-720 | a buffered file whose recovery takes padding for data |
| Migration.MigrateData | AquaZFS/fs/io_aquafs.cc:1073-1108 | the target gains exactly the extent's bytes up to a block, unless the start is not on a block or a read fails |
| Migration.TargetFits | AquaZFS/fs/zbd_aquafs.cc:740-758 | the zone taken for an extent always has room for the padded copy |
| Migration.RelocatedBytes | AquaZFS/fs/fs_aquafs.cc:1900-1944 | the moved extent holds the same bytes if and only if its length fits 32 bits |
| Migration.LongExtentLost | AquaZFS/fs/fs_aquafs.cc:1903-1930 | an extent of 4 GiB that is moved without being copied |
| Migration.MigrateExtent | AquaZFS/fs/fs_aquafs.cc:1900-1944 | an extent stays if and only if no free zone with live bytes has its length of room, of which 32 bits count; else it is copied to the end of the zone that suits the file best, and entered there |
| Migration.MigrateFileExtents | AquaZFS/fs/fs_aquafs.cc:1862-1951 | for any choice of extents: those not picked stay, those picked are served in turn by the file's lifetime and stay only if no zone left has room for them; the same content at the end and after every crash on the way; at no point does a zone count less than the recorded list has in it; every zone's count moved with the list, moved extents beyond what stood in zones that nobody held, and zones held by others untouched |
| Space.FileStepKeeps | AquaZFS/fs/io_aquafs.cc:452-636 | a step of one file keeps it apart from every other file and leaves the others' bytes in place |
| Space.ResetSpares | AquaZFS/fs/zbd_aquafs.cc:486-503 | a zone the reset would wipe holds no byte of any file, its record, or what recovery would give it |
| Space.ResetKeeps | AquaZFS/fs/zbd_aquafs.cc:486-503 | so the reset changes no file |
| Space.CopyKeeps | AquaZFS/fs/fs_aquafs.cc:1900-1944 | a copy of the collector keeps all files apart, their bytes, and the counts |
| Space.RelistKeeps | AquaZFS/fs/fs_aquafs.cc:523-534 | so does the swap of the extent list |
| Space.FreeKeeps | AquaZFS/fs/fs_aquafs.cc:536-543 | and the freeing of the old places |
| Space.DropKeeps | AquaZFS/fs/io_aquafs.cc:252-263 | and the end of a file object |
| Space.MigrationKeeps | AquaZFS/fs/fs_aquafs.cc:1862-1951 | a whole migration, by what its method promises, keeps all files apart and the bytes of the others |
| Store.ResetSparesLog | AquaZFS/fs/zbd_aquafs.cc:486-503 | nor any byte that a record of the log reaches, by a listed extent or by recovery |
| Store.EarlyDestroyExposes | AquaZFS/fs/fs_aquafs.cc:600-630 | an object that ended before its deletion is on the log would leave its recorded bytes to the reset |
| Store.StepKeeps | AquaZFS/fs/fs_aquafs.cc:600-630 | every write, record, deletion, end of an object, migration step, reset, crash and mount keeps: files apart, counts exact, and all that the log says held by a live object |
| Store.MountKeeps | AquaZFS/fs/fs_aquafs.cc:1432-1582 | a crash at any moment with the mount after it keeps all this, if no recorded start is the address just past a filled zone, or the zone there is empty |
| Store.MountExact | AquaZFS/fs/io_aquafs.cc:684-732 | mounting gives a file back content and size exactly under the condition on its own record and zones, whatever the others do |
| Store.EdgeFound | AquaZFS/fs/io_aquafs.cc:684-732 | else, where the recorded start is just past a filled zone: recovery fails, or adds extents of the next zone only, and for a file that is not sparse all that was written there |
| Store.EdgeOverlaps | AquaZFS/fs/io_aquafs.cc:684-732 | it then overlaps no file without data in that zone, and if it is not sparse every file with data there |
| Store.FormattedStore | AquaZFS/fs/fs_aquafs.cc:1584-1645 | a device of empty zones without files satisfies the invariant of all runs |
| Store.RunKeeps | AquaZFS/fs/zbd_aquafs.cc:486-503 | all this in every state of every run |
| Space.InvSays | AquaZFS/fs/io_aquafs.h:31-40 | extents of distinct files do not overlap, and each lies in one zone below its write pointer |
| ZoneFsFileCache.FileCache.Get | AquaZFS/fs/zonefs_aquafs.cc:67-85 | a hit moves to the front, a miss opens and evicts the least recently used, a failed open changes nothing; the index agrees with the list |
| ZoneFsFileCache.FileCache.Put | AquaZFS/fs/zonefs_aquafs.cc:51-58 | exactly that zone's file goes, from list and index |
| ZoneFsFileCache.FileCache.Resize | AquaZFS/fs/zonefs_aquafs.cc:87-93 | the most recently used files stay |
| ZoneFsFileCache.CacheIsRecency | AquaZFS/fs/zonefs_aquafs.cc:67-85 | after any run of gets that find their file, the cache holds exactly the most recently used zones, in order, up to its limit |
| ZoneFsFileCache.BoundedIff | AquaZFS/fs/zonefs_aquafs.cc:76-76 | over all runs of gets the cache holds no more than its limit says, if and only if the limit is not zero |
| ZoneFsFileCache.NoLimitAtZero | AquaZFS/fs/zonefs_aquafs.cc:210-210 | with the zero of a device without a limit all zones used stay open, in order |

## Left out

- Torn writes and failing device writes: an append of a zone is atomic to a crash, and only reads fail. The code has no fallback for a damaged record; that it is noticed is in FrameDamage.
- Offline zones, and resets that change a zone's capacity.
- ZoneFiles.ZoneFile.PersistMetadata: the record always gets written; what happens to the name table when it does not is in FileOps.
- ZoneFiles.ZoneFile.AppendSegments: BufferedAppend and SparseAppend are one method here, since they differ only in the header. What the end of the buffer holds after a failed flush, behind the data that is left, is not said.
- ZonedDevice.Device.AllocateIOZone: a call that would sleep or spin ends as Blocked; waiting and waking are in OpenTokens and ActiveTokens.
- ZonedDevice.Device.Read: a read interrupted by a signal is repeated by the source without limit; here the backend does not report it.
- Migration.MigrateData: a read that returns fewer bytes than asked ends the copy as a failure; the source does not check for it and goes on.
- Migration.MigrateFileExtents: nothing is said of the content if a read fails or an extent does not start on a block; the source then lists the new place all the same.
- MetaLog.AquaMetaLog.Read: a read that gets no more bytes is an error; the source tries forever.
- AquaFs.AquaFS.RollMetaZoneLocked: it says exactly when a roll breaks the log and sets `broken`; the methods of this class promise nothing of the log afterwards, and `records` keeps the log that was left. How such a system goes on, crashes and mounts is in MetaRoll.
- MetaLog.AquaMetaLog.AddRecord: a record within a block of 2^32 bytes, whose padded size wraps around, is not modelled; nor are blocks of 2^31 bytes.
- ZonedDevice.Device.BackendRead: a negative count is refused, as by the zoned block device; the zonefs backend with zones of 4 GiB and more may cut it to a positive one instead.
- AquaFs.AquaFS.RenameFileNoLock: a source that the file system does not know is left to the host file system.
- AquaFs.AquaFS.OpenWritableFile: where a file of the name goes first, the condition is stated for metadata zones of one size. What else reopening does, to the writer's lock and the zone, is not modelled. Of the superblock only the sequence number is told apart from the rest, which is a parameter of the class; RollCrash is about sequence numbers below 2^32, and in MetaRoll they do not wrap.
- FileRuns.RunRecoverable: an operation is one step, so no extent is pushed between the encoding of a record and the mark behind it; SyncRace takes the step apart and says exactly when that matters. A create whose record rolls the log, a replacement that cannot be persisted and a refused snapshot end these runs; their results are in FileOps and MetaRoll.
- FileRuns.DeletedNeverRecovered: the run ends at the next mount, since the id may be given again after it.
- FileRuns.RemountStep: the recovery of open extents that a mount does before its roll counts as a write.
- SyncRace.TracksIff: a snapshot encodes each file once, where the source does so once per name; replace records and deletions, which hold off the writer or end the file, are not in these runs.
- Recovery.Recover: header lengths within eight of 2^64, which would wrap around, are not modelled; a zone's write pointer is what the zone was written to, not what a device reports for a full zone.
- Store.MountKeeps: a record whose start is the address just past a filled zone, with data in the zone there, is shut out; what comes of it for the file itself is in Store.MountExact and Store.EdgeFound, for the others in Store.EdgeOverlaps.
- Store.StepKeeps: after a swap of the extent list the file's next record is its replace record or a snapshot; what an update record does after a refused one is in FileOps.ReplaceLost.
- ZoneFiles.ZoneFile.PositionedRead: memory goes on for a block behind the caller's buffer; what else lies there is not modelled. A direct read from a place off the block grid, which the device may refuse, is not told apart.
- ZoneFsFileCache.CacheIsRecency: runs with Put or Resize in them are not in it; each is described by its own method.
- File objects are entries of a list and names map to their numbers; sharing between names is modelled, the reference counts that end an object are modelled at mount only, not destructors at run time.
- The order in which a map is walked is left open.
- PositionedAppend, RangeSync, Truncate, Skip and sequential reads: wrappers of what is here, and Truncate sets the size without touching the extents.
- The sparse branch of migration: only `.sst` files are moved, and only `.log` files are sparse.
- The status that a rolled-back rename or link returns: it is that of the last rollback step.
- RAID backends and the record kind they append, the host file system behind auxiliary paths, directories, snapshots for tools, metrics, logging, configuration, the user-space mount, and the RocksDB base classes.
- Vector and hardware variants of CRC-32C, and the XXH3 hash itself.
- libzbd and zonefs system calls.
