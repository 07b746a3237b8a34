# Verified models of netatalk components

Netatalk is an AppleTalk and AFP file server with a set of command line tools. This project models the parts
of it whose correctness is hardest to see from the code, and proves in Dafny what they promise for every input,
every run and every failure of a call. `dafny verify dfyconfig.toml` checks all of it.

- **BinHex** (`Crc16`, `CrcBytes`, `Polynomial`, `CrcRemainder`, `HqxFormat`, `HqxStream`, `HqxFile`, `HqxEncoder`,
  `HqxDecoder`, `HqxConvert`). The checksum as the remainder of a polynomial division, the encoder of `nad` as its
  stack of stages, and the decoder as the resumable machine it is, with its 8192-byte buffer and its state between
  calls. The decoder is proved against a stream of bytes, requests against that stream may be
  cut anywhere, and a file that goes through both conversions comes back. The format is described in appendix A
  of RFC 1741.
- **Tree walk** (`FtwSpec`, `FtwCover`, `FtwAnswers`, `Ftw`, `FtwRun`,
  `FtwFollow`). `nftw` with a bounded ring of directory
  streams refines the plain recursive walk, for every number of descriptors and every callback. That walk reports each
  object once and obeys every answer of the callback. A walk that follows symbolic links ends on
  every graph of files, and enters each directory at most once.
- **Directory cache** (`ForkCache`, `AdMetadata`, `EaCache`). The budgeted resource fork cache with its linked LRU
  list, the metadata cache, and the packed buffer of extended attributes.
- **SRP store migration** (`Migration`, `MigrationRecords`, `MigrationRun`). The install protocol over a directory
  with durable entries and unsynced updates, under every pattern of failing calls and a crash at any point, the records
  that it writes, and both together.
- **ASP signals** (`AspSignals`), **PAP sending** (`Pap`), the **MacIP gateway** (`MacIp`, `MacIpLease`),
  **MacBinary** (`MacBinFormat`, `MacBinWriter`, `MacBinReader`) and **CAP names** (`Cap`).

Code that updates state is a class or a method with a loop here too, and its contract ties it to a definition
that does not mention the loop: a stream, a recursive walk, a map of records, a list of entries. Bytes are
integers from 0 to 255, 32-bit fields are integers below 2^32, and sums that wrap in C wrap explicitly.

Some promises hold only in part, and the project says exactly when:

- A CAP name comes back from its host name exactly if it does not itself spell an escape, that is a colon and two
  lowercase hex digits (`Cap.RoundTrip`, `Cap.ColonNameIsLost`).
- A MacIP lease lasts 330 seconds past the last packet of its holder, in every run, exactly at the addresses that
  `get_ipent` can find, and so not at the last address of the table (`MacIpLease.LeaseLastsIff`). That one is freed
  after a fixed number of passes, whatever packets and requests come (`MacIpLease.LastLeaseRunsOut`).
- Under FTW_DEPTH a directory that the walk enters need not be reported: an entry that cannot be looked at ends the
  walk with an error (`FtwSpec.DirectoryWithoutReport`). All entered directories are reported exactly if the walk
  does not end on a directory without its report (`FtwSpec.WalkLeavesWhatItEnters`). They are if every answer of the
  callback goes on and no object below the start fails that way (`FtwSpec.SoundTreeIsReported`), and for a callback
  that always answers 0 this condition on the tree is also necessary (`FtwSpec.ReportedIffSound`).
- The later of two modification dates comes out right exactly if the stat date fits 32 bits (`AdMetadata.LaterIsMax`).
- A MacBinary I header whose checksum happens to be zero is taken for one of MacBinary II, with the same fields
  (`MacBinFormat.FirstRoundTrip`).
- A walk with few descriptors reports what the plain walk reports unless a list of names overflows, which cannot
  happen where the names fit (`FtwRun.Nftw`).
- The name of a MacBinary file is in its header exactly if its length is at most 126, which the header test sees to
  for revision 1 only (`MacBinReader.NameLengthIsNotTested`).

## Model

| member | source | states |
|---|---|---|
| Crc16.Update | bin/nad/crc16.c:35-52 | The two nested loops compute the register of the recursive definition, which `CrcRemainder.FeedIsRemainder` shows to be a remainder, for every start value and message |
| Crc16.FeedComposes | bin/nad/crc16.c:35-52 | A message fed in two parts gives the register of the whole message |
| Crc16.FeedLinear | bin/nad/crc16.c:35-52 | The update is linear over exclusive or of registers and messages |
| Crc16.ResidueZero | bin/nad/crc16.c:35-52 | A message followed by its own CRC in network order leaves zero |
| Crc16.AdjacentDamageDetected | bin/nad/crc16.c:35-52 | Messages of any length that differ only within two neighbouring bytes have different CRCs |
| CrcRemainder.FeedIsRemainder | bin/nad/crc16.c:35-52 | The register after any message is the remainder of the message shifted by sixteen bits, behind the start value, under long division by x^16 + x^12 + x^5 + 1; product and division are those of sets of exponents |
| CrcRemainder.ChecksumIsRemainder | bin/nad/crc16.c:35-52 | The two bytes of a checksum hold the register, which is the only polynomial below degree 16 that the division of the part leaves |
| Polynomial.RemainderUnique | bin/nad/crc16.c:35-52 | Division by the generator leaves one remainder only |
| CrcBytes.BitsKeepTheValue | bin/nad/crc16.c:35-52 | The bit pattern that is fed for a byte has the value of the byte |
| HqxFormat.AlphabetRoundTrip | bin/nad/hqx.c:96-97 | The decoder's table undoes the alphabet for all 64 values |
| HqxFormat.AlphabetIsRfc1741 | bin/nad/hqx.c:96-97 | Each of the 64 values is written as the character at its place in the string of appendix A of RFC 1741 |
| HqxFormat.LookupIsRfc1741 | bin/nad/hqx.c:96-97 | The decoder takes a byte for a value exactly if that string has it, and for its place there; colon, line ends and blanks have codes of their own |
| HqxFormat.Pack | bin/nad/hqx.c:164-185 | Four six-bit values make the same number as the three bytes they stand for |
| HqxFormat.UnsixSixBits | bin/nad/hqx.c:1040-1045 | Unpacking packed bytes gives them back, followed by the one to three zeros of the padded last group |
| HqxFormat.ExpandEscape | bin/nad/hqx.c:1048-1079 | Run expansion undoes the 0x90 escape, whatever is packed behind it |
| HqxFormat.RunExpands | bin/nad/hqx.c:1049-1068 | A byte, 0x90 and a count stand for that many copies of the byte, a literal 0x90 included |
| HqxFormat.ExpandAppend | bin/nad/hqx.c:1048-1079 | Expansion in two parts, with the marker and last byte carried over, equals expansion of the whole |
| HqxFormat.WrapIsShaped | bin/nad/hqx.c:137-153 | Text wrapped at 63 columns has only lines the decoder takes for data, and carries the same six-bit values |
| HqxStream.SplitsAgree | bin/nad/hqx.c:954-1083 | Requests within the whole groups get the same bytes however they are split, also inside a run or before its count |
| HqxStream.SplitsArePrefix | bin/nad/hqx.c:954-1083 | Any requests get a prefix of the expanded stream, with at least all that the whole groups hold |
| HqxStream.EncodedStream | bin/nad/hqx.c:987-996 | The stream of an encoded payload has the whole payload, and only its last two bytes can lie in the terminator's group |
| HqxFile.ParseHeaderBytes | bin/nad/hqx.c:546-664 | Parsing a written header gives all fields back, with the Finder flags masked by 0xfcee |
| HqxFile.HeaderLayout | bin/nad/hqx.c:673-711 | Every field of the header lies where RFC 1741 has it: name, version, type, creator, flags and the two lengths |
| HqxFile.MaskIsFcee | bin/nad/hqx.c:695 | The two flag bytes are the bitwise conjunction with 0xfc and 0xee |
| CrcBytes.DamageShows | bin/nad/crc16.c:35-52 | Damage within two neighbouring bytes of a part changes its checksum field |
| CrcBytes.DamageUnseals | bin/nad/crc16.c:35-52 | A part with its checksum no longer fits it after damage within two neighbouring bytes, also across the end of the part |
| HqxEncoder.Encoder.PutChar | bin/nad/hqx.c:137-153 | The output grows by the character, with a line break where 63 columns are full |
| HqxEncoder.Encoder.Emit6bit | bin/nad/hqx.c:164-185 | One more packed byte: the text stays the wrapped six-bit form of all whole groups |
| HqxEncoder.Encoder.EmitByte | bin/nad/hqx.c:196-207 | One more byte in escaped form |
| HqxEncoder.Encoder.EmitData | bin/nad/hqx.c:216-227 | A buffer in escaped form |
| HqxEncoder.Encoder.Flush6bit | bin/nad/hqx.c:237-261 | The text is the banner, a colon and the wrapped six-bit form of all bytes, the short last group included |
| HqxEncoder.Encoder.HeaderWrite | bin/nad/hqx.c:673-711 | Fails exactly for names over 63 bytes, and otherwise sets up the header with its checksum and both forks |
| HqxEncoder.Encoder.FinishFork | bin/nad/hqx.c:272-292 | Succeeds exactly when the fork is complete, and then adds its checksum |
| HqxEncoder.Encoder.Append | bin/nad/hqx.c:739-746 | The checksum, the encoder and the remaining length take the same bytes |
| HqxEncoder.Encoder.Write | bin/nad/hqx.c:725-753 | The exact condition under which a write is accepted, and that a refused one changes nothing written |
| HqxEncoder.Encoder.Close | bin/nad/hqx.c:402-411 | Succeeds exactly when both forks are complete, with the full text of header, forks and three checksums |
| HqxEncoder.CopyFork | bin/nad/megatron.c:549-569 | The copy loop succeeds exactly if the chunks have the fork's length, and writes their concatenation |
| HqxEncoder.Hex | bin/nad/megatron.c:549-569 | For forks in any chunks: success exactly if the name has at most 63 bytes and the lengths fit, and the text is that of the whole file, in the alphabet and with the checksums that the rows above fix |
| HqxDecoder.Decoder.Fill | bin/nad/hqx.c:766-786 | The text still to decode is the unread part of the file, from the given place of the buffer on |
| HqxDecoder.Decoder.ScanLine | bin/nad/hqx.c:892-913 | The scan finds the end of the line or the end of the buffer |
| HqxDecoder.Decoder.MoveLineToFront | bin/nad/hqx.c:925-936 | A line cut by the buffer is moved and completed without loss |
| HqxDecoder.Decoder.SkipToNextLine | bin/nad/hqx.c:886-936 | Exactly the line break is skipped, wherever the buffer ends |
| HqxDecoder.Decoder.SkipToFirstLine | bin/nad/hqx.c:851-885 | The decoder stands behind the first colon |
| HqxDecoder.Decoder.Gather | bin/nad/hqx.c:998-1038 | Values taken and values left are those of the text, and a group that meets the terminator is padded with zeros |
| HqxDecoder.Decoder.NextGroup | bin/nad/hqx.c:997-1046 | Unpacking a group keeps the bytes that are still to come |
| HqxDecoder.Decoder.EmitRun | bin/nad/hqx.c:1049-1068 | A run is expanded, or cut by the request and left with the rest of its count |
| HqxDecoder.Decoder.EmitPending | bin/nad/hqx.c:1048-1079 | Output and pending state together stay the same expansion |
| HqxDecoder.Decoder.ToBin | bin/nad/hqx.c:954-1083 | A request returns exactly the next bytes of the stream and leaves the rest of it, with all state carried over |
| HqxDecoder.Decoder.Requests | bin/nad/hqx.c:954-1083 | Requests in any portions, with the static state carried over, return together what one request would, up to the group padded at the terminator |
| HqxDecoder.Decoder.HeaderRead | bin/nad/hqx.c:546-664 | Succeeds exactly on a header under a correct checksum, and stands behind it |
| HqxDecoder.Decoder.Read | bin/nad/hqx.c:469-533 | The next bytes of the fork; at its end, success exactly if the checksum agrees |
| HqxConvert.ReadFork | bin/nad/megatron.c:549-569 | The copy loop succeeds exactly if the stream holds the fork and its checksum, and returns the fork |
| HqxConvert.Unhex | bin/nad/megatron.c:549-569 | A conversion succeeds exactly if header and both forks have correct checksums, and returns them, for every chunk size |
| HqxConvert.EncodedIsReadable | bin/nad/hqx.c:843-940 | The text of every file has the shape that the decoder's line scan needs |
| HqxConvert.EncodedIsGood | bin/nad/hqx.c:469-533 | The text of every file passes all three checksums with the same header and forks |
| HqxConvert.RoundTrip | bin/nad/megatron.c:549-569 | Encoding and decoding give back name, type, creator, masked flags and both forks, in any chunks, wherever lines and buffers break |
| HqxConvert.DamagedForkIsRefused | bin/nad/hqx.c:491-510 | A fork damaged within two neighbouring bytes, in it or in its checksum, is refused |
| HqxConvert.DamagedTextIsRefused | bin/nad/hqx.c:469-664 | The text of a file with damage within two neighbouring bytes anywhere but in the length of the name is refused |
| FtwSpec.WalkLeavesWhatItEnters | bin/nad/ftw.c:819-828 | Every walk calls the function that follows a directory exactly once for each directory it goes into, also when stopped; the reports tell of the same directories always without FTW_DEPTH, and with it exactly if the walk does not end on an unreported directory |
| FtwSpec.SoundTreeIsReported | bin/nad/ftw.c:824-828 | Under FTW_DEPTH, if every answer goes on and no object inside fails with an error, every directory entered is reported |
| FtwSpec.ReportedIffSound | bin/nad/ftw.c:824-828 | For a callback that always answers 0 that condition on the tree is exact |
| FtwSpec.DirectoryWithoutReport | bin/nad/ftw.c:633-635 | One entry that cannot be looked at ends the walk in a directory that it entered and never reports |
| FtwSpec.ShallowTree | bin/nad/ftw.c:426-519 | Where directories are nested no deeper than there are descriptors, no stream is given up, and a directory may have any number of names |
| FtwCover.EachObjectOnce | bin/nad/ftw.c:586-854 | If the callback always answers 0 and the tree has no failing object, it is called exactly once for each object that names other than "." and ".." lead to, and for nothing else, with the path of those names, the flag of the object, its depth as level and the place of its last name as base |
| FtwCover.OneObjectPerPath | bin/nad/ftw.c:618 | No two objects have the same path |
| FtwCover.DirectoriesInOrder | bin/nad/ftw.c:728-828 | In every such walk a directory is reported before all that is in it, and under FTW_DEPTH after all of it |
| FtwAnswers.AnswersAreObeyed | bin/nad/ftw.c:677-811 | For every callback and tree: after an answer other than 0 no further report lies below that object (2, FTW_SKIP_SUBTREE), in the rest of its directory (3, FTW_SKIP_SIBLINGS), or anywhere (any other answer, or no FTW_ACTIONRETVAL) |
| FtwAnswers.StopIsReturned | bin/nad/ftw.c:703-854 | For every callback and tree an answer that ends the walk is its result |
| Ftw.Walker.ListRest | bin/nad/ftw.c:430-493 | The list stays within its limit, is a list of valid names in every case, and holds every remaining name exactly if they all fit |
| Ftw.Walker.CloseOldest | bin/nad/ftw.c:426-519 | The outermost open stream becomes a list, and names are lost exactly if they do not fit it; the open streams stay the innermost ones in consecutive slots |
| Ftw.Walker.MakeSlot | bin/nad/ftw.c:426-524 | The next slot is free, and no directory loses an entry unless a list overflows |
| Ftw.Walker.OpenDirStream | bin/nad/ftw.c:421-563 | A new innermost stream in the ring; no directory on the way loses an entry unless a list overflows |
| Ftw.Walker.PushSlot | bin/nad/ftw.c:554-558 | The ring invariant with one more stream |
| Ftw.Walker.PopSlot | bin/nad/ftw.c:774-778 | The ring invariant with the innermost stream gone |
| Ftw.Walker.ProcessEntry | bin/nad/ftw.c:586-682 | Reports and answer of the plain walk for one entry |
| Ftw.Walker.StreamStep | bin/nad/ftw.c:757-763 | One entry leaves the stream and is walked as the plain walk does |
| Ftw.Walker.WalkStream | bin/nad/ftw.c:757-763 | The stream loop does a prefix of the plain walk, and stops early only with all other entries in the list |
| Ftw.Walker.ListStep | bin/nad/ftw.c:783-788 | One name leaves the list and is walked as the plain walk does |
| Ftw.Walker.WalkList | bin/nad/ftw.c:783-788 | The list loop does the plain walk of the entries that were left |
| Ftw.Walker.WalkInside | bin/nad/ftw.c:757-793 | Both loops together are the plain walk of all entries |
| Ftw.Walker.Leave | bin/nad/ftw.c:811-828 | Path, level and base return to those of the directory, which is reported last under FTW_DEPTH |
| Ftw.Walker.FtwDir | bin/nad/ftw.c:703-854 | Reports and answer of the plain walk for one directory, with path, level and base restored |
| Ftw.FirstNul | bin/nad/ftw.c:783-788 | The first NUL of a list ends its first name |
| Ftw.StripPath | bin/nad/ftw.c:912-919 | The start path without trailing slashes |
| Ftw.FindBase | bin/nad/ftw.c:923-927 | The place of the last component |
| FtwRun.Nftw | bin/nad/ftw.c:877-1068 | For every number of descriptors the reports, in order, and the result are those of the plain recursive walk unless a list overflowed; none does where the names that a directory still has fit whenever directories are nested deeper below it than there are descriptors. A callback that always answers 0 gets one report for each object of a sound tree and no other |
| FtwFollow.Follower.FollowDir | bin/nad/ftw.c:703-854 | A walk that follows links takes up a directory once, reports it at its place, and for a callback that goes on either ends at an error that is there or has done all that it made known; a skip comes out of it only as the answer to its own report |
| FtwFollow.Follower.ProcessEntry | bin/nad/ftw.c:586-682 | An entry is reported with the flag of what it leads to, or the directory behind it is known afterwards, and taken up only if it was not |
| FtwFollow.Follower.AddObject | bin/nad/ftw.c:371-384 | A directory that an entered one leads to becomes known, at the path of that entry |
| FtwFollow.Follow | bin/nad/ftw.c:877-1068 | On every graph of files with cycles the walk ends, enters each device and inode at most once and only what can be reached, and leaves as many directories as it enters. Every report is that of a directory at a path that leads to it, or of another entry of an entered directory. For a callback that always answers 0 it succeeds exactly if nothing that can be reached is an error, and then all directories that can be reached and all their other entries are reported |
| ForkCache.Cache.Unlink | etc/afpd/ad_cache.c:318-322 | The doubly linked list is the old one without the node |
| ForkCache.Cache.Enqueue | libatalk/util/queue.c:74-88 | The doubly linked list is the old one with a new last node |
| ForkCache.Cache.Free | etc/afpd/ad_cache.c:269-324 | The buffer, its charge and its place in the list go together; neither the violation nor the underflow branch can be reached |
| ForkCache.Cache.EvictToBudget | etc/afpd/ad_cache.c:336-350 | Exactly the shortest oldest part of the list that makes room is removed, or everything |
| ForkCache.Cache.MakeRoom | etc/afpd/ad_cache.c:414-427 | There is room afterwards exactly if the fork is not larger than the budget |
| ForkCache.Cache.Attach | etc/afpd/ad_cache.c:463-481 | The entry is last in the list, and the counter grows by its length |
| ForkCache.Cache.StoreFromFd | etc/afpd/ad_cache.c:371-483 | The exact condition for a cached fork; counter, list and buffers agree, and the budget holds |
| ForkCache.Cache.RemoveEntry | etc/afpd/directory.c:1132-1165 | An entry that leaves the cache gives its buffer, charge and place back |
| ForkCache.Cache.NoBuffer | etc/afpd/ad_cache.c:218-224 | An entry in a state without a length has no buffer, so its length may be overwritten |
| AdMetadata.LaterTwice | etc/afpd/file.c:939-946 | Taking the later of AppleDouble and stat date a second time changes nothing, with 32-bit wrap-around |
| AdMetadata.LaterIsMax | etc/afpd/file.c:939-946 | The later date is one of the two and the maximum of them in Unix seconds, exactly if the stat date fits 32 bits |
| AdMetadata.StoreToCache | etc/afpd/ad_cache.c:67-98 | The entry holds the metadata with the later date, and the accounting holds |
| AdMetadata.RebuildFromCache | etc/afpd/ad_cache.c:111-143 | An entry that shows the present stamp of its object gives the metadata on the disk, with the date that the store took |
| AdMetadata.DirTakesStat | etc/afpd/directory.c:593-612 | A stat with another inode or ctime drops metadata and fork buffer, within the accounting, or leaves an entry alone that was gone before |
| AdMetadata.DiskRead | etc/afpd/ad_cache.c:202-249 | The answer of the disk, and an entry that agrees with it: without metadata, AD_RLEN_RFORK_ONLY exactly if the disk has a resource fork, AD_RLEN_NO_AD exactly if it has none, and no change if that is not certain |
| AdMetadata.MetadataCached | etc/afpd/ad_cache.c:166-249 | A strict call, or one with a fresh stat, answers as an uncached read would, modification date included |
| AdMetadata.ForkLength | etc/afpd/file.c:1000-1028 | The length that a client is told, from the metadata, from a cached absence or from the disk, is that of the resource fork on the disk, cut at 32 bits |
| AdMetadata.RunStep | etc/afpd/ad_cache.c:166-249 | One read, store, release or eviction keeps the accounting, and keeps all entries in agreement with the disk |
| AdMetadata.Run | etc/afpd/ad_cache.c:166-483 | From an empty cache, over every history of outside changes, entries taken up and given up, reads, stores, releases and evictions of any number of objects, the accounting holds, all entries agree with the disk, and every strict or fresh read is right, the length of the resource fork included, with or without metadata |
| EaCache.Attributes.Value | etc/afpd/ad_cache.c:647-677 | The scan of the buffer ends inside it and finds exactly the stored value of the name |
| EaCache.Attributes.StoreValue | etc/afpd/ad_cache.c:688-718 | The buffer stays whole records within 2048 bytes; a refused store changes nothing, and no other name is touched |
| EaCache.Attributes.StoreNames | etc/afpd/ad_cache.c:599-618 | The list is kept exactly if it fits |
| EaCache.Attributes.Free | etc/afpd/ad_cache.c:625-637 | Nothing is cached |
| EaCache.Attributes.Absent | etc/afpd/ad_cache.c:732-762 | True exactly if a list is cached, the name is ASCII and no listed name equals it ignoring case |
| EaCache.FoldedPairs | etc/afpd/ad_cache.c:753 | Two bytes count as equal exactly if they are, or are the two cases of one ASCII letter |
| EaCache.ListedReadsBack | etc/afpd/ad_cache.c:744-758 | The names in a list of terminated names are those it was made of |
| EaCache.GetValue | etc/afpd/extattrs.c:459-495 | The cached value, the cached absence or the disk: the answer is that of the disk |
| EaCache.Entry | etc/afpd/ad_cache.c:528-574 | A ctime that the cache was not filled under empties it |
| EaCache.Run | etc/afpd/ad_cache.c:599-762 | Over every history of changes, reads of values and reads of lists, all answers are those of the disk |
| EaCache.RecordAt | etc/afpd/ad_cache.c:647-677 | Each record in the buffer is read back field by field at its place |
| EaCache.LookupAppend | etc/afpd/ad_cache.c:688-718 | A record added behind the others changes the lookup of its own name only |
| Migration.AnyReplayIsOutcome | bin/afppasswd/afppasswd_migrate.c:932-1004 | Unsynced updates lost, kept and reordered at will are among the modelled outcomes of a crash |
| Migration.CrashSafety | bin/afppasswd/afppasswd_migrate.c:932-1004 | The state condition holds exactly if every outcome of a crash has the legacy inode under the original or the backup name |
| Migration.NamesDiffer | bin/afppasswd/afppasswd_migrate.c:741-746 | Original, backup and staging names are three names |
| Bytes.DecimalSpells | bin/afppasswd/afppasswd_migrate.c:473-477 | The digits spell the number, without a leading zero |
| Migration.Directory.LinkBackup | bin/afppasswd/afppasswd_migrate.c:734-767 | The backup is the first free name of the series and links the legacy inode |
| Migration.Directory.RestoreSource | bin/afppasswd/afppasswd_migrate.c:785-811 | Every state on the way is crash safe. The restore fails exactly if one of its first two calls fails or the name is taken, and is complete exactly if none of the four calls fails; then the original name is durable and the backup gone |
| Migration.Directory.DropBackup | bin/afppasswd/afppasswd_migrate.c:936-953 | The first rollback is crash safe and leaves the original name certain; without a failing call the backup is gone and everything synced |
| Migration.Directory.RemoveStaging | bin/afppasswd/afppasswd_migrate.c:563-582 | Cleaning up touches no other name, and removes the staging name unless the call fails |
| Migration.Directory.RollBack | bin/afppasswd/afppasswd_migrate.c:963-971 | The second rollback is crash safe, its flags say where the inode is, and it succeeds exactly if its calls do |
| Migration.Directory.Replace | bin/afppasswd/afppasswd_migrate.c:957-1004 | From the removal of the source to the last sync every state is crash safe; if at most one call fails it succeeds or puts the original back durably without a backup |
| Migration.Directory.Swap | bin/afppasswd/afppasswd_migrate.c:932-1004 | Backup and replacement with both rollbacks are crash safe in every state; if at most one call fails it succeeds or leaves every other name as it was |
| Migration.Directory.Install | bin/afppasswd/afppasswd_migrate.c:932-1023 | For every pattern of failing calls every state of the run is crash safe; success means a durable new directory and a durable backup `name.legacy` or `name.legacy.N`, and comes if no call fails. If at most one call fails, it succeeds or the source has its name back, no backup is left, and every other name is as before |
| MigrationRecords.LinesJoin | bin/afppasswd/afppasswd_migrate.c:329-393 | The lines of a file are the file |
| MigrationRecords.AddRecord | bin/afppasswd/afppasswd_migrate.c:218-315 | Accepts a line exactly if it is well formed and its user ID is new |
| MigrationRecords.ReadRecords | bin/afppasswd/afppasswd_migrate.c:329-393 | Succeeds exactly if no read fails and all lines are records of different user IDs, and returns one record per line |
| MigrationRecords.CompareBuffer | bin/afppasswd/afppasswd_migrate.c:418-428 | One buffer matches exactly if it is what the records still expect |
| MigrationRecords.SourceUnchanged | bin/afppasswd/afppasswd_migrate.c:405-432 | True exactly if the bytes read are the source lines one after the other, however reads are cut |
| MigrationRecords.RecordsKeepSource | bin/afppasswd/afppasswd_migrate.c:218-315 | Records keep the bytes of their lines, also of a last line without a newline |
| MigrationRecords.NewName | bin/afppasswd/afppasswd_migrate.c:473-477 | A user ID of its own gives a file name of its own |
| MigrationRecords.CreateVerifiers | bin/afppasswd/afppasswd_migrate.c:494-552 | One file per record with its line and owner and no other file; exclusive creation never collides |
| MigrationRecords.FileOfLine | bin/afppasswd/afppasswd_migrate.c:504-527 | After a migration each line has its file under the number of the user named before the first colon, with the whole line; the owner is the administrator exactly if a star follows that colon |
| MigrationRecords.Stage | bin/afppasswd/afppasswd_migrate.c:916-930 | Succeeds exactly if all files can be written and the source is unchanged, with one file per line of the legacy file and no other |
| MigrationRun.Migrate | bin/afppasswd/afppasswd_migrate.c:831-1023 | The whole migration: crash safe whatever fails, and on success the original name durably names a directory with one verifier file per line; it succeeds if nothing fails and the names are free, and if at most one call on the directory fails, a migration without success leaves every name but the staging name as it was |
| AspSignals.StepKeepsInv | etc/afpd/afp_asp.c:452-512 | Every step of the loop or of a handler keeps the invariant |
| AspSignals.NoLostWakeUp | etc/afpd/afp_asp.c:199-263 | In every interleaving poll never sleeps over a recorded signal with the pipe empty |
| AspSignals.SignalsAreServed | etc/afpd/afp_asp.c:274-300 | Once signals stop, each recorded one is acted on within a fixed number of steps of the loop, or the session ends |
| AspSignals.StepServes | etc/afpd/afp_asp.c:452-512 | Every step of the loop brings an unserved signal nearer to service |
| AspSignals.WakeIsHandled | etc/afpd/afp_asp.c:508-512 | In every run the loop looks at the hints and events that poll reported between a wake-up by the pipe and its next sleep |
| AspSignals.OneRequestPerPoll | etc/afpd/afp_asp.c:445-512 | Every request that the loop serves has a poll of its own |
| AspSignals.AwakeStep | etc/afpd/afp_asp.c:508-512 | A wake-up leaves the pipe empty before it looks at the flags |
| AspSignals.ExitComesFirst | etc/afpd/afp_asp.c:274-280 | Once a pass starts with a recorded exit no other signal is acted on any more |
| Pap.SplitPackets | bin/pap/pap.c:724-730 | The packets are the bytes in order, none empty or over 512 bytes, in the number that the source computes |
| Pap.Sender.ReadFile | bin/pap/pap.c:710-730 | Sent and buffered bytes together are the part of the file read so far |
| Pap.Sender.SendPending | bin/pap/pap.c:928-956 | Sends exactly when it may, all that is buffered, for one request |
| Pap.Sender.Step | bin/pap/pap.c:684-781 | One pass sends exactly when a request and data or the end of the file are there, and keeps the invariant |
| Pap.Sender.Run | bin/pap/pap.c:650-971 | Over every order of events the payload is a prefix of the file, each response uses its own request and at most quantum packets, and EOF comes once, after the whole file; with a willing printer it does come |
| MacIp.Cksum | contrib/macipgw/macip.c:155-168 | The 32-bit sum cannot overflow, and one fold and one subtraction give the complement of the end-around-carry sum of section 1 of RFC 1071 |
| MacIp.OnesSumIsNorm | contrib/macipgw/macip.c:155-168 | The end-around-carry sum is the sum of the words modulo 0xFFFF, with 0xFFFF for a positive multiple |
| MacIp.ChecksumVerifies | contrib/macipgw/macip.c:185-190 | A packet with the result in its zeroed field sums to 0xFFFF |
| MacIpLease.Gateway.constructor | contrib/macipgw/macip.c:537-567 | The gateway's own address is fixed and all others are free |
| MacIpLease.Gateway.GetIpent | contrib/macipgw/macip.c:204-208 | With 32-bit subtraction, exactly the addresses at offsets 1 to nipent - 1 are found |
| MacIpLease.Gateway.LeaseIp | contrib/macipgw/macip.c:213-229 | The first free address, never the gateway's or one that is held; 0 exactly if none is free |
| MacIpLease.Gateway.ArpSet | contrib/macipgw/macip.c:267-286 | Exactly the entry that the address has is refreshed, and none for the last address |
| MacIpLease.Gateway.Assign | contrib/macipgw/macip.c:448-462 | A lease starts with its full time, the last address excepted |
| MacIpLease.Gateway.Idle | contrib/macipgw/macip.c:719-747 | All entries age by one pass; an address other than the last is freed only after more than 330 seconds of silence, and no address is leased twice without being freed in between |
| MacIpLease.UnrefreshedIsFreed | contrib/macipgw/macip.c:719-747 | An entry that nothing refreshes is free after one pass more than it has probes left |
| MacIpLease.LeaseLastsIff | contrib/macipgw/macip.c:204-286 | In every run from a fresh table an address is freed only after more than 330 seconds of silence, exactly if its offset is below nipent |
| MacIpLease.LastLeaseRunsOut | contrib/macipgw/macip.c:719-747 | From any table with the last address leased, and whatever packets and requests come, it is free after one pass more than it has probes left |
| MacIpLease.Gateway.Hear | contrib/macipgw/macip.c:267-286 | A packet refreshes the entry of its sender, and none for the last address |
| MacIpLease.Gateway.Run | contrib/macipgw/macip.c:719-747 | Every sequence of requests, packets and passes keeps the table valid and takes it where the step function says |
| MacIpLease.LeaseOfFree | contrib/macipgw/macip.c:213-229 | A lease of an address that is not held keeps every two leases of it apart by a free |
| MacBinFormat.HeaderRoundTrip | bin/nad/macbin.c:680-763 | Every field of a written header is read back, Finder flags in full |
| MacBinFormat.SecondRoundTrip | bin/nad/macbin.c:680-935 | A MacBinary II header is known as one, and every field of it is read back |
| MacBinFormat.EitherByteSuffices | bin/nad/macbin.c:918-935 | Without the signature a header is MacBinary II exactly if it ends in its checksum and byte 0 or byte 74 is zero |
| MacBinFormat.FirstRoundTrip | bin/nad/macbin.c:680-972 | A MacBinary I header is read back; it is taken for one of MacBinary II exactly if its checksum happens to be zero |
| MacBinFormat.Layout | bin/nad/macbin.c:602-666 | The file is 128 bytes and each fork rounded up to 128, and the resource fork starts at the rounded boundary |
| MacBinWriter.HeaderBuffer | bin/nad/macbin.c:776-815 | Each of the 128 bytes is that of the MacBinary III header, its CRC included |
| MacBinWriter.PutFlags | bin/nad/macbin.c:145-153 | The flags are at bytes 73 and 101 and the low byte again at 74, and no other byte changes |
| MacBinWriter.Writer.WriteRepeat | bin/nad/macbin.c:236-260 | All padding bytes arrive through writes of any size |
| MacBinWriter.Writer.WritePadding | bin/nad/macbin.c:326-359 | The file is filled up to the next multiple of 128, on a disk file and on a pipe |
| MacBinWriter.Writer.HeaderWrite | bin/nad/macbin.c:776-870 | Fails exactly for names over 63 bytes or a failed write |
| MacBinWriter.Writer.Write | bin/nad/macbin.c:602-666 | The exact condition under which a write is accepted, and the layout with the padding of completed forks |
| MacBinWriter.Bin | bin/nad/megatron.c:549-569 | For forks in any chunks and writes of any size: success exactly if name and lengths fit and no write failed, and the file has both padded forks |
| MacBinReader.Reader.TestHeader | bin/nad/macbin.c:884-972 | The revision of the first 128 bytes, and -1 for a short first read |
| MacBinReader.Reader.Discard | bin/nad/macbin.c:200-224 | Succeeds exactly if the bytes are there |
| MacBinReader.Reader.SkipPadding | bin/nad/macbin.c:271-315 | Stands at the next multiple of 128; a pipe that ends before it is an error and a disk file is not |
| MacBinReader.Reader.Read | bin/nad/macbin.c:530-587 | The next bytes of the fork through reads of any size, and the padding skipped at the end of the data fork |
| MacBinReader.CopyOut | bin/nad/megatron.c:549-569 | The copy loop succeeds exactly if the fork is complete and its padding can be skipped, and returns it |
| MacBinReader.Unbin | bin/nad/megatron.c:549-569 | Every file is refused, has a name length over its header, or gives the two forks at the places its header says, each with its exact condition |
| MacBinReader.NameLengthIsNotTested | bin/nad/macbin.c:884-972 | Headers of revision 2 and 3 are accepted with a name length that goes past the header, and one of revision 1 never |
| MacBinReader.RoundTrip | bin/nad/macbin.c:530-763 | A written file is complete exactly if its forks are below 2^31 bytes, and holds the same header and forks at the places that a reader looks at |
| MacBinReader.OlderFileIsRead | bin/nad/macbin.c:530-763 | A file with a header of one of the older revisions gives the same header and forks |
| MacBinReader.BothWays | bin/nad/megatron.c:549-569 | Writing and reading in any portions, through disk files or pipes, gives back header and forks exactly if name and lengths fit, no write fails, forks are below 2^31 bytes and a pipe delivers the header in one read |
| Cap.UnitSpelling | bin/nad/nad_adouble.c:117-143 | A printable byte stands for itself; a slash, a leading dot and every other byte become a colon and two lowercase hex digits |
| Cap.EscapedIsHostName | bin/nad/nad_adouble.c:117-143 | An encoded name has no slash, no unprintable byte and no leading dot |
| Cap.MtouPathCap | bin/nad/nad_adouble.c:117-143 | The buffer holds the encoded form of the whole name, or of the longest part before the limit, within its bounds |
| Cap.UtomPathCap | bin/nad/nad_adouble.c:156-182 | The buffer holds the decoded name |
| Cap.RoundTrip | bin/nad/nad_adouble.c:117-182 | A name without NUL comes back exactly if it spells no escape |
| Cap.BothWays | bin/nad/nad_adouble.c:117-182 | Through both buffers, a name that fits comes back exactly if it spells no escape |
| Cap.ColonNameIsLost | bin/nad/nad_adouble.c:117-182 | Two names with the same host name, one of which does not come back |

## Left out

- HqxConvert.Unhex: takes text of the shape the encoder writes. What the line heuristic of `skip_junk` does with mail text, short lines or a text that ends early is not specified by the source.
- HqxDecoder.Decoder.ScanLine: lines that the heuristic does not take for data are outside the model, for the same reason.
- HqxDecoder.Decoder.SkipToNextLine: short or junk lines between data lines are outside the model, for the same reason.
- HqxDecoder.Decoder.SkipToFirstLine: text whose first colon does not start the data is outside the model, for the same reason.
- HqxDecoder.Decoder.Gather: text without a terminating colon, or with blanks in it, is outside the model, for the same reason.
- HqxDecoder.Decoder.NextGroup: text without a terminating colon, or with blanks in it, is outside the model, for the same reason.
- HqxDecoder.Decoder.ToBin: text without a terminating colon is outside the model, for the same reason.
- HqxDecoder.Decoder.Requests: text without a terminating colon is outside the model, for the same reason.
- HqxEncoder.Hex: writes to a file that never fails. Failed writes only end the conversion.
- FtwRun.Nftw: a start path of slashes only, where the path of the last report comes out empty, is a precondition, and so is that names in a directory differ. The tree does not change during the walk, FTW_PHYS is on, and FTW_CHDIR, FTW_MOUNT and memory failures are not modelled.
- FtwFollow.Follow: the ring of streams and the walk buffer are those of `Ftw` and not repeated, and the start is an object that can be looked at.
- AdMetadata.MetadataCached: I/O errors other than a missing object, and AppleDouble entries that a version lacks, are not modelled.
- AdMetadata.DiskRead: I/O errors other than a missing object are not modelled. A failed look at the size of a fork is modelled for objects without metadata only.
- AdMetadata.DirTakesStat: objects have an inode number and a ctime other than 0, and an entry that keeps its old inode with the new times, which happens to a current directory without a CNID, is not modelled.
- AdMetadata.Run: every change of an object brings a pair of inode and ctime that it did not have before, and metadata does not stay in the cache as a ghost of an evicted entry.
- EaCache.Attributes.StoreValue: is called after a miss only, as its caller does. The two-byte length is modelled in little-endian order.
- EaCache.Run: every change of the attributes moves the ctime, and requests that bypass the cache are not modelled.
- HqxConvert.DamagedTextIsRefused: damage is to the bytes that the text carries. A changed character of the text may also change a run marker, which is not modelled.
- MigrationRecords.ReadRecords: the checks of user names and SRP fields and the user database are parameters. File modes, locks and ownership checks of the directories are not modelled.
- AspSignals.NoLostWakeUp: what the loop does when it acts on a signal, the count of read errors and the ASP requests themselves are not modelled.
- Pap.Sender.Run: tickles, timeouts, the printer's own output and the close of the connection are not modelled.
- MacIp.Cksum: buffers of up to 65537 words of 16 bits, as the caller's are far below. A last odd byte is ignored by the source and not part of the words.
- MacIpLease.Gateway.constructor: masks with fewer than two host bits, or with gaps, leave no usable table and are a precondition.
- MacIpLease.Gateway.Idle: the AppleTalk address of an entry and the echo packets themselves are not modelled.
- MacBinReader.Unbin: which bytes a name gets whose length goes past the header is not modelled, only when that happens.
- MacBinFormat.HeaderRoundTrip: dates are carried in MacBinary form. Their conversion depends on the time zone of the host and is not modelled.
- MacBinWriter.Bin: output and input start at position 0 of their file or pipe.
- Cap.UtomPathCap: the host name fits the buffer. The compile-time option to fold case is off.
- The AFP protocol, the CNID databases, authentication modules, spotlight, the printing and boot daemons, and the ATP, NBP and DDP libraries are not modelled.
- Logging, usage texts and statistics counters are not modelled.
