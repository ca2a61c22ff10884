# Reading Git repositories and speaking their discovery protocol: a verified model

This project models, in Dafny, the parts of go-ls-remote that turn bytes into refs and object
information, and proves what they compute. Three cores are covered.

**Reftables** (`Varint`, `RecordKey`, `RefRecord`, `Block`, `Table`, `TableLayout`, `Seek`, `Find`,
`IndexTree`, `FindTheorem`, `IndexLayout`, `Stack`). Decoding is a set of functions on byte sequences; the loops of the
source, with their reused and deliberately aliased buffers, are methods proved to compute those functions.
`TableLayout` writes tables from any legal plan and shows when iteration gets exactly the plan back;
`FindTheorem` shows when `FindRef`, through the index or along the blocks, finds exactly what iteration
yields; `IndexLayout` writes indexes of any number of levels over planned tables and shows that what was
written is found through them; `Stack` shows what a stack of tables means.

**Object indexes and resolution** (`FanoutSearch`, `PackIndex`, `IdxFormat`, `PackCrc`, `Midx`, `MidxFormat`, `PackHeader`,
`Decimal`, `ObjectStore`, `Alternates`, `PackedRefs`, `Refs`). Pack and multi-pack indexes, with `IdxFormat` and
`MidxFormat` writing whole files and finding in them what was written, the byte ranges their checksums cover,
pack headers, delta and tag chains behind memo caches, the alternates graph, and the packed-refs and
loose-refs readers.

**Discovery** (`WireText`, `Pktline`, `Request`, `Session`, `LsRefs`, `ObjectInfo`, `Served`, `WireCaps`,
`Advertise`, `AdvertFormat`, `DumbHttp`). Both ends of the protocol live in the repository, so encoders and decoders are proved inverse,
and a protocol v2 session is a transition system of two processes that meet packet by packet on unbuffered
pipes; `Served` joins it with the encoders and decoders. `AdvertFormat` reads advertisements of every version
line by line. `Bytes` and `Options` hold what everything shares.

Formats follow the reftable, pack and multi-pack-index documents, gitprotocol-common, gitprotocol-pack,
gitprotocol-v2 and gitprotocol-http of Git. Byte strings are `seq<byte>` where fields are binary and
`string`, one char per byte, where the source works on text.

## What the proofs assume of their inputs

- Reftables shorter than 2^32 bytes: the walk keeps positions in a `uint32`. The layout theorem asks for
  2^32 - 2^24, so that no block's end wraps.
- For look-ups, ref blocks that hold a record, whose first record has prefix length 0, and index restarts
  that point at such records: the reader checks none of this. A restart beyond the records makes the source
  panic; the model has an error for it (`RestartsPastRecords`).
- Fan-out tables that count their names, for the direction "present implies found" only.
- Multi-pack-index files whose first chunk offset is below 2^63, for their layout: the reader checks no lower
  bound of the cast offsets, and `OpenMidx` says exactly which other files it accepts and which it panics on.
- Opening alternates, as a method that must end, asks that it does; `EndlessExactly` says when it does not, and
  `OwnEnds` that it always ends when each alternate is its own commonDir, which the cycle check takes for granted.
- Each `Refs` iterator is ranged once, as the session's contract asks.
- ASCII white space in the wire parsers; ids as the server writes them, in lower case, unless said otherwise.

## Where the code does less than its documentation says

Each is an input that shows it and, where the code is right on some inputs, the exact condition for them.

- `readOfsBase` accepts a second, longer encoding of every offset after its counter wraps at 2^63 - 1
  (`OfsExactUnlessWrapped`, `OfsAcceptsSecondEncoding`).
- `readDeltaVarint` is exact on nine bytes; a tenth byte must be zero (`DeltaExact`, `DeltaSignOverflow`).
- `iterAllRefs` can walk into the footer of an aligned table whose last block is not padded
  (`IterationIsExact`, `ChecksumTakenForBlock`).
- `FindRef` fails, where iteration ends with nothing and a miss is due, on a table without ref blocks: it
  answers what iteration says exactly when a ref block follows the file header (`FindRefAgrees`,
  `EmptyTableFails`).
- The session is not marked dead when an argument is too long for a pkt-line. The encoder stops inside the
  request, the next call is read as an argument of it, and both sides block writing (`DeadlockExactly`).
- `OpenMidx` stops with an out-of-range slice when a chunk it reads lies at 2^63 or more, and accepts a file
  in which only unread chunks do (`OpenMidx`, `NamesOutOfRange`, `UnreadOutOfRange`).
- Without `size`, `DecodeObjectInfo` takes a first id in upper case for an attribute line and loses its
  answer (`InfoRoundTrip`, `LowerCaseNeeded`).
- `lsRefsSupportsUnborn` sees only the first feature of a list, because the list has been cut at its first
  space before (`UnbornMustComeFirst`, `SecondIsLost`).
- Opening alternates need not end: it runs for ever exactly when its calls come back to one they are in the
  middle of with no directory put in flight since, which takes an alternate that resolves to another commonDir
  (`EndlessExactly`, `OwnEnds`, `RoundForEver`).

## Model

| member | source | states |
|---|---|---|
| Varint.DecodeVarint | internal/reftable/varint.go:59-94 | The loop computes the decoding whose exactness the next rows state, with its two errors |
| Varint.DecodeExact | internal/reftable/varint.go:59-94 | A buffer decodes to v in n bytes exactly when v is a uint64 and its first n bytes are the one encoding of v |
| Varint.EncodePrefixFree | internal/reftable/varint.go:59-94 | No encoding is a prefix of another and no two values share one |
| Varint.DecodeIgnoresTail | internal/reftable/varint.go:59-94 | A decoded value uses 1 to length-many bytes and does not depend on what follows them |
| Varint.EncodingDecodes | internal/reftable/varint.go:59-94 | Every uint64 decodes from its encoding, which is at most ten bytes |
| Varint.TruncatedExactly | internal/reftable/varint.go:59-94 | Input that stops too soon is told from a number too large: it is called truncated exactly when it is a proper beginning of the encoding of some uint64 |
| Varint.ReadOfsBase | internal/objfmt/pack_header.go:194-214 | The loop with its int64 wrap computes OfsBase |
| Varint.OfsEncodingDecodes | internal/objfmt/pack_header.go:194-214 | On 0..2^63-1 the OFS_DELTA base reader decodes every encoding and agrees with the reftable varint |
| Varint.OfsExactUnlessWrapped | internal/objfmt/pack_header.go:194-214 | What it accepts is the encoding of what it returns exactly when the buffer does not begin with the nine bytes that wrap the counter |
| Varint.OfsRefuses | internal/objfmt/pack_header.go:194-214 | Continuation bytes with nothing behind them are cut short, and 2^56 or more with anything behind it is out of range |
| Varint.OfsAcceptsSecondEncoding | internal/objfmt/pack_header.go:194-214 | A ten-byte string is accepted as 5 |
| PackHeader.ReadHeader | internal/objfmt/pack_header.go:94-176 | The method reads the header HeaderAt describes, errors included; the next rows say what that is for every header as written and for every one that is refused |
| PackHeader.WholeHeaderRoundTrip | internal/objfmt/pack_header.go:126-176 | Types 1 to 4: for every size below 2^60, whatever lies before and behind, the header reads back with that type and size, its body right behind, and no base |
| PackHeader.OfsHeaderRoundTrip | internal/objfmt/pack_header.go:142-154 | Type 6: the encoded distance d reads back as the base d bytes before the delta, and is corrupt unless 0 < d < the offset of the delta |
| PackHeader.RefHeaderRoundTrip | internal/objfmt/pack_header.go:155-167 | Type 7: the bytes behind the size are the base id, and the body is behind them |
| PackHeader.UnusedTypes | internal/objfmt/pack_header.go:168-176 | Types 0 and 5 are corrupt |
| PackHeader.CutShort | internal/objfmt/pack_header.go:94-167 | A pack that ends at the header is out of range, and one that ends inside it is truncated |
| PackHeader.EndlessSize | internal/objfmt/pack_header.go:126-140 | Size bits that do not end are truncated within nine bytes and corrupt from the tenth on |
| PackHeader.OfsRefused | internal/objfmt/pack_header.go:142-154 | A distance that is cut short is truncated, and one out of range is corrupt |
| PackHeader.Letters | internal/objfmt/pack_header.go:126-140 | Size bits and groups written out byte by byte |
| PackHeader.SizeRoundTrip | internal/objfmt/pack_header.go:126-140 | Every type and every size below 2^60 comes back from its header bytes |
| PackHeader.SizeBelowLimit | internal/objfmt/pack_header.go:126-140 | No accepted size reaches 2^60, so the int64 never wraps |
| PackHeader.HeaderShape | internal/objfmt/pack_header.go:142-176 | An accepted header has one of six types, the base that type calls for, and an OFS_DELTA base strictly between 0 and the delta |
| PackHeader.ReadDeltaVarint | internal/objfmt/pack_delta.go:99-121 | The loop computes DeltaSize |
| PackHeader.DeltaExact | internal/objfmt/pack_delta.go:99-121 | An accepted size is the value of its groups exactly when it took at most nine bytes or the tenth is zero |
| PackHeader.DeltaRoundTrip | internal/objfmt/pack_delta.go:99-121 | Every size below 2^63 is read back from its groups |
| PackHeader.EndlessDelta | internal/objfmt/pack_delta.go:99-121 | Groups that do not end: up to nine are cut short and ten are too many |
| PackHeader.DeltaSignOverflow | internal/objfmt/pack_delta.go:99-121 | Ten bytes that mean 2^63 are read as -2^63 |
| Decimal.ParseLooseSize | internal/objfmt/loose.go:90-112 | The loop with its overflow guard computes LooseSize |
| Decimal.LooseSizeExact | internal/objfmt/loose.go:90-112 | A string parses to n exactly when n is below 2^63 and the string is n printed in decimal |
| Decimal.Letters | internal/objfmt/loose.go:90-112 | Numbers written out digit by digit |
| RecordKey.KeyRoundTrip | internal/reftable/record_key.go:57-97 | A name encoded against any previous key and any shared prefix length decodes to that name, its extra bits and its exact length |
| RecordKey.KeyReads | internal/reftable/record_key.go:57-97 | Any two varints and any rest: the first counts the bytes taken from the previous key, an eighth of the second those of the suffix, its last three bits are the extra; more than there is of either is truncation |
| RecordKey.KeyRefuses | internal/reftable/record_key.go:57-97 | Without either varint there is no key, and the error is that varint's |
| RecordKey.KeyIgnoresTail | internal/reftable/record_key.go:57-97 | What follows a key does not change it |
| RecordKey.BuildKey | internal/reftable/record_key.go:80-96 | The copied prefix and suffix are the key, in the scratch array or a new one, even when scratch and previous key are one array |
| RecordKey.DecodeKeyInto | internal/reftable/record_key.go:57-97 | Decoding into a reused buffer gives the key and errors of decoding on immutable bytes, for separate and for shared arrays and any capacity |
| RecordKey.KeyBuf.Swap | internal/reftable/keybuf.go:37-39 | The new key becomes the previous one and the two slices never share an array |
| RefRecord.ValueRoundTrip | internal/reftable/record_ref.go:131-203 | Each of the four value types is read back with its exact length |
| RefRecord.RecordRoundTrip | internal/reftable/record_ref.go:131-203 | A record decodes to itself and consumes exactly its own bytes, whatever follows |
| RefRecord.ValueReads | internal/reftable/record_ref.go:164-202 | For any rest: types 0 to 3 give a tombstone, one id, an id and its peel, a counted target, each truncated exactly when the rest is too short; types 4 to 7 are refused |
| RefRecord.RecordReads | internal/reftable/record_ref.go:131-203 | A key, a delta and any rest: an update index of 2^64 or more is refused before the value is looked at, and else the record is the key's name with that value |
| RefRecord.RecordRefuses | internal/reftable/record_ref.go:131-203 | A bad key or delta makes a bad record with the same error |
| RefRecord.DecodeRefValue | internal/reftable/record_ref.go:164-202 | The value switch with its running count computes DecodeValue |
| RefRecord.DecodeRefRecord | internal/reftable/record_ref.go:131-203 | Decoding into reused buffers gives the record, count and error of decoding on immutable bytes |
| Block.ParseBlockBytes | internal/reftable/block.go:130-207 | The validation with its restart loop computes ParseBlock |
| Block.BlockRoundTrip | internal/reftable/block.go:130-207 | An encoded block parses back to its frame, record region and restarts, whatever follows it |
| Block.ParsedIsWritten | internal/reftable/block.go:130-207 | Conversely whatever parses is some block as written, followed by anything |
| Block.BlockRefuses | internal/reftable/block.go:130-207 | Which error each refused block gives: a log block, a type that is none of three, and all that does not fit |
| Block.BlockLetters | internal/reftable/block.go:130-222 | A ref block written out byte by byte, and the three type bytes |
| Block.WrittenFields | internal/reftable/block.go:130-222 | The parsed block's record region and each restart are the ones written |
| Block.ReparsesAlone | internal/reftable/block.go:130-207 | A block cut out of its file parses to the same block |
| Table.IterBlock | internal/reftable/reader.go:275-289 | The record loop over ping-pong buffers yields the records of the functional scan, also when it fails midway |
| Table.IterStep | internal/reftable/reader.go:252-306 | One block of the walk yields that block's records and the next position, which is larger |
| Table.IterAllRefs | internal/reftable/reader.go:233-308 | The whole walk yields the records of the functional walk and its error, and ends |
| TableLayout.RecordsRoundTrip | internal/reftable/reader.go:275-289 | The record loop takes a region apart into the records put there, to its last byte, for any legal prefix lengths |
| TableLayout.ScanStops | internal/reftable/reader.go:275-289 | Records in front of one that does not decode are yielded before its error |
| TableLayout.StepRoundTrip | internal/reftable/reader.go:252-306 | A block written from a plan is walked as one step with the planned records and the padded next position |
| TableLayout.KeyCarriesOver | internal/reftable/reader.go:275-289 | A block whose first record shares a prefix with the last name of the block before is read against that name |
| TableLayout.WalkTo | internal/reftable/reader.go:233-308 | For any split into blocks and any padding the walk passes the planned blocks in order |
| TableLayout.IterationIsExact | internal/reftable/reader.go:233-308 | Iteration yields exactly the planned records without error if and only if nothing but ref blocks without records, each leading on to the next, stands where the walk lands; and it visits the planned blocks alone if and only if no ref block type byte stands there |
| TableLayout.EmptyRunExactly | internal/reftable/reader.go:252-306 | A run of ref blocks without records that leads on to its end is exactly what the walk passes with neither a record nor an error |
| TableLayout.Wraps | internal/reftable/reader.go:297-303 | Within one alignment of 4 GiB the next position wraps and the walk ends in an error |
| TableLayout.ChecksumTakenForBlock | internal/reftable/reader.go:252-306 | Iterating an aligned one-block table with its footer right behind it ends in a truncation error when the footer's checksum begins with the ref block letter |
| Seek.RestartBeforeFound | internal/reftable/block.go:239-244 | The restart before the one the bisection finds does not sort after the probe, whatever the order of the table |
| Seek.RestartsBracket | internal/reftable/block.go:239-244 | Whatever the order of the table: the key before the restart found is not above the probe, and its own is above it or does not decode |
| Seek.SearchRestartTable | internal/reftable/block.go:239-244 | The bisection over the shared scratch computes SearchRestarts |
| Seek.RestartsPastRecords | internal/reftable/seek.go:188-203 | A block whose restarts lie past its records parses, and descending it slices out of range for every probe |
| Seek.EmptyIndex | internal/reftable/seek.go:174-257 | An index block without records has no entry for any probe |
| Seek.NineBytesSliceOutOfRange | internal/reftable/block.go:185-196 | Nine bytes that parse as such a block |
| Seek.Scratch.DecodeNext | internal/reftable/seek.go:211-247 | Decoding a key against itself in its own array gives the key of the functional decoder |
| Seek.Scratch.DecodeRestart | internal/reftable/seek.go:188-211 | A restart key decoded into the reused buffer is the key decoded without a previous one |
| Seek.DescendIndexBlock | internal/reftable/seek.go:174-257 | The scan of one index block through the self-aliased buffer computes DescendIndex |
| Seek.SeekIndexedLeaf | internal/reftable/seek.go:97-159 | The bounded descent computes SeekIndexed, errors included |
| Seek.DescentEnds | internal/reftable/seek.go:97-159 | Along any path of index blocks that lead on to another position: at most 64 blocks are read, a ref block is the answer, and a position outside the file, a block that does not parse, one without an entry, a third type and an entry that points back at its own block give their errors |
| Seek.SeekLinearLeaf | internal/reftable/seek.go:273-356 | The fallback walk computes SeekLinear and ends because the position grows |
| Find.ScanLeafFinds | internal/reftable/reader.go:347-371 | On sorted records the leaf scan's early stop loses nothing |
| Find.ScanLeafFails | internal/reftable/reader.go:347-371 | A record that does not decode fails the look-up of every name behind the ones before it |
| Find.FindLeafRecord | internal/reftable/reader.go:347-371 | The scan over ping-pong buffers computes ScanLeaf |
| Find.FindRefInFile | internal/reftable/reader.go:321-371 | Reader.FindRef computes FindRef on the file's bytes |
| IndexTree.PickIsFirst | internal/reftable/seek.go:211-257 | The chosen index entry is the first at or after the probe, else the last |
| IndexTree.PickSkips | internal/reftable/seek.go:188-211 | Entering the scan at a restart not after the probe chooses the same entry |
| IndexTree.DescentPicks | internal/reftable/seek.go:174-257 | On a well-formed index block the descent follows that entry's child |
| IndexTree.IndexLands | internal/reftable/seek.go:97-159 | The descent through at most 63 index levels ends on the one block that can hold the name |
| IndexTree.NoLoop | internal/reftable/seek.go:140-152 | In a valid index no subtree hangs at its own position, so the loop check never fires on one |
| FindTheorem.OneLeafDecides | internal/reftable/reader.go:321-371 | With sorted records, looking in the block that separates the names before and after is looking everywhere |
| FindTheorem.LinearLands | internal/reftable/seek.go:273-356 | The fallback walk settles on the last block whose first name is not after the probe |
| FindTheorem.FindRefAgrees | internal/reftable/reader.go:321-371 | On every well-formed table, indexed or not, FindRef returns exactly the record iteration yields for the name, a miss otherwise and for a tombstone, if and only if a ref block follows the file header; without one it fails |
| FindTheorem.FindRefAnswers | internal/reftable/reader.go:321-371 | Record by record, on every well-formed table with a ref block: the name of a live record finds exactly that record, the name of a tombstone is a miss, and so is a name no record has |
| FindTheorem.EmptyTableFails | internal/reftable/seek.go:352-354 | A header with its footer right behind it iterates to nothing, and every look-up in it fails instead of missing |
| IndexLayout.IndexRecordsRoundTrip | internal/reftable/seek.go:211-247 | The records of an index block read back as written, for any prefix lengths their keys share |
| IndexLayout.IndexBlockIsGood | internal/reftable/seek.go:174-257 | A written index block whose restarts point at keys written whole is one the descent picks rightly in |
| IndexLayout.PlannedIsValid | internal/reftable/seek.go:97-159 | Index blocks of any number of levels written over planned ref blocks form a well-formed index |
| IndexLayout.WrittenIsFound | internal/reftable/reader.go:321-371 | In a table from any plan over ascending names, without an index or with any written one of at most 63 levels, every live record written is found under its name, and a tombstone's name and a name not written are misses; when no block was written every look-up fails |
| IndexLayout.OneIndexed | internal/reftable/seek.go:97-159 | A one-block table with a 13-byte index block behind it is such a table |
| Stack.NewestTableWins | internal/reftable/stack.go:133-166 | The last mention of a name in the log of all tables is the one in the newest table that has any |
| Stack.LastMentionIs | internal/reftable/stack.go:133-160 | The last mention of a name in a log is the record behind which none has that name |
| Stack.MergedMeaning | internal/reftable/stack.go:133-166 | The merged view has a name exactly when the newest table mentioning it does not delete it, with that record |
| Stack.MergeTable | internal/reftable/stack.go:133-160 | Merging one table's inserts and tombstones extends the view by that table's log |
| Stack.OpenReaders | internal/reftable/stack.go:94-131 | All tables open or every opened one is closed again |
| Stack.OpenStack | internal/reftable/stack.go:94-167 | Opening succeeds exactly when every table opens and iterates without error, and then the stack is a valid view of those tables; on failure every reader is closed |
| Stack.Stack.IterRefs | internal/reftable/stack.go:261-269 | Yields in strictly ascending order, once each, what the newest table mentioning a name says of it, and passes over exactly the names it deletes or no table mentions |
| Stack.Stack.FindRef | internal/reftable/stack.go:278-281 | Returns the record of the newest table mentioning the name, and nothing when that table deletes it or none mentions it |
| Stack.Stack.Close | internal/reftable/stack.go:208-223 | Closes every reader and empties the stack, so that a second call finds none |
| Stack.ParseTablesList | internal/reftable/stack.go:177-199 | The loop computes TablesList |
| Stack.TablesListExact | internal/reftable/stack.go:177-199 | An empty manifest means no tables; another is accepted as names exactly when it lists those non-empty names, one to a line, with or without a last line feed; a lone line feed is refused |
| FanoutSearch.RowsInWindow | internal/objfmt/idx_v2.go:170-182 | When names are sorted and the fan-out counts them, every row with the name lies in the window |
| FanoutSearch.ValidateFanout | internal/objfmt/idx.go:164-175 | Accepts exactly the non-decreasing fan-outs |
| FanoutSearch.MonotoneExactly | internal/objfmt/idx.go:164-175 | A fan-out is non-decreasing exactly when no counter is below the one before it |
| FanoutSearch.FanReads | internal/objfmt/idx_v2.go:170-182 | 256 big-endian counters of the names that begin with at most each byte are read as a fan-out that counts them |
| FanoutSearch.Search | internal/objfmt/idx_v2.go:160-204 | A hit is a row with the name; on sorted, counted names a miss means absence; every read is in bounds |
| PackIndex.OpenIdx | internal/objfmt/idx.go:68-152 | Accepts exactly the files of a known version whose counters do not fall and that are long enough for their tables, in literal sizes; each of the three errors exactly when it is due; an accepted file has the layout all lookups rely on |
| PackIndex.FindOffset | internal/objfmt/idx_v1.go:23-82 | Versions 1 and 2: a hit is the offset of a row with the name; on a well-formed index it hits exactly when the name is there and its slot resolves below 2^63 |
| PackIndex.OffsetsReadBack | internal/objfmt/idx_v2.go:42-65 | From the tables a version 2 writer makes, offsets of 2^31 and more in their own 64-bit table, every offset below 2^63 is read back and a larger one refused |
| PackIndex.OffsetsReadBackV1 | internal/objfmt/idx_v1.go:63-74 | From a version 1 record its 32-bit offset is read back |
| IdxFormat.WellFormedV2 | internal/objfmt/idx_v2.go:42-204 | A version 2 file byte by byte, from its magic to its trailer, is a well-formed index of the names written |
| IdxFormat.RowReadsV2 | internal/objfmt/idx_v2.go:42-93 | Each row of it gives the sum written, the offset written when that is below 2^63 and none otherwise |
| IdxFormat.FindInV2 | internal/objfmt/idx_v2.go:42-204 | Opening such a file and looking a name up gives the offset written for it, and nothing for a name not written |
| IdxFormat.WellFormedV1 | internal/objfmt/idx_v1.go:23-82 | A version 1 file of 24-byte records is a well-formed index with the names and offsets written |
| IdxFormat.FindInV1 | internal/objfmt/idx_v1.go:23-82 | Opening such a file and looking a name up gives the offset written for it, and nothing for a name not written |
| PackIndex.OneRow | internal/objfmt/idx_v2.go:160-204 | A well-formed index names each object once |
| PackIndex.OffsetAfter | internal/objfmt/idx.go:214-284 | Returns the least recorded offset strictly above its argument, or none when there is none |
| PackCrc.RangesDisjoint | internal/objstore/object_info.go:294-305 | Two objects' checksum ranges never share a byte |
| PackCrc.RangesCover | internal/objstore/object_info.go:294-305 | Every byte from the first object to the trailer is in some object's range |
| PackCrc.VerifiedRangesTile | internal/objstore/object_info.go:294-305 | The ranges verified for the objects of one index never overlap and cover the pack from the first recorded object to its trailer |
| PackCrc.Crc32Range | internal/objstore/object_info.go:325-345 | However the reads are cut up, the sum is that of one pass over the range, and it fails only when a read does or the range runs past the pack |
| PackCrc.FoldOne | internal/objstore/object_info.go:325-345 | The sum of no bytes is the start, and one byte is one update |
| PackCrc.FindCrc32 | internal/objfmt/idx_v2.go:77-93 | Returns the recorded sum of a row with the name; version 1 has none |
| PackCrc.VerifyPackCrc | internal/objstore/object_info.go:271-318 | What can be read up to the next recorded object or the trailer passes exactly when its sum is the recorded one, and an object is found corrupted only on a mismatch, an empty range or one that cannot be read |
| Midx.ParseChunkTable | internal/objfmt/midx.go:197-263 | Accepts exactly the well-formed chunk tables and records one extent per entry |
| Midx.ChunksTile | internal/objfmt/midx.go:197-263 | Accepted chunks never overlap and lie before the trailer exactly when the first offset is below 2^63 |
| Midx.ParsePackNames | internal/objfmt/midx.go:279-324 | Yields the one NUL-terminated list of num_packs names the chunk begins with, strictly ascending in version 1, or refuses when there is none |
| Midx.TerminatedUnique | internal/objfmt/midx.go:299-309 | At most one list of that many names begins the chunk |
| Midx.ParseFanout | internal/objfmt/midx.go:332-378 | Accepts exactly a monotone fan-out with matching table sizes and pack indices below num_packs |
| Midx.ValidateOidLookup | internal/objfmt/midx.go:397-415 | Accepts exactly strictly ascending ids |
| Midx.OpenMidx | internal/objfmt/midx.go:125-175 | Accepts exactly the files that say something, with what they say; slices out of range exactly when all is well up to a chunk that is read and lies at 2^63 or more; each header fault and a cut-short table give their own error exactly when no earlier fault stands; with a first offset below 2^63 what is accepted has the layout look-ups rely on |
| Midx.NamesOutOfRange | internal/objfmt/midx.go:279-281 | A 92-byte file whose pack names lie at 2^63 has an acceptable table, and reading it is out of range |
| Midx.UnreadOutOfRange | internal/objfmt/midx.go:238-257 | A file whose bitmap chunk lies at 2^63, with nothing else out of place, is accepted |
| Midx.Find | internal/objfmt/midx_find.go:31-119 | A hit is the row of the query, in a listed pack, with its resolved offset; with a counting fan-out it hits exactly when linear search would and the offset resolves |
| Midx.RowReads | internal/objfmt/midx_find.go:43-77 | From the bytes of a row: its pack, and as its offset the slot itself below 2^31, else the LOFF row the slot numbers, none when that is missing, behind the chunk or 2^63 and more |
| MidxFormat.FileDescribes | internal/objfmt/midx.go:125-415 | A file byte by byte, from its magic to its trailer with the five chunk ids, sizes and positions, is accepted with the pack names, packs and offsets written, and its fan-out counts its ids |
| MidxFormat.FindInFile | internal/objfmt/midx_find.go:31-119 | Opening such a file and looking an id up gives the pack and offset written for it, a miss when the offset is 2^63 or more, and a miss for an id not written |
| ObjectStore.CapOnlyCutsLongChains | internal/objstore/object_info.go:157-218 | The capped walk equals the uncapped resolver on chains of at most 64 entries and fails on longer ones, however they end |
| ObjectStore.WalkedChain | internal/objstore/object_info.go:157-218 | Over any chain of entries, each built on the next: one of at most 64 that ends in an object gives that object's type, with its own size when it stands alone and else the target size of the first delta; a longer one, one that breaks off, a first delta without a size and a damaged object are corrupt |
| ObjectStore.PureOfsEnds | internal/objstore/object_info.go:194-197 | A chain of OFS_DELTAs ends, because each base lies strictly below |
| ObjectStore.BytesDescend | internal/objfmt/pack_header.go:144-154 | Read from the bytes of any packs, every OFS_DELTA base lies strictly below its delta |
| ObjectStore.HeadersRead | internal/objstore/object_info.go:168-206 | From the bytes of a pack: four kinds of whole object with their size, and the two deltas with their base |
| ObjectStore.RefCycleRuns | internal/objstore/object_info.go:198-206 | A REF_DELTA that is its own base never ends, so only the cap stops it |
| ObjectStore.TagRoundTrip | internal/objstore/peel.go:247-297 | The target and type of a printed tag are read back whatever follows |
| ObjectStore.TagLines | internal/objstore/peel.go:247-297 | Whole lines: a body is a tag exactly when its first is an id of the right length behind "object " and its second names one of four kinds |
| ObjectStore.DamagedIsCorrupt | internal/objstore/object_info.go:271-318 | An object whose packed bytes do not have the sum its index records is corrupt, whatever its chain |
| ObjectStore.PeelCapExact | internal/objstore/peel.go:150-189 | Chains of at most sixteen tags peel as uncapped ones do, and a seventeenth tag is an overrun |
| ObjectStore.PeeledChain | internal/objstore/peel.go:104-189 | Over any chain of tags: of at most sixteen the last decides, giving its target, not peelable or an error; a longer one is not peelable |
| ObjectStore.Store.LookupRefDeltaBase | internal/objstore/object_info.go:229-252 | Returns what a fresh look-up would and keeps the cache truthful, hits and misses alike |
| ObjectStore.Store.WalkPackChain | internal/objstore/object_info.go:157-218 | Through the cache the walk returns the terminal type and the head's target size of the cache-free resolver |
| ObjectStore.Store.PeelTags | internal/objstore/peel.go:150-189 | The loop computes the chain of at most sixteen tags |
| ObjectStore.Store.Peel | internal/objstore/peel.go:104-135 | Answers as without a cache, and never caches an overrun or an error |
| ObjectStore.Store.Replay | internal/objstore/peel.go:104-135 | Over any sequence of calls every answer is the cache-free one |
| Alternates.OpenStore | internal/objstore/store.go:112-114 | Wherever opening ends it succeeds exactly when every chain of alternates is clean, and then the store is the one the world has there: its own commonDir and three backends, and the stores of its alternates in order, each likewise; it holds its own handles and no other, holds none after a failure, and leaves nothing in flight |
| Alternates.OpenWithSeen | internal/objstore/store.go:122-197 | From any in-flight set and at any depth it ends within, it does what the recursion Open says, deferred deletion included; a success is the store the world has there with exactly its handles, and a failure holds none |
| Alternates.OpenAlternates | internal/objstore/alternates.go:51-115 | All entries open in turn and none is in flight, or everything opened here is closed again |
| Alternates.OpenBackends | internal/objstore/store.go:140-167 | All three backends open or none stays open |
| Alternates.CloseStore | internal/objstore/store.go:236-262 | Releases exactly the handles of the store and of its alternates |
| Alternates.HandlesAre | internal/objstore/store.go:236-262 | The handles of a store are its backends and, at any depth, those of its alternates |
| Alternates.OpensExactly | internal/objstore/alternates.go:79-114 | In every world, opening succeeds exactly when every store the chains reach is usable and none is named by, or resolves to, a directory the chain has been through; chains may meet |
| Alternates.SuccessShape | internal/objstore/store.go:172-181 | A call that succeeds was not for a directory in flight, restored the in-flight set and had every entry succeed, in every world and under every stack of calls |
| Alternates.EndlessExactly | internal/objstore/alternates.go:79-114 | In every world, opening runs for ever exactly when its calls come back to one they are in the middle of: the same path with the same directories in flight |
| Alternates.OwnEnds | internal/objstore/store.go:172-181 | When each alternate is its own commonDir every call ends, within as many levels as there are commonDirs left, and restores the in-flight set whether or not it succeeds |
| Alternates.RoundForEver | internal/objstore/store.go:172-181 | With one alternate that resolves to another commonDir opening runs for ever |
| PackedRefs.ParsePackedRefs | internal/objstore/packed_refs.go:112-266 | The scanner loop computes ParseFrom, errors included |
| PackedRefs.PackedRoundTrip | internal/objstore/packed_refs.go:112-303 | Parsing inverts printing: the last entry of a name counts, each peel stays with its ref, nothing else appears, and sorted survives exactly when claimed and true |
| PackedRefs.RefusedLines | internal/objstore/packed_refs.go:168-246 | A peel without a ref before it, a second peel, a peel that is no id, a line without a space, and a line whose id or name is not one are refused |
| PackedRefs.CommentsPass | internal/objstore/packed_refs.go:131-166 | A comment behind the first line and a blank line change nothing |
| PackedRefs.TrailingBlanks | internal/objstore/packed_refs.go:131-139 | Blanks and a carriage return at the end of a line are not part of it |
| PackedRefs.HeaderLetters | internal/objstore/packed_refs.go:277-303 | The header with its words |
| PackedRefs.InOrderIsNonDecreasing | internal/objstore/packed_refs.go:246-260 | The adjacent comparisons see every step back |
| PackedRefs.WalkLooseRefs | internal/objstore/loose_refs.go:121-180 | Each loose id overrides packed-refs with no known peel, under any traits; other names keep their entries; a malformed file fails |
| PackedRefs.PeelsKnown | internal/objstore/loose_refs.go:412-424 | After a file was read back the peel of a ref is known exactly when it has a peel line, the file claims to be fully peeled, or it claims to be peeled and the ref is a tag |
| PackedRefs.LooseIds | internal/objstore/loose_refs.go:121-180 | A loose file holds an id of the right length and nothing else; "ref:" makes it symbolic |
| PackedRefs.FollowSymrefChain | internal/objstore/loose_refs.go:264-294 | Remembering visited names never changes the outcome of the five-hop walk |
| PackedRefs.FollowedChain | internal/objstore/loose_refs.go:264-294 | Over any chain of symbolic refs: of at most five names the last decides, giving its id, unborn or corrupt; a sixth is never looked at |
| PackedRefs.CycleCorrupt | internal/objstore/loose_refs.go:267-272 | A cycle of symbolic refs is corrupt however many hops are allowed |
| Refs.CheckComponent | internal/objstore/refname.go:76-113 | Accepts exactly the components the documented rules allow |
| Refs.AllowedBytes | internal/objstore/refname.go:76-113 | The bytes a component may hold: no control, no DEL, no space, none of seven signs and no slash |
| Refs.CheckName | internal/objstore/refname.go:43-66 | Accepts exactly the names whose every component is allowed |
| Refs.RefusedNames | internal/objstore/refname.go:43-113 | Whatever stands around them two dots, "@{", a leading dot, ".lock", a last dot and a bare "@" are refused |
| Refs.GoodNameIsPlain | internal/objstore/refname.go:76-113 | An accepted name has no white space, NUL, caret or colon |
| Refs.HexExactly | internal/objstore/packed_refs.go:181-246 | A string is an id exactly when it has the right number of hex digits, and capitals are folded |
| Bytes.LessIs | internal/reftable/seek.go:238-240 | The byte order of names is that of the first byte in which two differ, with a proper prefix first |
| Bytes.BigEndian | internal/reftable/block.go:255-257 | Fields are big-endian, byte by byte |
| Bytes.Int64Is | internal/objfmt/midx.go:220-236 | A cast to int64 is the one value in range that agrees modulo 2^64 |
| Refs.SortByName | internal/server/advertise.go:254-256 | Sorts the refs in byte order without losing or adding one |
| Pktline.ParseHexLength | pktline/reader.go:169-186 | Reads four hex digits of either case and refuses anything else |
| Pktline.HexRoundTrip | pktline/writer.go:203-209 | Encoding then parsing is the identity on 0..0xffff |
| Pktline.HexReencodes | pktline/reader.go:159-186 | Parsing then encoding returns the prefix up to letter case |
| Pktline.RefusedLengths | pktline/reader.go:112-126 | Of all lengths the reader refuses exactly 3 and those above 0xfff0 |
| Pktline.ReaderRefuses | pktline/reader.go:102-186 | Which error each unreadable frame gives: input that ends inside the prefix or the payload, no hex, the length 3, and more than 65516 bytes of payload |
| Pktline.FrameReadsBack | pktline/reader.go:102-140 | A frame reads back as its packet and leaves what follows |
| Pktline.FramesReadBack | pktline/reader.go:102-140 | The frames of any packets read back as those packets and then a clean end |
| Pktline.Letters | pktline/writer.go:203-209 | Lengths written out digit by digit |
| Pktline.FrameLetters | pktline/writer.go:60-185 | The frames of a line and of the three control packets, letter by letter |
| Pktline.Writer.WritePacket | pktline/writer.go:60-77 | Sends exactly the packet's frame whatever the scratch held, or nothing when it does not fit |
| Pktline.Writer.WriteLineParts | pktline/writer.go:132-157 | Sends the frame of the joined parts, or nothing when they do not fit |
| Pktline.Reader.ReadPacket | pktline/reader.go:102-140 | Returns the next packet or error, with its payload in the reused buffer |
| Pktline.Reader.ReadAll | pktline/reader.go:90-140 | Reading to the end gives the stream's packets despite the reused buffer |
| Request.RequestUnderstood | internal/server/ls_refs.go:81-118 | For all capabilities and arguments, whatever their bytes, the server reads an encoded request without answering early and ends with exactly the flags, prefixes and ids sent, in order, unborn only if advertised |
| Request.PrefixesRead | internal/wire/refs_v2.go:72-76 | Every list of prefixes is read back in order |
| Request.OidsRead | internal/wire/object_info.go:55-59 | Every list of ids is read back in order |
| Request.ArgsReader.ReadPacket | internal/server/command_loop.go:55-62 | Returns the held packet first, then the stream, losing none |
| Request.ReadArgs | internal/server/object_info.go:125-172 | The argument loops end, write and leave the stream as Serve says, refusals and inline errors included |
| Request.UnknownArgument | internal/server/ls_refs.go:81-134 | ls-refs ends at an argument it does not know, writing it back behind ERR with a flush, or nothing when that does not fit |
| Request.ControlAmongArguments | internal/server/ls_refs.go:81-134 | And likewise at a control packet among its arguments |
| Request.UnexpectedLine | internal/server/object_info.go:125-172 | object-info writes back behind ERR what it did not expect and reads on, unless that does not fit |
| Request.ProcessRequest | internal/server/command_loop.go:129-258 | The request loop with its pushback does to the stream what Serve says |
| Request.IdleEnds | internal/server/command_loop.go:129-200 | In front of a request an end of input or a flush is a clean stop, another control packet is not |
| Request.CommandEnds | internal/server/command_loop.go:129-220 | Behind a command an end of input, a second command and a response end are unclean stops |
| Request.NotSupported | internal/server/command_loop.go:238-258 | A command that is neither of the two is refused with ERR and a flush |
| Request.EmptyCommand | internal/server/command_loop.go:129-258 | A flush right behind either command is an empty argument list |
| Request.Letters | internal/wire/refs_v2.go:29-86 | Requests packet by packet |
| Request.FewLetters | internal/wire/object_info.go:33-70 | Two short requests packet by packet |
| Session.EachReadsItsOwn | session.go:228-414 | In every run of calls that fit, both sides never block writing at once, and every finished command read exactly the flush-terminated response written for exactly its arguments |
| Session.RunKeeps | internal/server/command_loop.go:77-100 | Every step keeps client and server in step |
| Session.Deliveries | session.go:228-313 | What each response packet does: a flush finishes the command; behind a caller that stopped anything else is passed over; no data, ERR and a line that does not decode kill the session |
| Session.Failures | session.go:228-414 | A request that cannot be written leaves the session as it was; a response that breaks off kills it unless the caller had stopped |
| Session.Settles | internal/server/command_loop.go:77-100 | Behind each request packet the server reads on, works out its answer, writes an error or is gone |
| Session.Responses | internal/server/command_loop.go:77-100 | A response is every line written, and then the flush, an ERR line and the flush, or nothing |
| Session.DeadIssuesNothing | session.go:447-474 | Once the session is dead no later call writes or reads a packet |
| Session.NeverStuck | session.go:228-313 | While a call runs, some step is possible |
| Session.CallsFinish | session.go:228-414 | Every step leaves less of the running call, so it ends |
| Session.DeadlockExactly | pktline/writer.go:132-139 | Both sides can block writing if and only if a call with an argument too long for a pkt-line is followed by another call and the capabilities fit |
| Session.AbortOne | transport/file/command.go:49-61 | Such a call returns to the caller with the server still among its arguments |
| Session.NextOneBlocks | internal/server/ls_refs.go:115-134 | The next call is answered with ERR while it is still being written |
| LsRefs.Match | internal/server/ls_refs.go:335-345 | Admits a name exactly when there are no prefixes or one of them begins it |
| LsRefs.AdmittedExactly | internal/server/ls_refs.go:312-322 | The filter keeps exactly the admitted refs |
| LsRefs.Collect | internal/server/ls_refs.go:312-327 | Returns the admitted refs in byte order |
| LsRefs.WriteResponse | internal/server/ls_refs.go:49-204 | Writes HEAD, the admitted refs in byte order and a flush, stopping only before a packet that does not fit |
| LsRefs.ResponseRoundTrip | internal/wire/refs_v2.go:138-234 | The client decodes exactly HEAD, when admitted, and then the refs in order with their own peels and targets |
| LsRefs.HeadAnswered | internal/server/ls_refs.go:212-266 | HEAD comes first when a prefix begins its name and some digit of its id is not a zero, or as unborn when unborn and targets were asked for, with target and peel only when asked for; then every ref in order |
| LsRefs.DecodeRefuses | internal/wire/refs_v2.go:138-234 | An ERR line, a blank line and a line of one token are refused |
| LsRefs.AttributesRead | internal/wire/refs_v2.go:200-234 | Attributes the client does not know are passed over, of two of a kind the last counts, and an unborn HEAD has no peel |
| LsRefs.Letters | internal/server/ls_refs.go:212-300 | Lines of the response, letter by letter |
| LsRefs.Client.Refs | session.go:228-283 | The iterator, stopped anywhere, yields the response's refs in order and leaves the stream behind the response unless the session is dead; ranged to the end, it dies exactly on a response that does not decode |
| LsRefs.Client.Drain | session.go:303-313 | Reads to just behind the flush |
| ObjectInfo.WriteResponse | internal/server/object_info.go:190-311 | Writes the attribute line, the rows up to a fatal one, and the flush |
| ObjectInfo.Read | internal/wire/object_info.go:99-191 | The decoder loop computes Decode |
| ObjectInfo.InfoRoundTrip | internal/wire/object_info.go:99-275 | With sizes, exactly the objects the store has, in request order; without, every id asked for; failure exactly on a malformed id or a corrupt object; and the one lost answer |
| ObjectInfo.RowsRead | internal/wire/object_info.go:235-275 | A row is an id, a space and a size; one without a size, or without an id, is passed over |
| ObjectInfo.SizesRead | internal/wire/object_info.go:235-275 | A size is an optional sign and decimal digits inside int64 |
| ObjectInfo.NotASize | internal/wire/object_info.go:235-275 | Anything else is no size |
| ObjectInfo.DecodeFails | internal/wire/object_info.go:99-191 | An empty stream, an ERR line, a control packet and a missing flush all fail |
| ObjectInfo.LooksLikeRowExactly | internal/wire/object_info.go:207-218 | The first line names attributes unless it begins with 40 or 64 lower-case digits and a space or its end |
| ObjectInfo.ErrorRows | internal/server/object_info.go:251-322 | A malformed id is answered with ERR and the response goes on; a corrupt object ends it |
| ObjectInfo.LowerCaseNeeded | internal/wire/object_info.go:207-218 | An upper-case first id asked for without its size is lost, and with its size it is not |
| Served.EachShowsTheStore | session.go:228-414 | In every run of calls that fit, with the server answering from one store and the client decoding for itself, each finished command carried the arguments of some call and brought back exactly the refs or sizes the store shows of them, unless the server ended inside a response the caller had stopped reading |
| Served.ServableNeverDies | session.go:361-414 | When the server can answer every call in packets that fit, no call kills the session and every finished one was answered in full |
| WireCaps.LsRefsSupportsUnborn | internal/wire/refs_v2.go:105-114 | True exactly when some ls-refs capability has unborn among the features of its value |
| WireCaps.UnbornMustComeFirst | internal/wire/refs_v2.go:99-114 | From an advertised feature list the gate opens exactly when unborn comes first |
| WireCaps.SecondIsLost | internal/wire/advertisement.go:165-166 | A server listing peel and then unborn is taken not to have it |
| Advertise.WriteV0 | internal/server/advertise.go:116-258 | Writes the advertisement of the refs in byte order, stopping only before a packet that does not fit |
| Advertise.ReadV0 | internal/wire/refs_v0.go:68-140 | The parser loop computes ParseV0, errors included |
| Advertise.AnnotateSymrefs | internal/wire/refs_v0.go:183-196 | Writing through the slice gives each named ref's first occurrence its target |
| Advertise.ReadV2Capabilities | internal/wire/advertisement.go:148-168 | The loop computes what the lines up to the flush add up to, errors included; AdvertFormat.VersionTwo says what that is |
| Advertise.Dispatch | internal/wire/advertisement.go:73-135 | The version dispatch computes Parse; the rows of AdvertFormat say what that is, version by version and line by line |
| Advertise.ReadAdvertisement | internal/wire/advertisement.go:42-70 | Succeeds exactly when the packets parse and the caller asked for their version or for none, and then with what they say |
| Advertise.CapsExactly | internal/wire/caps_parse.go:31-60 | The v0 capability list comes back exactly when no value in it holds white space |
| Advertise.AdvertRoundTrip | internal/wire/refs_v0.go:68-196 | The client reads back version 0, every capability, HEAD and every ref in order with its own peel, and nothing from an empty repository |
| Advertise.HeadSeen | internal/server/advertise.go:141-176 | HEAD leads with its target exactly when it is valid; AdvertFormat.WrittenIsRead says when, in the fields of HEAD |
| AdvertFormat.VersionTwo | internal/wire/advertisement.go:94-168 | Behind "version 2", one capability a line and a flush: exactly those capabilities in order and no refs; without the flush truncated, and another control packet refused |
| AdvertFormat.VersionOne | internal/wire/advertisement.go:107-119 | "version 1" in front of an advertisement gives the same capabilities and refs with that version |
| AdvertFormat.OddStarts | internal/wire/advertisement.go:74-135 | No packets, a control packet first, every other version, and "version 1" without a ref line behind it |
| AdvertFormat.FirstLines | internal/wire/refs_v0.go:149-177 | The first line is an id, a name and capabilities; the placeholder behind a zero id gives no ref, another peeled name and a line without the space or the NUL are refused |
| AdvertFormat.LaterLines | internal/wire/refs_v0.go:82-130 | After it: a ref, a peel that must follow its own ref, a shallow line, and what ends or spoils the list |
| AdvertFormat.SymrefGoesToFirst | internal/wire/refs_v0.go:183-196 | Of the refs of one name the first gets the target, and of several targets the last counts |
| AdvertFormat.SymrefLeaves | internal/wire/refs_v0.go:183-196 | A ref that no symref with a name and a target names, or that is not the first of its name, is left as it is |
| AdvertFormat.WrittenIsRead | internal/server/advertise.go:116-258 | From what the server writes the client reads the capabilities, HEAD first exactly when it is born and has a target or an id with a digit other than zero, and every ref with its id and peel |
| AdvertFormat.ToTheLetter | internal/server/advertise.go:116-258 | Three advertisements, letter by letter |
| DumbHttp.Synth.Read | internal/dumbhttp/adapter.go:160-184 | Each read ends and returns the next bytes of one stream, for every buffer size |
| DumbHttp.Synth.Fill | internal/dumbhttp/adapter.go:189-238 | Filling keeps the bytes still to come |
| DumbHttp.Synth.ReadLine | internal/dumbhttp/adapter.go:244-276 | Returns the next line that is neither blank nor a comment, and keeps the scanner's error |
| DumbHttp.Synth.ReadSizes | internal/dumbhttp/adapter.go:160-184 | Whatever sizes are read, the bytes are those of the same stream up to the same end |
| DumbHttp.Synthesised | internal/dumbhttp/adapter.go:189-300 | Every packet the adapter makes fits a pkt-line |
| DumbHttp.BodyPackets | internal/dumbhttp/adapter.go:189-327 | The packets for a well-formed body are the v0 advertisement of its refs |
| DumbHttp.SplitsLines | internal/dumbhttp/adapter.go:289-327 | A tab or a space stands between id and name; one field alone is malformed and more than 65514 bytes are too large |
| DumbHttp.PassedOver | internal/dumbhttp/adapter.go:244-276 | Blank lines and comments leave no packet |
| DumbHttp.LongLine | internal/dumbhttp/adapter.go:264-275 | A line beyond the scanner's 64 KiB is too large |
| DumbHttp.BadLine | internal/dumbhttp/adapter.go:189-238 | A malformed line stops the stream behind the packets of the lines before it |
| DumbHttp.DumbRoundTrip | internal/dumbhttp/adapter.go:109-352 | The client's parser finds exactly the body's refs and peels |
| WireText.FieldsOfSpaced | internal/wire/caps_parse.go:31-60 | Splitting a spaced-out list gives the list back exactly when it holds tokens |

## Left out

- File system, memory mapping, pipes' byte granularity, clocks, contexts and network transports: file contents and streams are values, and a packet passes whole.
- zlib, the hash functions and CRC-32's polynomial: a checksum is a fold of any update step, and hash trailers are not checked.
- Error texts and wrapping: error kinds are small datatypes, and an ERR packet's text is not quoted as the source quotes it.
- Non-ASCII white space: `bytes.Fields` and `strings.TrimSpace` also split and trim at Unicode spaces, so names holding one are outside the ls-refs and dumb-HTTP round trips.
- Index sections of object records and log records: the reader under `Reader` never decodes them.
- Alternates fallback of object look-up: `ObjectStore` models one store, and an object found in an alternate is that store's own walk.
- The alternates file's text, with its C-style quoting: `Alternates` starts from the resolved entries.
- Concurrency of the caches and of `markDead`: the source takes a lock around each access; calls are modelled one after another.
- Git-config, gitdir resolution, URL handling and credentials: shallow string work that would add only easy members.
- A `Refs` iterator that is never ranged: the session's contract forbids issuing another call then.
