# bohuno-pyzord, modelled in Dafny

bohuno-pyzord is a set of C++ daemons and Python tools around a Pyzor
spam-signature store. A signature is the 20-byte digest of a message body.
The store maps each signature to a 32-byte record of report and whitelist
counters and timestamps, kept in network byte order.

- **Master.** The master applies a stream of 28-byte update messages (erase, report, whitelist) to the store. It also expires old single-report records through a secondary index ordered by update time.
- **Replica servers.** The replicas answer Pyzor UDP requests (check, report, whitelist, ping and the admin operations). They forward reports to the master over a FIFO relay.
- **Publisher.** `bohuno-updated` publishes snapshot and update dumps under timestamped file names.
- **Client daemon.** The `bohuno-pyzord` daemon scans the publisher's listing, downloads and imports the updates in order, and answers checks from its local copy.
- **Support code.** Around these sit:
  - a small HTTP server and a web API;
  - base64 and ARCFOUR codecs, used for license keys;
  - URL and text-packet parsers;
  - per-second statistics rings;
  - dump import and export tools, plus development scripts in Python.

The model is functional.

- **Types.** Records, updates, dumps, packets, requests and queues are immutable datatypes. Byte strings are `seq<byte>`, and C++ `uint32_t` is the subset type `u32`.
- **Store.** Berkeley DB becomes a `map<Signature, Record>` together with a predicate, `IsIndexOf`, that pins down the secondary index order. The index key is the `sizeof(time_t)` bytes stored from `updated_`, compared as bytes, with duplicates sorted by signature. With a 32-bit `time_t` that orders by update time, then signature. On LP64 hosts the key also covers `report_count_`, so the order is update time, then report count, then signature.
- **Host parameters.** Host byte order (`le`), the C `long` size (`lp64`) and the clock (`now`) are parameters wherever the source depends on them. This includes the two ages computed as a `time_t` minus a `uint32_t` (the server's staleness test and the publisher's snapshot test). On an ILP32 host that difference is unsigned 32-bit, which `Bytes.TimeMinus` spells out. It also includes the publisher's copy of an update's `uint32_t` start into a `time_t` before printing it, which `Bytes.TimeOfU32` spells out: on ILP32 a start of 2^31 or more turns negative.
- **Handlers.** Asynchronous handlers become functions from a state and a completion to a new state and the effects they start.

Modules, one file each:

- **Foundations.**
  - `Wrappers` holds Option and Result.
  - `Bytes` holds 32-bit wrap, big-endian images, byte swap, decimal and hex text.
  - `Hashes` holds signatures and their hex form, plus the FNV bucket hash.
- **Formats.**
  - `Records` and `Updates` hold the record and the update message.
  - `Dump` holds the dump stream format.
- **Server side.**
  - `Store` holds the master's update and expiry logic, the lookups, the dumps and import/export.
  - `Publisher` models the snapshot/update publisher.
  - `Options` holds the import/export command lines.
- **Codecs.**
  - `Base64` and `Arcfour` are the two codecs.
  - `License` holds license keys and the license generator.
- **Parsers and servers.**
  - `Url` and `Packet` are the two text parsers.
  - `Http` and `Api` hold the web server and the API.
  - `Udp` holds the two UDP reply decisions.
  - `Statistics` holds the statistics ring.
- **Queues and tools.**
  - `Relay` is the update relay.
  - `Downloads` is the client's download queue.
  - `DevScripts` covers the Python development scripts.

## Model

| member | source | states |
|---|---|---|
| Bytes.Wrap32 | sources/common/record.cpp:44-46 | the counters' `count + 1` as C++ `uint32_t` arithmetic: the value reduced modulo 2^32 |
| Bytes.BE32RoundTrip | sources/common/record.cpp:114-182 | the four bytes htonl stores give back the value when read with ntohl |
| Bytes.FromBE32RoundTrip | sources/common/record.cpp:114-182 | any four stored bytes are the network image of the value they read as |
| Bytes.BE32Injective | sources/common/common.cpp:46-55 | distinct update times have distinct index keys |
| Bytes.ByteSwapInvolution | sources/common/update.cpp:29-47 | reversing the bytes of a 32-bit word twice gives it back |
| Bytes.NtohlHtonl | sources/common/update.cpp:29-47 | on either host byte order, ntohl undoes htonl |
| Bytes.BytesLessIsValueOrder | sources/common/common.cpp:46-77 | on equal-length strings, memcmp order is the order of their big-endian values |
| Bytes.BE32OrderIsNumeric | sources/common/common.cpp:46-77 | byte order of network-order timestamps is numeric order, so the raw `updated_` bytes are a valid B-tree key |
| Bytes.DecimalValue | sources/bohuno/bohuno-updated.cpp:58-78 | the decimal text lexical_cast writes for n reads back as n |
| Bytes.DecimalLengthExact | sources/bohuno/bohuno-updated.cpp:58-69 | values from 10^(k-1) to 10^k - 1 are written with exactly k digits (so ten-digit timestamps) |
| Bytes.BytesCharsRoundTrip | sources/common/license.cpp:43-59 | bytes carried through narrow chars come back unchanged |
| Bytes.TimeMinus | sources/common/server.cpp:147 | a `time_t` minus a `uint32_t`: the exact difference on LP64; on ILP32 a value below 2^32 equal to it modulo 2^32; the two agree when the difference lies in [0, 2^32) |
| Bytes.TimeMinusBackwards | sources/bohuno/bohuno-updated.cpp:194 | a clock reading before the stamp gives a negative age on LP64 and the difference plus 2^32 on ILP32 |
| Bytes.TimeOfU32 | sources/bohuno/bohuno-updated.cpp:247 | a `uint32_t` copied into a `time_t`: unchanged on LP64; on ILP32 it lies in [-2^31, 2^31), is negative exactly for values of 2^31 and more, and wraps back to the original |
| Hashes.FromArray | sources/common/hash.cpp:16-19 | the array constructor's hash holds exactly the 20 given bytes |
| Hashes.Strtol16OfHexPair | sources/common/common.cpp:35-41 | strtol base 16 of a pair of hex digits is 16 times the first digit plus the second |
| Hashes.PairByte | sources/common/common.cpp:40 | storing strtol's result for two hex digits in an unsigned char gives 16 times the first digit plus the second |
| Hashes.DecodeSignature | sources/common/common.cpp:29-44 | the decoding succeeds exactly for 40-character text, whether or not the characters are hex digits |
| Hashes.FromHex | sources/common/hash.cpp:21-33 | text of 40 characters decodes like decode_signature; any other length leaves the prior bytes |
| Hashes.PrintDecodeRoundTrip | sources/common/hash.cpp:21-46 | printing a signature and parsing the text back (by either parser) gives the signature |
| Hashes.DecodePrintRoundTrip | sources/common/common.cpp:29-44 | parsing 40 hex digits and printing gives the text back in lower case |
| Hashes.PyzorHashLoop | sources/common/common.cpp:14-27 | the byte-by-byte loop computes FNV-0: start at 0, then multiply by 16777619 mod 2^32 and xor each byte |
| Records.Set | sources/common/record.cpp:144-182 | a setter changes its own field to the value and leaves the other seven as they were |
| Records.FieldsDetermineRecord | sources/common/record.hpp:48-55 | two records with equal getters are equal: the eight fields are the whole value |
| Records.ImageLayout | sources/common/record.hpp:46-55 | the stored 32 bytes hold each field's network-order image at its declaration offset |
| Records.ImageRoundTrip | sources/common/record.hpp:46-55 | a record read back from its stored bytes is the same record |
| Records.FromImageRoundTrip | sources/common/record.hpp:46-55 | any 32 stored bytes are the image of the record they read as |
| Records.Report | sources/common/record.cpp:44-70 | the count goes up by one mod 2^32; for t = 0 the report stamps are set to now; for t != 0 the last-seen stamp becomes max(old, t) and first-seen is written only when 0 and t is later; `entered`/`updated` follow the same rules; whitelist fields untouched |
| Records.Whitelist | sources/common/record.cpp:72-98 | the same rules as report on the whitelist fields, the report fields untouched |
| Records.Reset | sources/common/record.cpp:100-112 | both counts and both last-seen stamps become 0 and `updated` becomes t (or now) even when smaller; the three entered stamps stay |
| Records.ZeroConsistent | sources/common/record.cpp:8-19 | the zeroed default record satisfies the record invariant |
| Records.OperationsKeepConsistent | sources/common/record.cpp:44-112 | report, whitelist and reset keep the record invariant |
| Records.ReportMonotone | sources/common/record.cpp:63-69 | report and whitelist never lower `updated` and leave `entered` non-zero for a non-zero time |
| Records.ReportsCommute | sources/common/record.cpp:44-70 | two reports with explicit times give the same counts and last-seen stamps in either order |
| Records.ResetClears | sources/common/record.cpp:100-112 | a reset record counts as absent for lookups until reported again |
| Updates.Make | sources/common/update.cpp:12-17 | the constructor's update holds the hash, the type and the current time |
| Updates.Encode | sources/common/update.hpp:30-32 | 28 bytes, the hash first |
| Updates.Decode | sources/common/update.cpp:29-47 | the hash is the first 20 bytes read |
| Updates.EncodeDecode | sources/common/update.hpp:30-32 | the 28-byte layout (hash, htonl(type), htonl(time)) reads back as the same update |
| Updates.DecodeEncode | sources/common/update.cpp:29-47 | any 28 bytes are the encoding of the update the accessors read from them |
| Updates.ReadUpdates | sources/common/master.cpp:55-76 | a session hands over one update per complete 28-byte block, in order, and keeps a trailing partial block |
| Updates.ReadAfterSend | sources/common/master.cpp:55-76 | updates sent back to back are read back exactly, whatever partial block trails them |
| Updates.KindName | sources/common/update.cpp:49-63 | the name printed for a raw field: erase, report or whitelist for the network images of 0, 1 and 2, nothing otherwise |
| Updates.Show | sources/common/update.cpp:65-69 | as written; on a big-endian host it prints what the intended printer prints; the line ends with the decimal time |
| Updates.ShowIntendedNamesKind | sources/common/update.cpp:49-69 | printing that passes the raw field names every known update type correctly, on either host |
| Updates.ShowLosesKindOnLittleEndian | sources/common/update.cpp:65-69 | as written, on a little-endian host a report or whitelist update prints with an empty type name |
| Dump.Header | sources/common/dump.hpp:11-16 | the header is four bytes reading back as the version |
| Dump.EntryRoundTrip | sources/common/dump.hpp:31-44 | a v2 entry decodes back to the signature and record encoded |
| Dump.EntryBytesRoundTrip | sources/common/dump.hpp:31-44 | any 52 bytes are the v2 encoding of what they decode to |
| Dump.EntryFieldOffsets | sources/common/dump.hpp:31-44 | a v2 entry is the 20-byte key followed by the record's stored image, field for field |
| Dump.EntryV1RoundTrip | sources/common/dump.hpp:18-29 | a 44-byte v1 entry (signature and the six report/whitelist fields) decodes back to what was encoded |
| Dump.DecodeEncodeEntries | sources/bohuno/bohuno-database.cpp:249-306 | the record loop reads back every encoded entry, in order |
| Dump.ReadDump | sources/bohuno/bohuno-database.cpp:242-306 | the first four bytes are taken as the version and not checked; then every complete 52-byte record, a partial one dropped |
| Dump.ReadAfterWrite | sources/bohuno/bohuno-database.cpp:236-324 | reading a written dump gives back exactly the entries, whatever partial record trails them |
| Dump.ImportProgress | sources/bohuno/bohuno-database.cpp:293-313 | the callback gets every multiple of 25000 up to the count, then the count once more when a batch is open |
| Dump.ImportProgressRepeatsFullBatch | sources/bohuno/bohuno-database.cpp:295-313 | a stream whose count is a whole number of batches reports that count twice |
| Dump.ExportProgress | sources/pyzor/pyzord-export.cpp:177-185 | a progress line at every multiple of 100000, then the count only when it is not a multiple |
| Store.TimeKey | sources/common/common.cpp:46-55 | the secondary key is `sizeof(time_t)` bytes from `updated_`: four bytes reading back as the update time, and on LP64 four more reading back as the report count |
| Store.CompareTimeKeyOrdersByTime | sources/common/common.cpp:57-77 | on a four-byte key the comparator returns -1, 0 or 1 by update time, is antisymmetric, and agrees with the byte order of the keys; no database registers it |
| Store.BeforeIsKeyOrder | sources/common/master.cpp:322 | the model's index order is exactly Berkeley DB's order for DB_DUP with DB_DUPSORT: byte order of the keys, then of the signatures, on either key width |
| Store.IndexUnique | sources/common/master.cpp:322 | the index order (update time, then report count on LP64, then signature) fixes the index of a store uniquely |
| Store.IndexEmpty | sources/common/master.cpp:322 | the index is empty exactly when the store is |
| Store.SetRange | sources/common/master.cpp:402-420 | DB_SET_RANGE lands on the first index position whose time is at least `from` |
| Store.ProcessUpdate | sources/common/master.cpp:543-689 | when the get and the put succeed, report stores `Records.Report` of the stored (or zeroed) record with the update's time and now, whitelist stores `Records.Whitelist` likewise, and erase stores `Records.Reset` of it stamped now, even for an absent signature; other types and database errors leave the store unchanged; no other key changes |
| Store.ApplyAll | sources/common/master.cpp:543-557 | updates for other signatures leave a signature's record as it was |
| Store.RepeatedReportsCount | sources/common/master.cpp:559-624 | n reports of a fresh signature leave report count n |
| Store.RepeatedReportsFrom | sources/common/master.cpp:559-624 | n more reports raise a stored count c to c + n |
| Store.Sweep | sources/common/master.cpp:420-460 | the cursor walk picks, in index order and at most 3600 times, only records older than `to` with at most one report |
| Store.SweepComplete | sources/common/master.cpp:420-460 | below its budget the walk takes every expirable record from its start |
| Store.SweepStopsInOrder | sources/common/master.cpp:420-460 | at its budget, every expirable record left lies after the last one taken |
| Store.KeysAtCount | sources/common/master.cpp:420-460 | distinct index positions name distinct signatures |
| Store.Expire | sources/common/master.cpp:402-470 | deletes at most 3600 records, each with update time in [from, to) and at most one report, and nothing else; the new `updated_to` is the last deleted time; below the cap no expirable record in range is left |
| Store.HandleExpire | sources/common/master.cpp:478-541 | the store becomes Expire's result for the window from the saved position (0 without a status file) to now - 3*28*86400; after a deletion the status file gets the last deleted record's time, and a failed write stops the tick; the next run is in 1 s exactly when something was deleted, the write succeeded and that time is more than 60 s behind the cut-off, otherwise in 60 s; an unreadable status file stops the tick |
| Store.Reschedule | sources/common/master.cpp:509-539 | the status file is written only after a deletion, with the last deleted time; 1 s exactly when that time is over 60 s behind the cut-off, no reschedule after a failed write, else 60 s |
| Store.ExpireResumesWithoutSkipping | sources/common/master.cpp:478-541 | every record a run could have deleted but left lies at or after the saved position, so the next run reaches it |
| Store.Get | sources/common/database.cpp:38-74 | found exactly for a 40-character text naming a stored record whose counts are not both zero; the record read is the stored one, or zeros for a wrong length or an absent key |
| Store.EraseHidesSignature | sources/common/master.cpp:626-689 | after an erase is applied, a lookup of the signature reports not found |
| Store.LookupAsWritten | sources/bohuno/bohuno-database.cpp:154-180 | as written: found exactly for a stored record whose report and whitelist counts are both non-zero, so only where the corrected lookup also finds it; the record read is the stored one or zeros |
| Store.Lookup | sources/bohuno/bohuno-database.cpp:154-180 | corrected, as the comment at line 177 intends: found exactly for a stored record that is not in the reset state; the record read is the stored one or zeros |
| Store.LookupAgreesWithGet | sources/common/database.cpp:38-74 | the corrected bohuno lookup and the server's get agree on every signature |
| Store.LookupAsWrittenMissesReported | sources/bohuno/bohuno-database.cpp:178 | as written, a stored record with reports and no whitelists is reported not found |
| Store.LookupLast | sources/bohuno/bohuno-database.cpp:182-209 | none exactly for an empty store; otherwise a stored record with the greatest update time |
| Store.IsEmpty | sources/bohuno/bohuno-database.cpp:211-216 | true exactly when the store has no record |
| Store.Insert | sources/bohuno/bohuno-database.cpp:218-234 | the signature maps to the record afterwards and every other signature is unchanged |
| Store.PutAll | sources/pyzor/pyzord-import.cpp:246-301 | entries are put in order, a later one replacing an earlier one with the same signature |
| Store.Import | sources/bohuno/bohuno-database.cpp:236-324 | the version word is skipped unchecked, every complete record is put in order, the count is returned, and progress fires as ImportProgress says |
| Store.Export | sources/pyzor/pyzord-export.cpp:148-190 | the dump starts with the version 2 header and reads back as every stored record once, and the count is the store's size |
| Store.ImportAfterExport | sources/pyzor/pyzord-import.cpp:212-317 | importing an export into an empty database reproduces the database |
| Store.DumpModifiedRecords | sources/common/database.cpp:127-165 | a dump with the version 2 header holding exactly the records with min <= updated <= max, and their count |
| Store.DumpModifiedRecords2AsWritten | sources/common/database.cpp:167-223 | as written: a version 2 dump holding the intended entries less the first one, and their count |
| Store.DumpModifiedRecords2 | sources/common/database.cpp:167-223 | as intended: a version 2 dump of every record with update time in [min, max], in index order, and nothing else |
| Store.DumpModifiedRecords2SkipsFirst | sources/common/database.cpp:198-200 | as written, one record updated exactly at `min` gives an empty dump |
| Store.GetUpdatedSince | sources/common/database.cpp:76-107 | every record not older than `since`, in index order |
| Publisher.CheckTimestamp | sources/bohuno/bohuno-updated.cpp:58-69 | true exactly for text of ten decimal digits |
| Publisher.ParseSnapshotName | sources/bohuno/bohuno-updated.cpp:71-78 | a regular file named by a timestamp gives that timestamp; a ten-digit value of 2^32 or more fails the cast; anything else is skipped |
| Publisher.ParseUpdateName | sources/bohuno/bohuno-updated.cpp:132-149 | twenty characters whose halves are timestamps give (min, max) |
| Publisher.SnapshotNameRoundTrip | sources/bohuno/bohuno-updated.cpp:182-221 | the name a snapshot is written under parses back to its time |
| Publisher.UpdateNameRoundTrip | sources/bohuno/bohuno-updated.cpp:223-268 | the name an update is written under parses back to its range |
| Publisher.MostRecentSnapshot | sources/bohuno/bohuno-updated.cpp:80-104 | none unless some snapshot is above 0; otherwise the greatest, the first one winning ties |
| Publisher.OldestSnapshot | sources/bohuno/bohuno-updated.cpp:106-130 | the least timestamp, with none whenever that is the sentinel 0xffffffff |
| Publisher.LastSecondSnapshotIsInvisible | sources/bohuno/bohuno-updated.cpp:106-130 | a lone snapshot named 4294967295 counts as none |
| Publisher.MostRecentUpdate | sources/bohuno/bohuno-updated.cpp:151-178 | none unless some update ends above 0; otherwise a listed update name, parsing to its range, with the greatest max |
| Publisher.SnapshotFromTheFuture | sources/bohuno/bohuno-updated.cpp:194 | a latest snapshot stamped after the clock holds the next snapshot back on LP64 but triggers one at once on ILP32 |
| Publisher.PlanSnapshot | sources/bohuno/bohuno-updated.cpp:182-221 | a snapshot is made exactly when the age of the latest snapshot is at least 14400, the age being now - latest on LP64 and that difference modulo 2^32 on ILP32; it is named now - 1 and holds the records updated up to then |
| Publisher.PlanUpdate | sources/bohuno/bohuno-updated.cpp:223-268 | the update starts at the last update's end or the last snapshot, is skipped at 0, and ends at now - 1; its name is the start as a `time_t` followed by now - 1, so it is the plain decimal start on LP64 or below 2^31, and starts with '-' on ILP32 from 2^31 on |
| Publisher.UpdatesChain | sources/bohuno/bohuno-updated.cpp:223-268 | successive updates chain: each new name starts where the previous one ended, on LP64 and on ILP32 while that end is below 2^31 |
| Publisher.UpdatesChainBreaksOnIlp32 | sources/bohuno/bohuno-updated.cpp:247-251 | on ILP32, after an update ending at 2^31 or later, the next update's name does not parse as an update name |
| Publisher.ExpireSnapshots | sources/bohuno/bohuno-updated.cpp:270-291 | splits the directory into the snapshots older than now - 36000 (in 32-bit arithmetic), which are removed, and the others |
| Publisher.ExpireSnapshotsKeepsNoMinimum | sources/bohuno/bohuno-updated.cpp:272-290 | the comment's "keep two" is not kept: old enough snapshots all go |
| Publisher.ExpireUpdates | sources/bohuno/bohuno-updated.cpp:293-312 | splits the update names into those ending before the oldest remaining snapshot, which are removed, and the others |
| Publisher.Tick | sources/bohuno/bohuno-updated.cpp:320-342 | with the database down, only a retry in 5 s; otherwise the snapshots removed are ExpireSnapshots' removals, the updates removed are those expire_updates removes against the oldest remaining snapshot (only when a snapshot went); a snapshot is written exactly when PlanSnapshot asks for one and its dump succeeds; otherwise an update is written exactly when PlanUpdate gives one and its dump succeeds, and it is that plan; the next tick is the interval less the time spent |
| Publisher.UpdatesExpiry | sources/bohuno/bohuno-updated.cpp:293-312 | updates are removed only after a snapshot was, each ending before the oldest remaining snapshot; the rest are kept |
| Options.Scan | sources/pyzor/pyzord-import.cpp:44-58 | the option loop succeeds exactly when every option is -d or -f with its argument |
| Options.ScanKeepsLast | sources/pyzor/pyzord-export.cpp:40-54 | each setting is the argument of the last option naming it, or its default |
| Options.ImportOptions | sources/pyzor/pyzord-import.cpp:27-66 | accepted exactly when the options scan and the input file exists |
| Options.ExportOptions | sources/pyzor/pyzord-export.cpp:25-62 | accepted exactly when the options scan and the output file does not exist |
| Options.DefaultsWithoutFlags | sources/pyzor/pyzord-import.cpp:27-36 | with no options both tools use /var/lib/pyzor and pyzor.dump |
| Options.ImportAndExportDisagree | sources/pyzor/pyzord-export.cpp:56-59 | for the same options and files, import and export are never both accepted |
| Base64.TableOfSymbol | sources/common/base64.cpp:9-36 | the decode table inverts the RFC 4648 section 4 alphabet |
| Base64.SymbolOfTable | sources/common/base64.cpp:9-36 | every table entry below 64 is the index of its alphabet symbol |
| Base64.Encode | sources/common/base64.cpp:38-67 | standard base64 of any bytes: 4 symbols per started group, all ASCII |
| Base64.EncodeAsWritten | sources/common/base64.cpp:38-67 | as written: defined exactly for inputs of two bytes or more |
| Base64.EncodeAsWrittenAgrees | sources/common/base64.cpp:38-67 | on two or more bytes the encoder as written is standard base64 |
| Base64.EncodeAsWrittenUndefinedOnShortInput | sources/common/base64.cpp:43 | on fewer than two bytes the unsigned loop bound wraps and the encoder has no defined result |
| Base64.Decode | sources/common/base64.cpp:69-91 | at most three bytes per four characters read |
| Base64.DecodeEncode | sources/common/base64.cpp:69-91 | decode undoes standard encoding of any byte string |
| Base64.DecodeEncodeAsWritten | sources/common/base64.cpp:38-91 | decode(encode(s)) == s wherever the encoder as written is defined |
| Base64.DecodeCount | sources/common/base64.cpp:76-90 | decoding emits at most three bytes per four symbols counted and leaves fewer than four pending |
| Base64.PaddingIsSticky | sources/common/base64.cpp:76-90 | the '=' budget is never reset: a full group after "==" yields one byte |
| Base64.GroupWordBytes | sources/common/base64_decoder.hpp:68-92 | the three bytes read out of a valid group's word are the bytes the group encodes |
| Base64.Feed | sources/common/base64_decoder.hpp:68-92 | a partial group carries over between reads and every fourth char completes one |
| Base64.FeedBound | sources/common/base64_decoder.hpp:59-94 | at most three bytes per completed group |
| Base64.ReadChunk | sources/common/base64_decoder.hpp:53-97 | fewer than 3 bytes of room throws; at most (n/3)*4 characters are taken and at most n bytes returned; end of input returns -1 |
| Base64.FeedAppend | sources/common/base64_decoder.hpp:53-97 | feeding two chunks in turn is feeding their concatenation |
| Base64.StreamDecode | sources/common/base64_decoder.hpp:53-97 | at most three bytes per four characters fed |
| Base64.StreamDecodeEncode | sources/common/base64_decoder.hpp:53-97 | the streaming decoder recovers any bytes from their standard encoding |
| Arcfour.SchedulePermutes | sources/common/arcfour.hpp:74-90 | the key schedule leaves a permutation of 0..255 with both indices 0 |
| Arcfour.KeySchedule | sources/common/arcfour.hpp:74-90 | the constructor's loop on an array computes the key schedule, for any non-empty key |
| Arcfour.WikipediaInitAgrees | utilities/generate-license.py:15-19 | the Python key schedule is the C++ one |
| Arcfour.StepPermutes | sources/common/arcfour.hpp:102-111 | the S-box stays a permutation after every byte |
| Arcfour.Crypt | sources/common/arcfour.hpp:102-111 | one output byte per input byte |
| Arcfour.CryptIsXor | sources/common/arcfour.hpp:102-111 | each output byte is the input xor the keystream, which does not depend on the data |
| Arcfour.CryptInvolution | utilities/generate-license.py:22-30 | two generators in the same state undo each other |
| Arcfour.CryptAppend | sources/common/arcfour.hpp:92-100 | encrypting in pieces is encrypting the whole |
| Arcfour.Filter | sources/common/arcfour.hpp:92-100 | filter transforms min(source, room) bytes one for one and answers false |
| Arcfour.FilterTwice | sources/common/arcfour.hpp:92-100 | two filter calls produce what one pass over their input would |
| License.Split | sources/common/license.cpp:61-74 | every tab ends a field and empty fields are kept |
| License.JoinSplit | sources/common/license.cpp:61-74 | the fields with tabs between them are the input |
| License.SplitJoin | utilities/generate-license.py:41 | tab-free fields joined by tabs split back to the fields |
| License.Decode | sources/common/license.cpp:43-59 | the text goes through the streaming base64 decoder and ARCFOUR with the fixed key |
| License.Parse | sources/common/license.cpp:61-74 | exactly three fields, as real name, user name, password; otherwise invalid |
| License.FirstToken | sources/common/license.cpp:19-35 | the file read keeps only the first whitespace-delimited token |
| License.FromFile | sources/common/license.cpp:19-35 | a missing or unreadable file is an error; otherwise its first token is parsed |
| License.BlankFileIsInvalid | sources/common/license.cpp:19-35 | an empty or blank license file is an invalid key |
| License.Generate | utilities/generate-license.py:34-41 | the script needs exactly two arguments and issues base64 of ARCFOUR of the tab-joined triple |
| License.ParseGenerated | utilities/generate-license.py:38-41 | a generated key parses back to its real name, user name and password when none holds a tab |
| License.TabInRealNameIsRefused | sources/common/license.cpp:65-69 | a tab inside the real name makes the key invalid |
| Url.DefaultPort | sources/common/url.cpp:110-123 | a default port exists exactly for http, https, mysql and ftp |
| Url.ParsePort | sources/common/url.cpp:98-123 | after a ':' the port is a run of digits; without one, parsing succeeds exactly when the scheme has a default port |
| Url.ParsePath | sources/common/url.cpp:125-132 | the rest of the text, which must start with '/' when non-empty |
| Url.Parse | sources/common/url.cpp:74-135 | a parsed URL keeps the text as str(), and the text starts with scheme "://" host and ends with the path, each within its grammar |
| Url.ParseCompose | sources/common/url.cpp:59-135 | printing a URL and parsing the text gives the URL back when the parts are printable |
| Url.SettersReparse | sources/common/url.cpp:20-72 | after any setter the text parses back to the new parts |
| Url.ParseDefaultPort | sources/common/url.cpp:110-123 | with no explicit port the scheme's default (80, 443, 3306, 21) is used, and an unknown scheme is refused |
| Url.LeadingZeroPortRejected | sources/common/url.cpp:100-109 | a port starting with 0 is refused |
| Url.ZeroPortUrlRejected | sources/common/url.cpp:100-109 | a URL with such a port does not parse |
| Packet.Lines | sources/common/packet.cpp:15-20 | every token is a non-empty run free of CR and LF |
| Packet.MatchLineLeast | sources/common/packet.cpp:21-24 | a line matches exactly when it has a split point; the lazy name stops at the first |
| Packet.WordMatchAgrees | sources/common/packet.cpp:67-70 | where the \w pattern matches, the general one matches the same way |
| Packet.OpDigestLineIgnoredByWordPattern | sources/common/packet.cpp:67 | the buffer constructor drops an Op-Digest line the parser keeps |
| Packet.LaterLineWins | sources/common/packet.cpp:15-27 | the last line naming a key decides its value |
| Packet.Parse | sources/common/packet.cpp:13-53 | the stored names are the old ones plus those of the matching lines, other values kept; valid exactly when PV, Op, Time and Thread are present and check/report/whitelist carry a 40-hex-digit Op-Digest |
| Packet.FromBuffer | sources/common/packet.cpp:59-73 | the stored names are exactly those of lines matching the \w pattern; nothing is checked |
| Packet.Get | sources/common/packet.cpp:95-98 | a missing name is inserted with an empty value |
| Packet.SetRemove | sources/common/packet.cpp:100-111 | setting then removing an absent name gives the packet back |
| Packet.Archive | sources/common/packet.cpp:75-88 | the buffer holds the text up to its first NUL, padded with NULs, and the full text length is returned |
| Packet.ArchiveAscending | sources/common/packet.cpp:79-84 | the archive lists the names in ascending order |
| Packet.ParseArchive | sources/common/packet.cpp:13-88 | parsing an archive of well-formed attributes gives the packet back, valid by the rule |
| Http.ExtensionToType | sources/common/httpd.cpp:28-37 | the table's type for gif, htm, html, jpg and png, and text/plain for anything else |
| Http.MappingsAgree | sources/common/httpd.cpp:16-37 | the table scan and the map agree on every extension |
| Http.GetHeader | sources/common/httpd.cpp:308-317 | the value of the first header of that name, and an error when there is none |
| Http.HasHeader | sources/common/httpd.cpp:298-306 | true exactly when some header has the name |
| Http.Consume | sources/common/httpd.cpp:473-740 | one character keeps the parser within its grammar, and a deciding character changes nothing |
| Http.Parse | sources/common/httpd.hpp:202-214 | the parser stays within its grammar; an undecided read uses all the input, a decided one at least one character |
| Http.ConsumeDecides | sources/common/httpd.cpp:473-740 | true exactly on the LF after the empty line's CR; uri_start is never entered; a continuation is accepted only once a header exists; the header colon needs exactly one space |
| Http.ParseKeepsGood | sources/common/httpd.cpp:473-769 | whatever is read, the method, URI, version and headers stay within the grammar |
| Http.DecisionIgnoresRest | sources/common/httpd.hpp:202-214 | once a character decides, nothing after it is looked at |
| Http.ResumeAcrossReads | sources/common/httpd.hpp:202-214 | a request split across reads parses as if it came whole |
| Http.DecidedByLastUsed | sources/common/httpd.hpp:206-211 | the used count points just past the deciding character |
| Http.ParseRender | sources/common/httpd.cpp:473-740 | a rendered request parses back to itself, answering true on the final LF |
| Http.EmptyUriAccepted | sources/common/httpd.cpp:488-528 | "GET" with an empty URI is a complete request, since uri_start is never entered |
| Http.ContinuationAppends | sources/common/httpd.cpp:643-684 | a line starting with a space or tab continues the last header's value |
| Http.CodeInjective | sources/common/httpd.hpp:41-58 | each reply status has its own code |
| Http.StatusLineCode | sources/common/httpd.cpp:41-117 | a client reads the code back from columns 9 to 11 of the status line |
| Http.StockContent | sources/common/httpd.cpp:143-264 | the content is empty exactly for 200 |
| Http.StockReplyLength | sources/common/httpd.cpp:283-295 | a stock reply's Content-Length reads back as its content's length |
| Http.SetHeaderReads | sources/common/httpd.cpp:267-281 | after set_header the name reads as the value and every other name as before |
| Http.NewResponse | sources/common/httpd.cpp:320-325 | a new response is 200, uncommitted and empty, with exactly the Content-Type (text/html) and Server headers |
| Http.ResponseHeaderAsWritten | sources/common/httpd.cpp:342-350 | as written: whatever the name, the Content-Type lookup's answer |
| Http.ResponseHeaderIgnoresName | sources/common/httpd.cpp:342-350 | as written, asking a fresh response for Server answers the content type |
| Http.ResponseHeaderReads | sources/common/httpd.cpp:337-340 | the corrected getter reads back the value set under the name |
| Http.Commit | sources/common/httpd.cpp:420-427 | commit succeeds once and throws afterwards |
| Http.Write | sources/common/httpd.cpp:411-418 | write appends to an uncommitted response and throws on a committed one |
| Http.Error | sources/common/httpd.cpp:377-397 | error sets the status and commits, throwing when committed |
| Http.Redirect | sources/common/httpd.cpp:399-409 | redirect sets 301 and Location and commits, keeping the content; it throws when committed |
| Http.AtMostOneCommit | sources/common/httpd.cpp:377-427 | a handler that runs without an exception commits at most once, ends committed exactly when it committed or started so, and appends what it wrote |
| Api.TokensOfJoin | sources/pyzor/pyzord-api.cpp:235-238 | '&'-joined non-empty tokens split back to the tokens |
| Api.SplitToken | sources/pyzor/pyzord-api.cpp:239-245 | a matched token is a non-empty [A-Za-z0-9-] name, '=', and a non-empty [A-Za-z0-9-] value |
| Api.SplitTokenOf | sources/pyzor/pyzord-api.cpp:239-242 | every name=value of class characters matches and splits at its '=' |
| Api.ParseQueryOfPairs | sources/pyzor/pyzord-api.cpp:233-249 | a query of name=value pairs parses to them, the last value of a name winning |
| Api.TokenWithoutValueFails | sources/pyzor/pyzord-api.cpp:241-245 | a token without '=' fails the whole query |
| Api.ToJsonFields | sources/pyzor/pyzord-api.cpp:34-45 | the code and message sit at fixed places in the unescaped JSON |
| Api.ErrorReply | sources/pyzor/pyzord-api.cpp:124-151 | status 200, text/plain, and Content-Length equal to the content size |
| Api.Validate | sources/pyzor/pyzord-api.cpp:80-98 | no error exactly when Action, Version and Hash are present and Version is 2007-11-26; the first missing parameter leads, a wrong version comes last |
| Api.HandleGet | sources/pyzor/pyzord-api.cpp:190-229 | status 200, text/plain, the record get reads (zeros when not found), and a correct Content-Length |
| Api.GetLeavesStatusUnassigned | sources/pyzor/pyzord-api.cpp:190-229 | as written, the get reply's status is never assigned |
| Api.GetUnknownHashIsZero | sources/pyzor/pyzord-api.cpp:192-195 | an unknown hash is answered with an all-zero record |
| Api.Handle | sources/pyzor/pyzord-api.cpp:64-120 | URIs not starting with /api? are declined and every other URI is handled: an unparsable query gets the stock 500, a failed validation the error reply |
| Api.HandleCalls | sources/pyzor/pyzord-api.cpp:100-188 | the database is called exactly for valid Report, Whitelist and Delete, with that hash and kind |
| Api.AnswersAreOk | sources/pyzor/pyzord-api.cpp:100-188 | every answer has a correct Content-Length; the status is unassigned exactly for a valid Get, otherwise it is 200 or the stock 500 |
| Api.Dispatch | sources/pyzor/pyzord-api.cpp:104-117 | Get goes to handle_get as written and leaves the status unassigned with the get body; Report, Whitelist and Delete call the database with the hash and kind and answer 200; any other action answers the InvalidAction error with 200 |
| Api.HandleGetAsWritten | sources/pyzor/pyzord-api.cpp:190-229 | the body is appended to the reply, the headers give a correct Content-Length and text/plain, and the status is left as it was |
| Api.EmptyQueryMissesAll | sources/pyzor/pyzord-api.cpp:82-92 | a query naming nothing reports the three missing parameters in order |
| Udp.ServerReceive | sources/common/server.cpp:91-204 | the state stays valid with the admin set unchanged; a reply goes out exactly for an error-free non-empty datagram; receiving continues exactly until shutdown |
| Udp.ServerReplyCode | sources/common/server.cpp:91-204 | 400 for a bad packet, 505 for another version, 401 for a non-admin admin op, 501 for an unknown op, else 200; Thread echoed and PV 2.0 |
| Udp.ServerRejectsWithoutCounting | sources/common/server.cpp:99-112 | a bad packet or a foreign version changes no counter |
| Udp.ServerShutdownNeedsAdmin | sources/common/server.cpp:115-121 | only an admin's accepted shutdown stops the receive loop |
| Udp.ServerCheckCounts | sources/common/server.cpp:136-155 | the stored counts for a found record that is not a stale single report; "0" otherwise. Staleness compares the record's age with three 28-day months, the age being unsigned 32-bit on ILP32 |
| Udp.ServerForwardsReports | sources/common/server.cpp:156-162 | a report is forwarded exactly when an accepted report arrives |
| Udp.ServerStatisticsReport | sources/common/server.cpp:122-133 | an admin gets every ring's average and total |
| Udp.AddAdminAuthorizes | sources/common/server.cpp:81-89 | adding an address admits it and keeps earlier ones |
| Udp.PyzordReplyCode | sources/bohuno/bohuno-pyzord.cpp:353-435 | the same decision, with report and whitelist answered 501 and admins only on 127.0.0.1 |
| Udp.PyzordCheckCounts | sources/bohuno/bohuno-pyzord.cpp:399-404 | the stored counts whatever the lookup answered, and a hit exactly when the lookup as written found the record |
| Udp.ReportedOnlyCheckIsNoHit | sources/bohuno/bohuno-pyzord.cpp:400-402 | a check of a record with reports and no whitelists answers its count but adds no hit |
| Udp.PyzordOp | sources/bohuno/bohuno-pyzord.cpp:376-411 | the operation handler keeps the daemon's state valid and sets no reply header it does not own |
| Udp.PyzordReceive | sources/bohuno/bohuno-pyzord.cpp:353-435 | the state stays valid; a reply goes out exactly for an error-free non-empty datagram; receiving continues exactly until shutdown |
| Udp.FutureRecordStaleOnlyOnIlp32 | sources/common/server.cpp:147 | a one-report record entered less than 2^32 - 3 months seconds after the clock reading is stale on ILP32 and never on LP64 |
| Udp.StaleRecordAnswersDiffer | sources/bohuno/bohuno-pyzord.cpp:399-404 | a stale single-report record is a miss for the server but reported by the client |
| Udp.OutsidersCannotStopServer | sources/common/server.cpp:197-203 | senders outside the admin set never stop the receive loop |
| Udp.RunKeepsTally | sources/common/server.cpp:113-165 | the counters stay consistent over any run |
| Statistics.New | sources/common/statistics.cpp:8-12 | the given number of empty buckets, the first current and stamped now |
| Statistics.Advance | sources/common/statistics.cpp:36-50 | the ring stays valid, keeps its size and leaves the total unchanged |
| Statistics.AdvanceMoves | sources/common/statistics.cpp:36-50 | the current bucket moves one place per second, wrapping, and is empty and stamped now |
| Statistics.TicksFromEmpties | sources/common/statistics.cpp:41-48 | the buckets passed over are emptied and the others keep their counts |
| Statistics.WindowPassedEmptiesAll | sources/common/statistics.cpp:36-50 | a gap of a whole window empties every bucket |
| Statistics.AdvanceLoop | sources/common/statistics.cpp:41-48 | the iterator loop as written computes the same ring |
| Statistics.Report | sources/common/statistics.cpp:14-19 | the total and the advanced current bucket each go up by one |
| Statistics.ReportKeepsSound | sources/common/statistics.cpp:14-50 | the buckets never hold more than the total |
| Statistics.TotalCountsReports | sources/common/statistics.cpp:31-34 | the total counts every report |
| Statistics.Average | sources/common/statistics.cpp:21-29 | the floor of the advanced buckets' sum over their number |
| Statistics.AverageBounded | sources/common/statistics.cpp:21-29 | the average never exceeds the total divided by the window |
| Statistics.AverageLoop | sources/common/statistics.cpp:21-29 | the summing loop gives the floor of the buckets' sum over their number |
| Relay.WriteUpdate | sources/common/slave.cpp:378-391 | append, and start a write only when connected and the queue was empty |
| Relay.WriteDone | sources/common/database.cpp:452-474 | success pops exactly the front and sends the next if connected; failure keeps the queue and disconnects |
| Relay.ConnectDone | sources/common/slave.cpp:349-376 | a connect marks connected and sends the front if there is one; a failed one keeps the queue, and only the local database keeps its connected flag |
| Relay.PingLostStaysUp | sources/common/database.cpp:417-437 | after a lost ping the relay still reports itself up |
| Relay.PingLostThenWriteToClosedSocket | sources/common/database.cpp:417-450 | the next update is then written to the closed socket |
| Relay.Apply | sources/common/slave.cpp:341-421 | a post appends its update to the queue, a successful write removes the front, nothing else changes the queue; only a post, a successful write or a successful connect sends |
| Relay.ApplyKeepsWriting | sources/common/slave.cpp:341-421 | every possible event keeps the invariant that a write is outstanding only while the queue is non-empty |
| Relay.FifoNoneDropped | sources/common/slave.cpp:393-421 | confirmed updates followed by the queue are the initial queue followed by every posted update: none lost, duplicated or reordered |
| Relay.SendsOnlyTheFront | sources/common/database.cpp:439-474 | every write started is of the queue's front |
| Relay.RequestCarriesSignature | sources/common/database.cpp:109-125 | a hash written as 40 characters reaches the end of the queue as the signature it spells |
| Relay.ForwardAfterSend | sources/common/slave.cpp:47-70 | updates a session receives are queued exactly as sent |
| Downloads.Highest | sources/bohuno/bohuno-pyzord.cpp:268-275 | the update time of the last index entry, or 0 for an empty store |
| Downloads.Enqueue | sources/bohuno/bohuno-pyzord.cpp:276-300 | the old queue stays as the prefix, and the loop throws exactly when some listed name's min fails the cast |
| Downloads.EnqueueDistinct | sources/bohuno/bohuno-pyzord.cpp:291-300 | the queue never holds a URL twice |
| Downloads.EnqueueSelects | sources/bohuno/bohuno-pyzord.cpp:276-300 | after a scan the queue is the old one plus the listed URLs with min >= highest |
| Downloads.Start | sources/bohuno/bohuno-pyzord.cpp:184-198 | fetch the front unless shutting down or the queue is empty |
| Downloads.DownloadFailed | sources/bohuno/bohuno-pyzord.cpp:200-208 | the front stays and is fetched again unless shutting down |
| Downloads.DownloadDone | sources/bohuno/bohuno-pyzord.cpp:210-241 | corrected: 401 stops without popping; any other status pops the front; the data is imported exactly on 200; a fetch is of the new front |
| Downloads.DownloadDoneAsWritten | sources/bohuno/bohuno-pyzord.cpp:210-241 | as written, the handler keeps the downloader consistent |
| Downloads.DownloadDoneAsWrittenStalls | sources/bohuno/bohuno-pyzord.cpp:226-239 | as written, a 404 leaves the rest of the queue waiting for good |
| Downloads.ScanDone | sources/bohuno/bohuno-pyzord.cpp:255-313 | stops exactly on 401; reschedules exactly on 2xx; the queue only grows at its end; a download starts only when the queue was empty before |
| Downloads.ScanDoneKeepsLive | sources/bohuno/bohuno-pyzord.cpp:264-309 | a scan that does not throw keeps the downloader live: something is downloading whenever the queue is non-empty and the daemon is up |
| Downloads.ScanFailed | sources/bohuno/bohuno-pyzord.cpp:249-253 | a failed listing download only reschedules the scan, in 300 s |
| Downloads.Apply | sources/bohuno/bohuno-pyzord.cpp:184-313 | corrected: DownloadDone in place of handle_update_download_success. Data is imported exactly for a 200 download; only a scan can throw; only a scan reschedules a scan; apart from scans, shutdown is set only by a stop or a 401 download |
| Downloads.Run | sources/bohuno/bohuno-pyzord.cpp:184-313 | corrected: DownloadDone in place of handle_update_download_success. Every possible sequence of completions keeps the downloader consistent |
| Downloads.RunKeepsLive | sources/bohuno/bohuno-pyzord.cpp:184-313 | corrected: DownloadDone in place of handle_update_download_success. Over any run, failed scans included, the queue has no duplicates and is never idle while the daemon is up |
| Downloads.ApplyAsWritten | sources/bohuno/bohuno-pyzord.cpp:184-313 | as written: the same as Apply for every event but a download completing with a status other than 200 or 401; a completed download fetches a next one exactly on 200 with more queued and no shutdown |
| Downloads.RunAsWritten | sources/bohuno/bohuno-pyzord.cpp:184-313 | as written, every possible sequence of completions keeps the downloader consistent |
| Downloads.RunAsWrittenAgrees | sources/bohuno/bohuno-pyzord.cpp:210-241 | the run as written and the corrected run are equal when every download completes with 200 or 401 |
| Downloads.RunAsWrittenStalls | sources/bohuno/bohuno-pyzord.cpp:226-239 | from a live two-update queue, one 404 leaves the run as written idle with an update waiting; the corrected run stays live |
| DevScripts.OutputHeader | development/generate-data.py:5-6 | four bytes reading back as the version |
| DevScripts.OutputRecordV1 | development/generate-data.py:8-10 | a 44-byte record the v1 reader decodes to its arguments |
| DevScripts.OutputRecordV2 | development/generate-data.py:12-14 | a 52-byte record the v2 reader decodes to its arguments |
| DevScripts.GenerateData | development/generate-data.py:29-32 | raises exactly when some draw reaches back before 1970 (now < 86400 * days); otherwise 52 bytes per draw |
| DevScripts.GeneratedRecords | development/generate-data.py:29-32 | record i holds draw i's signature, entered = updated = report times = t, count 1-5, no whitelist |
| DevScripts.ImportOfGeneratedData | development/generate-data.py:22 | without a header the importer eats four bytes as the version and misreads every record |
| DevScripts.HeaderedGeneratedDataImports | development/generate-data.py:22-32 | with the header call restored, every record is imported |
| DevScripts.RecordLines | development/dump-snapshot.py:12-17 | with end of file recognised, a whole number of records lists and finishes |
| DevScripts.SameLines | development/dump-export.py:7-12 | both loops print the same lines and differ only in how they end |
| DevScripts.Snapshot | development/dump-snapshot.py:5-17 | a header naming a version other than 2 is refused with only the message; otherwise one line per record |
| DevScripts.SnapshotOfDump | development/dump-snapshot.py:5-17 | a version 2 dump lists every record in order |
| DevScripts.SnapshotAsWritten | development/dump-snapshot.py:5-17 | as written, the listing never finishes normally |
| DevScripts.SnapshotAsWrittenFailsOnDump | development/dump-snapshot.py:12-16 | as written, the listing ends with an unpack error |
| DevScripts.SnapshotRefusesOtherVersions | development/dump-snapshot.py:7-10 | another version is refused without listing |
| DevScripts.SnapshotLineParses | development/dump-snapshot.py:17 | the line splits into the hex signature and three numbers that parse back |
| DevScripts.ExportOfEntries | development/dump-export.py:5-12 | each printed signature parses back with the daemons' decoder |
| DevScripts.ExportAsWritten | development/dump-export.py:5-12 | as written, the listing always ends with an unpack error |
| DevScripts.ExportAsWrittenFailsOnEntries | development/dump-export.py:7-11 | as written, the listing ends with an unpack error |
| DevScripts.OpCodeNames | development/send-update.py:13 | the operation table agrees with update.hpp's codes both ways |
| DevScripts.HexDecode | development/send-update.py:22-23 | hex decoding succeeds exactly for an even number of hex digits |
| DevScripts.HexDecodePrinted | development/send-update.py:22-23 | decoding what the daemons print gives the bytes back |
| DevScripts.HexArgumentAgrees | development/send-update.py:22-28 | a 40-digit argument names the same signature as the daemons' parser |
| DevScripts.GenerateUpdateAsWritten | development/send-update.py:12-14 | native packing: 40 bytes on LP64 hosts, 28 elsewhere |
| DevScripts.LP64UpdateArrivesAsErase | development/send-update.py:14 | on LP64 the master reads one update, as an erase |
| DevScripts.ILP32LittleEndianSwapsFields | development/send-update.py:14 | on little-endian ILP32 type and time arrive byte-swapped, so report and whitelist are ignored |
| DevScripts.ILP32BigEndianAgrees | development/send-update.py:14 | only on big-endian ILP32 does the packing match update.hpp |
| DevScripts.GenerateUpdateDelivers | development/send-update.py:12-14 | network-order packing is read as the intended update on every host |
| DevScripts.SendUpdateAsWritten | development/send-update.py:16-28 | the update bytes are sent over the stream socket exactly for a known operation and a usable signature argument |
| DevScripts.SendUpdateDelivers | development/send-update.py:16-28 | sending an operation on a 40-digit signature delivers one update of that type, signature and time |

## Left out

- Berkeley DB itself is not modelled: environments, transactions, replication, checkpoints and cursors. The primary database is a map and the secondary index is the `IsIndexOf` order.
- A database error other than "not found" is a boolean parameter where the logic branches on it.
- gzip compression is treated as the identity.
- asio sockets, timers and callbacks are not modelled. Completions are inputs and started operations are outputs.
- The UDP datagram buffer is not modelled: its 8192-byte size, and archives longer than it, are left out.
- The httpd connection, connection manager and reply serialisation are left out, `to_buffers` included. Its default status branch writes the 500 status line; a Get reply, whose status handle_get never assigns, can reach it.
- `run_in_thread`, daemon.cpp, syslog, md5_filter.hpp, wget and the `main` functions are OS plumbing and are left out.
- The clock (`time(NULL)`), random digests and generate-data's random draws are parameters.
- The filesystem is a list of names plus a `present` set; renames, hard links and the expire status file are values.
- boost::regex is not modelled. Each pattern is an explicit predicate. The update-listing regex is `IsUpdateUrl`.
- Floating point is left out: timers and rates.
- Statistics counters do not wrap at 2^64.
- Non-ASCII characters are left out: the base64 decoder indexes its table with a possibly negative char, so only ASCII text is modelled (`Ascii`).
- Store.Expire: the `le` parameter carries the `htonl(updated_from)` cursor key; other effects of host order on the cursor are not modelled.
- Http: atoi overflow and the C `int` overflow of the HTTP version numbers are not modelled. The numbers are unbounded.
- Http.ParseKeepsGood states the grammar of what is stored, not the full RFC 1945 request grammar.
- Url.ParsePort: the port is reduced mod 2^16 as `port_` is `uint16_t`. atoi overflow beyond `int` is not modelled.
- Arcfour: the RFC 6229 test vectors are not stated as lemmas. Evaluating 256 key-schedule rounds symbolically is beyond what the verifier does cheaply.
- Relay: the source assumes at most one outstanding asynchronous write. The model takes that as its invariant, and `Relay.ApplyKeepsWriting` proves that the handlers keep it.
- Downloads.Stop: `stop()` posts `handle_stop`; the model applies it at once.
- Statistics.AdvanceMoves: states the position within one turn of the ring only. Longer gaps are covered by `WindowPassedEmptiesAll`.
- Udp: the whitelist database call is compiled out (`PYZOR_WHITELIST_ENABLED`), so whitelist is only counted.
- Udp: the replica's database is a store parameter per receipt.
- Publisher.Tick: a `lexical_cast` overflow throws out of the handler and is modelled as `Crashed`, with no next tick. Snapshots and updates removed before the throw stay removed, but `Crashed` does not list them. The exception also escapes `io_service::run()` and ends the worker thread, which is not modelled.
- Options: getopt's argument scanning is given as a sequence of flags. The database directory's existence is checked by the database constructors, which are not modelled.
- Options: pyzord-import's usage line names pyzord-export. This is cosmetic.
- DevScripts: the socket connection and send are not modelled; the bytes sent are.
- blah.cpp is an uncompiled draft and is not part of this model.
- packages/debian-etch/package.py is packaging only and is not part of this model.
- bohuno-pyzord-setup.cpp and its download progress are not part of this model.

## Findings

| source | as written | input that shows it | evidently intended | confidence | as-written member | corrected member |
|---|---|---|---|---|---|---|
| sources/common/database.cpp:198-200 | the cursor is positioned at the first entry not older than `min`, then advanced before the first write | one record updated exactly at `min`: the dump is empty | every record with min <= updated <= max is written | high; not executed | Store.DumpModifiedRecords2SkipsFirst | Store.DumpModifiedRecords2 |
| sources/common/base64.cpp:43 | `i < string.length() - 2` in `size_t` | a one-byte or empty input: the bound wraps and the first group reads past the string | standard base64 of every input, "" for empty | high; not executed | Base64.EncodeAsWrittenUndefinedOnShortInput | Base64.DecodeEncode |
| sources/bohuno/bohuno-database.cpp:178 | found only when report and whitelist counts are both non-zero | a record with 3 reports and no whitelists: not found | found unless both counts are zero, as database::get | high; not executed | Store.LookupAsWrittenMissesReported | Store.LookupAgreesWithGet |
| sources/common/update.cpp:65-69 | `u.type()` (already host order) is passed to the printer, which applies ntohl again | a report update on a little-endian host prints an empty type name | the type's name printed | high; not executed | Updates.ShowLosesKindOnLittleEndian | Updates.ShowIntendedNamesKind |
| sources/common/httpd.cpp:342-350 | `response::header(name)` looks up Content-Type whatever the name | a fresh response asked for Server answers text/html | the value stored under the name | high; not executed | Http.ResponseHeaderIgnoresName | Http.ResponseHeaderReads |
| sources/pyzor/pyzord-api.cpp:190-229 | `handle_get` never assigns the reply status | any valid Get request | status 200, as every other API reply | medium; not executed | Api.GetLeavesStatusUnassigned | Api.HandleGet |
| sources/bohuno/bohuno-pyzord.cpp:226-239 | a download status other than 200 or 401 pops the front but starts no next download | a queue of two updates whose first is answered 404 | the next update is fetched | medium; not executed | Downloads.DownloadDoneAsWrittenStalls | Downloads.RunKeepsLive |
| development/send-update.py:14 | `'20sLL'` packs in native size and byte order | any report on an LP64 host: 40 bytes, read as an erase | the 28-byte network-order layout of update.hpp, `'!20sLL'` | high; not executed | DevScripts.LP64UpdateArrivesAsErase | DevScripts.SendUpdateDelivers |
| development/dump-snapshot.py:12-16 | the loop ends on `data == None`, which `read` never returns | any version 2 dump: an unpack error after the last record | stop at end of file | high; not executed | DevScripts.SnapshotAsWrittenFailsOnDump | DevScripts.SnapshotOfDump |
| development/dump-export.py:7-11 | the same `data == None` test | any record file: an unpack error after the last record | stop at end of file | high; not executed | DevScripts.ExportAsWrittenFailsOnEntries | DevScripts.ExportOfEntries |
