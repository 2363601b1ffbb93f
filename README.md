# objmapper core in Dafny

objmapper is a local object server. Clients connect over a Unix socket,
name objects by URI, and get back open file descriptors. The server stores
objects in files on one or more storage backends (a memory cache and a
persistent SSD directory), indexes them in hash tables, and describes
alternative encodings of an object with a payload descriptor.

This project models the logic of that system that can be stated without
sockets, threads or the filesystem, and proves what the code promises
about it. Each source file of the core has its own module:

| module (file) | what it models |
|---|---|
| `PayloadSchema` (payload_schema.dfy) | the payload descriptor, its `init`/`copy` constructors and the fail-fast validator `objm_payload_descriptor_validate`, with the diagnostic it writes (lib/backend/metadata_schema.c) |
| `CStrings` (cstrings.dfy) | the `snprintf` into a caller's buffer used for diagnostics, as a bounded NUL-terminated write |
| `PayloadWire` (payload_wire.dfy) | the 592-byte little-endian descriptor encoding and decoding over arrays (include/objmapper/metadata.h) |
| `Protocol`, `ProtocolMetadata`, `ProtocolClient` | objm framing: V1/V2 request and response headers, the HELLO negotiation, the TLV metadata builder/parser, the name tables, `objm_capability_names`, and the client's pending-response stash (lib/protocol/protocol.c) |
| `IndexHash`, `IndexTables`, `IndexFile`, `IndexBackend` | FNV-1a, power-of-two rounding, the global index (duplicate-free chains, lookup statistics, entry refcounts), the per-backend index (prepend chains, dirty flag) and its OBJIDX save/load file format (lib/index/index.c) |
| `Storage` (storage.dfy) | the object-storage slot table: djb2 chains, lowest-free-slot allocation, hits and the mmap cache budget (lib/storage/storage.c) |
| `Backend` (backend.dfy) | the backend manager: registration, roles, placement of new objects, migration checks, size and object accounting (lib/backend/backend.c) |
| `Dispatch` (server_dispatch.dfy) | the server's URI routing and the replies of `handle_get`/`put`/`delete`/`list`, plus `init_backends` (server.c) |
| `Datapass` (datapass.dfy) | `strtohash` and the open-addressing table of the datapass server (datapass/csrc/server.c) |
| `Bytes`, `Bits`, `Wrappers` | byte and integer helpers, unbounded-integer models of the 64-bit bit operations, `Option`/`Result` |

Mutable C objects are classes whose fields the methods reassign (for
example `IndexTables.GlobalIndex`, `Storage.ObjectStorage`,
`Backend.Manager`, `Datapass.Storage`); fixed buffers are arrays; the
pure parts are functions with lemmas about them. Socket reads and writes,
file opens and clocks are parameters: a method receives the bytes a peer
sent, whether an `open` succeeded, the fd it returned, or the current time.

The validator and the wire format, as the code has them:

- for identity encoding the validator requires `storage_length >= logical_length`
  (lib/backend/metadata_schema.c:63-71);
- a `variant_count` of 0 is rejected (lib/backend/metadata_schema.c:123-126);
- `objm_payload_descriptor_validate` (lib/backend/metadata_schema.c:107-155)
  never reads `manifest_flags` and never compares variant ids with each other;
- the descriptor wire size is 16 + 8·72 = 592 bytes
  (include/objmapper/metadata.h:66-71);
- `object_metadata_t` in lib/backend/backend.h:132-141 has no `payload` or
  `has_payload` field, while lib/backend/backend.c:568-569 writes both; the model
  has them.

## Model

| member | source | states |
|---|---|---|
| CStrings.FormattedReadBack | lib/backend/metadata_schema.c:12-20 | after the message is written into a buffer of `len > 0` characters, reading the buffer back as a C string yields the message, cut to `len - 1` characters when it does not fit, and nothing past `len` is touched |
| CStrings.Snprintf | lib/backend/metadata_schema.c:18 | writes the bounded, NUL-terminated image of the message into the `len` characters at `at`, returns the untruncated message length, leaves the rest of the buffer as it was |
| PayloadSchema.Init | lib/backend/metadata_schema.c:22-28 | a non-null descriptor becomes the all-zero descriptor with version 1; a null one is ignored |
| PayloadSchema.Copy | lib/backend/metadata_schema.c:30-36 | with both arguments non-NULL the destination takes the source's value; otherwise nothing changes |
| PayloadSchema.VariantFaultOfIsAcceptable | lib/backend/metadata_schema.c:48-98 | a variant passes the per-variant checks exactly when its id is non-empty, both lengths are non-zero, an identity variant has storage length ≥ logical length, the encoding is 0, 1, 2, 3 or 255, CAP_IDENTITY comes only with identity encoding, CAP_GZIP only with gzip, and RANGE_READY only with a non-zero granularity; no other capability bit and not the primary flag matters |
| PayloadSchema.IdentityAndGzipExclusive | lib/backend/metadata_schema.c:82-92 | a variant advertising both identity and gzip is always rejected |
| PayloadSchema.FirstVariantFaultNone | lib/backend/metadata_schema.c:136-142 | the variant scan reports nothing exactly when every variant from the start index passes |
| PayloadSchema.FirstVariantFaultIs | lib/backend/metadata_schema.c:136-142 | the scan reports variant `i` with fault `f` exactly when `i` is the first failing variant and `f` is its fault |
| PayloadSchema.PrimaryCountZero | lib/backend/metadata_schema.c:144-147 | the primary count is zero exactly when no variant is flagged primary |
| PayloadSchema.PrimaryCountOne | lib/backend/metadata_schema.c:144-152 | the primary count is one exactly when a single variant is flagged primary |
| PayloadSchema.CheckAccepts | lib/backend/metadata_schema.c:107-155 | a descriptor is accepted exactly when it has version 1, 1 to 8 variants in use, every variant in use acceptable and exactly one of them primary |
| PayloadSchema.CheckReportsFirstBadVariant | lib/backend/metadata_schema.c:136-142 | for a descriptor that passes the header checks, the reported fault is the first failing variant's, both directions |
| PayloadSchema.CheckPrimaryRule | lib/backend/metadata_schema.c:144-152 | with all variants acceptable, "no primary" is reported exactly when none is primary, acceptance means exactly one primary, and any other fault is "multiple primaries" with the true count above one |
| PayloadSchema.CheckIgnoresOtherFields | lib/backend/metadata_schema.c:107-155 | validation depends only on the version, the count and the checked fields of the variants in use: slots past the count and reserved bytes do not matter |
| PayloadSchema.RangeReadyMessage | lib/backend/metadata_schema.c:94-98 | the missing-granularity message mentions "range-ready" |
| PayloadSchema.NoPrimaryMessage | lib/backend/metadata_schema.c:144-147 | the no-primary message mentions "no primary" |
| PayloadSchema.SetError | lib/backend/metadata_schema.c:12-20 | a present buffer receives the bounded formatted message (nothing when `len` is 0) |
| PayloadSchema.ValidateVariant | lib/backend/metadata_schema.c:38-105 | returns 0 exactly when the variant is acceptable, bumps the primary count only then, and otherwise writes that variant's message into the error buffer |
| PayloadSchema.Validate | lib/backend/metadata_schema.c:107-155 | returns 0 exactly when the descriptor is present and acceptable; on -1 the buffer holds the message of the first fault in the source's order, otherwise it is unchanged |
| PayloadSchema.ScanVariants | lib/backend/metadata_schema.c:136-142 | the loop returns 0 exactly when no variant fails, then with the true primary count; otherwise the buffer holds the first failing variant's message |
| PayloadSchema.IdentityPlusGzipAccepted | tests/test_metadata_schema.py:98-120 | the test's descriptor is accepted: HAS_VARIANTS, a primary "identity" variant with IDENTITY and ZERO_COPY at 1024/1024, and a "gzip" variant with GZIP and ZERO_COPY at 1024/768 |
| PayloadSchema.SingleNonPrimaryRejected | tests/test_metadata_schema.py:123-138 | the test's single "identity" variant (IDENTITY, 512/512), not flagged primary, is rejected with a message naming "no primary" |
| PayloadSchema.RangeReadyWithoutGranularityRejected | tests/test_metadata_schema.py:141-157 | the test's primary "range" variant (IDENTITY and RANGE_READY, 2048/2048) with granularity 0 is rejected with a message naming "range-ready" |
| PayloadWire.Encode | include/objmapper/metadata.h:84-149 | returns -1 exactly for a null descriptor or buffer, a buffer shorter than the wire size or more than 8 variants, and then leaves the buffer alone; on 0 the first 592 bytes are the descriptor's image and the rest is unchanged |
| PayloadWire.ImageLayout | include/objmapper/metadata.h:95-146 | the image holds the four little-endian header words at 0..16 and each variant's id, capability, encoding, lengths, granularity, primary flag and reserved bytes at fixed offsets of its 72-byte slot |
| PayloadWire.Decode | include/objmapper/metadata.h:151-217 | returns -1 and leaves the descriptor alone for null or short input; a count above 8 returns -1 with only version and count filled in over a reset descriptor; otherwise 0 with every field read back |
| PayloadWire.DecodedIdsTerminated | include/objmapper/metadata.h:187-188 | every decoded variant id ends in NUL whatever the input bytes |
| PayloadWire.DecodeEncodeVariant | include/objmapper/metadata.h:120-145 | decoding an encoded slot gives back the variant when its id is terminated |
| PayloadWire.DecodeImage | include/objmapper/metadata.h:84-217 | decoding the image of a descriptor with at most 8 variants and terminated ids gives back that descriptor |
| PayloadWire.InitialImage | include/objmapper/metadata.h:95-115 | the image of an initialised descriptor is the byte 1 followed by zeros |
| Protocol.V2RequestRoundTrip | lib/protocol/protocol.c:237-243 | the 9-byte V2 request header the client builds is read back by the server with the same id, flags, mode and URI length whenever the length is at most 4096 |
| Protocol.V2RequestUriTooLong | lib/protocol/protocol.c:540-546 | a V2 request declaring a URI longer than 4096 bytes is refused with -1 |
| Protocol.V2RequestCodes | lib/protocol/protocol.c:518-546 | the server's receive returns 1 exactly for a CLOSE byte, -1 for any other type that is not REQUEST, and 0 exactly for a REQUEST within the URI limit |
| Protocol.V1RequestRoundTrip | lib/protocol/protocol.c:225-235 | the 3-byte V1 request header is read back with its mode and URI length, id and flags 0 |
| Protocol.V2ResponseRoundTrip | lib/protocol/protocol.c:594-600 | the 16-byte V2 response header the server writes is read back by the client with the same id, status, content length and metadata length |
| Protocol.V1ResponseRoundTrip | lib/protocol/protocol.c:569-574 | the 11-byte V1 response header is read back with its status and lengths |
| Protocol.FdExpectationAgrees | lib/protocol/protocol.c:311-320 | the client waits for a descriptor exactly when the server sends one, unless a successful reply has a descriptor and content length disagreeing |
| Protocol.ErrorMetadata | lib/protocol/protocol.c:623-645 | an error message of at most 65535 bytes becomes one TLV entry: type 0xFF, its big-endian 16-bit length, then the message; a longer one is refused by `objm_metadata_add` (lines 721-730) and no metadata is sent |
| Protocol.CloseAckAccepted | lib/protocol/protocol.c:649-660 | the 6-byte CLOSE_ACK the server sends passes the client's check |
| Protocol.CloseNeverReadAsWritten | lib/protocol/protocol.c:365-366 | the server as written waits for 9 bytes, so the 2-byte CLOSE message alone is never read |
| Protocol.ServerReadsClose | lib/protocol/protocol.c:525-529 | the corrected server read recognises a CLOSE message from its first 2 bytes |
| Protocol.ServerReadKeepsRequests | lib/protocol/protocol.c:518-546 | on REQUEST headers the corrected read and the read as written agree and return the sent header |
| Protocol.NegotiateV2 | lib/protocol/protocol.c:425-464 | a well-formed HELLO is answered with a HELLO_ACK whose capabilities are the intersection and whose pipeline depth is the minimum of both sides, with the server's parallelism |
| Protocol.NegotiateV1 | lib/protocol/protocol.c:465-472 | a first byte other than 'O' selects V1 with no capabilities, pipeline 1 and parallelism 1 |
| Protocol.ClientReadsNegotiated | lib/protocol/protocol.c:188-203 | the client reads back from the HELLO_ACK exactly the parameters the server negotiated |
| Protocol.NegotiatedWithinBoth | lib/protocol/protocol.c:446-448 | negotiated capabilities are a subset of each side's and the pipeline depth is no larger than either side's |
| Protocol.StatusNames | lib/protocol/protocol.c:807-825 | exactly the unknown status codes are named "UNKNOWN", and distinct known codes have distinct names |
| Protocol.ModeNames | lib/protocol/protocol.c:827-834 | only FD_PASS, COPY and SPLICE have names; the segmented mode is "UNKNOWN" |
| Protocol.CapabilityTextIsJoin | lib/protocol/protocol.c:836-862 | the capability text is the names of the set low four flags, in flag order, joined by '\|'; other bits are ignored |
| Protocol.CapabilityTextExamples | lib/protocol/protocol.c:836-862 | OOO replies plus pipelining reads "OOO_REPLIES\|PIPELINING" |
| Protocol.CapabilityNamesOverrun | lib/protocol/protocol.c:841-847 | as written, with an 8-byte buffer the second snprintf starts at offset 11, past the buffer, with a size that wraps to 2^64 - 3 |
| Protocol.CallsAsWrittenInBounds | lib/protocol/protocol.c:836-862 | as written, every snprintf call stays inside the buffer whenever the whole text fits |
| Protocol.CapabilityNames | lib/protocol/protocol.c:836-862 | the corrected routine returns the full text length and leaves the bounded, NUL-terminated text in the buffer |
| ProtocolMetadata.ParseOfBuilt | lib/protocol/protocol.c:721-783 | parsing a buffer built with `objm_metadata_add` gives back the entries in order |
| ProtocolMetadata.TrailingPartialIgnored | lib/protocol/protocol.c:753-758 | a trailing entry cut short is dropped and the complete entries before it are kept |
| ProtocolMetadata.Add | lib/protocol/protocol.c:721-730 | returns 0 for a null buffer or data over 65535 bytes; otherwise appends type, big-endian length and data and returns the new length, nothing else changes |
| ProtocolMetadata.FixedEntriesReadBack | lib/protocol/protocol.c:732-744 | size and mtime entries hold 8 big-endian bytes that read back as the value, a backend entry its one byte |
| ProtocolMetadata.AddSize | lib/protocol/protocol.c:732-735 | appends an 11-byte size entry |
| ProtocolMetadata.AddMtime | lib/protocol/protocol.c:737-740 | appends an 11-byte mtime entry |
| ProtocolMetadata.AddBackend | lib/protocol/protocol.c:742-744 | appends a 4-byte backend entry |
| ProtocolMetadata.Parse | lib/protocol/protocol.c:746-783 | -1 with no entries when an argument is missing, otherwise 0 with exactly the complete entries of the buffer |
| ProtocolMetadata.CountEntries | lib/protocol/protocol.c:750-758 | the counting loop counts the complete entries |
| ProtocolMetadata.CopyEntries | lib/protocol/protocol.c:764-778 | the copying loop reads out exactly those entries |
| ProtocolMetadata.Get | lib/protocol/protocol.c:785-793 | finds the first entry of the type, or none exactly when no entry has it |
| ProtocolClient.StashAllSlot | lib/protocol/protocol.c:351-357 | after stashing a run of responses each pending slot holds the last response with that id, or its old value |
| ProtocolClient.StashAllOutOfRange | lib/protocol/protocol.c:354-357 | responses whose ids are past the table are discarded and leave it unchanged |
| ProtocolClient.Connection.constructor | lib/protocol/protocol.c:205-213 | the pending table has the negotiated capacity and starts empty |
| ProtocolClient.Connection.RecvResponseFor | lib/protocol/protocol.c:326-359 | rejects a non-V2 connection; returns and clears a pending response for the id; otherwise reads until the first response with the id, stashing the ones before it, or fails when the input runs out |
| ProtocolClient.Connection.AwaitResponse | lib/protocol/protocol.c:339-358 | the loop stops at the first response with the id, or at the end, having stashed every response before it |
| IndexHash.HashString | lib/index/index.c:35-42 | the loop computes the 64-bit FNV-1a hash of the string up to its first NUL |
| IndexHash.FnvFromAppend | lib/index/index.c:37-40 | hashing a concatenation continues from the hash of its first part |
| IndexHash.NextPowerOf2 | lib/index/index.c:47-57 | the decrement, the six or-shifts and the increment compute the rounding function |
| IndexHash.RoundedUpIsLeastPowerOfTwo | lib/index/index.c:47-57 | for 1 ≤ n ≤ 2^63 the result is the least power of two not below n; for 0 and above 2^63 it wraps to 0 |
| IndexHash.BucketInRange | lib/index/index.c:320 | with a power-of-two bucket count, masking with count − 1 is the hash modulo the count and lies in range |
| IndexTables.IndexEntry.constructor | lib/index/index.c:63-90 | a new entry has the key, its FNV-1a hash, the backend location, no descriptor, zero counters and one reference |
| IndexTables.IndexEntry.Get | lib/index/index.c:92-96 | adds one reference and changes nothing else |
| IndexTables.IndexEntry.Put | lib/index/index.c:98-112 | drops one reference and reports whether it was the last |
| IndexTables.IndexEntry.RecordAccess | lib/index/index.c:158-163 | counts one access and stores the clock reading |
| IndexTables.IndexEntry.Relocate | lib/index/index.c:449-460 | drops the cached descriptor, bumping the generation only if one was open, and stores the new location |
| IndexTables.Release | lib/index/index.c:230-247 | gives back the descriptor count if the handle opened one and the entry reference, then clears the handle; an empty handle is left alone |
| IndexTables.FindIn | lib/index/index.c:325-358 | the chain walk finds the first entry with the same stored hash and key, or none exactly when no entry matches |
| IndexTables.Scan | lib/index/index.c:325-358 | the loop over one chain returns that first match |
| IndexTables.FindInUnique | lib/index/index.c:325-358 | any answer meeting the first-match contract is the chain walk's answer |
| IndexTables.TotalUpdate | lib/index/index.c:390 | replacing one chain changes the entry total by the change in that chain's length |
| IndexTables.GlobalIndex.constructor | lib/index/index.c:259-293 | the bucket count is the requested count rounded up to a power of two, all chains are empty and every counter is zero |
| IndexTables.GlobalIndex.Lookup | lib/index/index.c:314-362 | a miss counts a lookup and a miss and returns -1; a hit takes a reference, records the access, counts the opened descriptor and returns a handle with it; the table is unchanged |
| IndexTables.GlobalIndex.Insert | lib/index/index.c:364-394 | refuses a key already in its chain with -1 and changes nothing; otherwise puts the entry at the head of its chain and counts it, after which looking up its key finds it |
| IndexTables.GlobalIndex.Remove | lib/index/index.c:396-435 | a missing key gives -1 and no change; otherwise the entry is unlinked from its chain, its descriptor dropped, the counters decremented, and the key is no longer found |
| IndexTables.GlobalIndex.UpdateBackend | lib/index/index.c:437-465 | a missing key gives -1 after a counted miss; otherwise the entry gets the new location, its descriptor is dropped with a generation bump, and the lookup's reference is given back |
| IndexTables.PrependKeepsChainsValid | lib/index/index.c:383-388 | putting a new key at the head of its own chain keeps every entry in its bucket and keys distinct |
| IndexTables.UnlinkKeepsChainsValid | lib/index/index.c:409-411 | unlinking the matching node keeps placement and distinct keys, and the key is gone from the chain |
| IndexTables.WalkIgnoresOtherLinks | lib/index/index.h:78 | rewriting the link of a key that a chain walk never meets leaves that walk as it was |
| IndexTables.RelinkCutsChain | lib/index/index.c:555-558 | as written, pointing the one `next` link of the i-th entry of a chain at another chain cuts the first chain after that entry and continues it with the other (what `backend_index_insert` does to a migrated entry's global chain, lib/backend/backend.c:772) |
| IndexTables.InsertBothRoutesGlobalChain | lib/index/index.c:384-388 | as written, after `global_index_insert` and then `backend_index_insert` of a new entry (lib/backend/backend.c:381-390), the global chain of its bucket is that entry followed by its backend bucket's old chain, and the backend chain is the entry followed by the same |
| IndexTables.GlobalInsertKeepsChain | lib/index/index.c:384-388 | with a link of its own, a head insertion puts the entry in front of the bucket's old chain, which stays whole |
| IndexTables.SecondCreateHidesFirst | lib/backend/backend.c:381-390 | as written, two URIs whose FNV-1a hashes share one of the server's 8192 global buckets but not one of a backend index's 262144 buckets, created one after the other: the global chain held only the first, and afterwards holds only the second |
| IndexFile.HeaderRoundTrip | lib/index/index.c:680-692 | the 32-byte header written by save is accepted by load with the same backend id, entry count and bucket count |
| IndexFile.HeaderAccepted | lib/index/index.c:753-767 | any header load accepts is the one save would write for the values read from it |
| IndexFile.StringRoundTrip | lib/index/index.c:705-717 | a length-prefixed string is read back as written, leaving the rest of the file |
| IndexFile.MetaRoundTrip | lib/index/index.c:710-720 | size, mtime and flags are read back as written |
| IndexFile.RecordRoundTrip | lib/index/index.c:705-720 | one record is read back as written when its strings fit the 16-bit length fields |
| IndexFile.RecordsRoundTrip | lib/index/index.c:773-829 | reading as many records as were written gives them back in order |
| IndexFile.ImageRoundTrip | lib/index/index.c:670-835 | a file made of the header and the records parses back to those records |
| IndexFile.RejectsForeignFiles | lib/index/index.c:759-767 | a file without the "OBJIDX" magic or with a version other than 2 is refused |
| IndexBackend.EncodeChain | lib/index/index.c:704-723 | the loop over one chain writes that chain's records in chain order |
| IndexBackend.BackendIndex.constructor | lib/index/index.c:490-524 | the bucket count is the request rounded up to a power of two, all chains empty, clean, zero counters, persistence as given |
| IndexBackend.BackendIndex.Insert | lib/index/index.c:545-565 | with no duplicate check, the entry is prepended to its chain, takes a reference, the count rises and dirty is set; a lookup of its key then finds it first |
| IndexBackend.BackendIndex.Lookup | lib/index/index.c:567-586 | counts a lookup, and a hit only when it returns the first matching entry; returns null exactly on a miss; nothing else changes |
| IndexBackend.BackendIndex.Remove | lib/index/index.c:588-618 | a missing key gives -1 and no change; otherwise the first match is unlinked and loses a reference, the count drops and dirty is set |
| IndexBackend.BackendIndex.Serialize | lib/index/index.c:679-724 | the bytes written are the header followed by every chain's records, bucket by bucket |
| IndexBackend.BackendIndex.Save | lib/index/index.c:670-736 | without persistence or when opening, the header write or the rename fails, -1 and dirty unchanged; otherwise 0 and dirty cleared, and the file holds the image cut after however many record bytes were written, since the record writes' results are ignored |
| IndexBackend.BackendIndex.LoadRecord | lib/index/index.c:807-828 | one record becomes a fresh entry pushed on its chain, holding two references (creation and insertion) |
| IndexBackend.BackendIndex.Load | lib/index/index.c:738-835 | a missing or foreign file gives -1 and no change; otherwise every parsed record is inserted in file order, the count of records is returned and dirty is cleared |
| IndexBackend.BackendIndex.LoadRecords | lib/index/index.c:773-829 | the insertion loop pushes each record on its chain in order |
| IndexBackend.LoadIntoOneBucket | lib/index/index.c:556-558 | loading records of one bucket stacks them in reverse order on that chain |
| IndexBackend.ReloadReversesChains | lib/index/index.c:701-724 | loading a saved table into empty chains gives back every chain reversed |
| IndexBackend.SaveThenLoad | lib/index/index.c:670-835 | the saved image parses back to all records and reloading it restores every uri, path, size, mtime and flags, each chain in reverse order |
| Storage.Djb2StepIsShiftAdd | lib/storage/storage.c:68 | one hash step `(h << 5) + h + c` is h·33 plus the signed character, modulo 2^64 |
| Storage.Djb2Append | lib/storage/storage.c:67-69 | hashing a concatenation continues from the hash of its first part |
| Storage.HashUri | lib/storage/storage.c:62-72 | the loop computes djb2 from 5381 over the URI's characters read as signed chars |
| Storage.LookupExact | lib/storage/storage.c:75-95 | with the dictionary consistent, the chain walk finds slot i exactly when slot i is in use and holds the URI, and nothing exactly when no slot does |
| Storage.FindInComplete | lib/storage/storage.c:84-92 | a chain entry leading to a live slot with the URI is always found |
| Storage.ClaimKeeps | lib/storage/storage.c:186-192 | claiming a free slot for an absent URI and prepending its hash entry keeps the table consistent, raises the count by one and makes the URI found at that slot |
| Storage.ReleaseKeeps | lib/storage/storage.c:362-376 | freeing a live slot keeps the table consistent with one object fewer and its mapping's size off the budget, and its URI is no longer found though its hash entry stays |
| Storage.ObjectStorage.constructor | lib/storage/storage.c:115-163 | 10000 free slots, the configured bucket count or 16384 when it is 0, empty chains, nothing cached |
| Storage.ObjectStorage.FindSlot | lib/storage/storage.c:75-95 | returns the slot the lookup function defines |
| Storage.ObjectStorage.LowestFree | lib/storage/storage.c:186-188 | the search loop returns the lowest free slot, which exists whenever the count is below capacity |
| Storage.ObjectStorage.Put | lib/storage/storage.c:165-228 | an existing URI reuses its slot and keeps the count; a new one, when the count is below capacity, takes the lowest free slot and raises the count; a full store fails and changes nothing; a failed write records no size |
| Storage.ObjectStorage.GetFd | lib/storage/storage.c:230-273 | a missing URI gives -1; a slot whose file cannot be opened gives -1 without a hit; otherwise one hit is added, the info describes the slot and the total hits rise by one |
| Storage.ObjectStorage.GetMmap | lib/storage/storage.c:275-317 | maps an unmapped object only when a cache is configured and the budget plus its size stays within the limit, adding its size to the budget; always adds one hit to a found slot |
| Storage.ObjectStorage.GetInfo | lib/storage/storage.c:319-343 | reports the found slot's URI, size, hits and mapping state, or -1 |
| Storage.ObjectStorage.Remove | lib/storage/storage.c:345-382 | a missing URI gives -1 and no change; otherwise the slot is freed, its mapping dropped from the budget, the count decremented, and the URI is no longer found |
| Storage.ObjectStorage.GetStats | lib/storage/storage.c:384-409 | reports the number of live slots, a budget equal to the sizes of the mapped live slots, and the sum of the live slots' hits |
| Storage.StaleMappingWrapsBudget | lib/storage/storage.c:365-375 | as written, removing a mapped object leaves its mapping on the free slot; a new object reusing the slot looks mapped without being charged and removing it wraps the budget to 2^64 − 50 |
| Storage.ResizedMappingMiscounted | lib/storage/storage.c:221-222 | as written, re-storing a mapped object with a new size leaves the old size charged, so removal leaves 90 bytes charged with nothing mapped |
| Storage.LongUriNeverFound | lib/storage/storage.c:191 | as written, a URI of 1024 bytes or more is stored truncated and is never found again |
| Backend.TypeName | lib/backend/backend.c:66-75 | exactly the types outside memory…network are named "unknown" |
| Backend.WithEnabledTogglesOnlyEnabled | lib/backend/backend.c:983-987 | setting or clearing ENABLED gives exactly the requested state and leaves every other flag bit as it was |
| Backend.AdjustedUndo | lib/backend/backend.c:643-651 | moving a byte count from the old size to a new one and back restores it, so the counters change by exactly new − old modulo 2^64 |
| Backend.CountsAddUp | lib/backend/backend.c:393-395 | when every backend's object count is the number of objects recorded on it, the counts sum to the number of objects |
| Backend.Manager.constructor | lib/backend/backend.c:98-131 | no backends, every role id -1, no objects, zero totals |
| Backend.Manager.Register | lib/backend/backend.c:163-249 | fails with -1 and no change once 16 backends exist or when its index cannot be created; otherwise the backend gets the previous count as id, zeroed statistics and ENABLED set |
| Backend.Manager.GetBackend | lib/backend/backend.c:251-263 | yields the backend exactly for an id in 0..count−1 |
| Backend.Manager.SetDefault | lib/backend/backend.c:265-278 | succeeds exactly for a known backend that is not EPHEMERAL_ONLY; the default id changes only on success |
| Backend.Manager.SetEphemeral | lib/backend/backend.c:280-293 | succeeds exactly for a known EPHEMERAL_ONLY backend; the ephemeral id changes only on success |
| Backend.Manager.SetCache | lib/backend/backend.c:295-308 | succeeds exactly for a known memory backend; the cache id changes only on success |
| Backend.Manager.CreateObject | lib/backend/backend.c:314-410 | with a negative id the ephemeral or default backend is chosen; it succeeds exactly when that backend exists, is enabled, is EPHEMERAL_ONLY for an ephemeral request, the URI is new and the file opens; the whole new state is `AfterCreate` of the old one; other objects stay indexed, as with separate chain links (the corrected behaviour of the shared-`next` finding) |
| Backend.CreateKeepsState | lib/backend/backend.c:314-410 | a creation keeps the manager's invariant and the backends' layout; the URI is indexed afterwards exactly when it was or the creation succeeds, and then the new entry (size 0, no accesses, the request's flags plus EPHEMERAL or PERSISTENT, a zero payload) sits at `FsPath` of the target's mount path and the URI, whose file now exists; other objects stay indexed, as with separate chain links (the corrected behaviour of the shared-`next` finding) |
| Backend.Manager.Lookup | lib/index/index.c:314-362 | the global-index lookup inside every operation counts one access on a found object and reports whether it was found |
| Backend.Manager.GetObject | lib/backend/backend.c:412-433 | a found object's record is returned with rc 0, a missing one gives -1 and None; the whole new state is `AfterGet` of the old one (two accesses on the object and one read on its backend, or no change) |
| Backend.GetKeeps | lib/backend/backend.c:412-433 | a lookup keeps the manager's invariant, the set of indexed URIs, the files, the role ids and every backend's mount path and flags |
| Backend.Manager.DeleteObject | lib/backend/backend.c:435-470 | rc 0 exactly for an indexed URI, which is absent afterwards; the whole new state is `AfterDelete` of the old one (the file and record go, and the backend's and the manager's object and byte counts drop by one object and its size, the backend's index becoming dirty; or no change) |
| Backend.DeleteKeepsState | lib/backend/backend.c:435-470 | under the manager's invariant a delete always removes exactly that URI from the index and that object's file, keeping the invariant, the role ids and the layout |
| Backend.Manager.SetPayloadMetadata | lib/backend/backend.c:576-601 | succeeds exactly when the descriptor validates and the object exists; an invalid descriptor is never stored; on success the payload is stored and the backend's index marked dirty |
| Backend.Manager.GetPayloadMetadata | lib/backend/backend.c:603-619 | returns the stored payload of a found object, -1 for a missing one |
| Backend.Manager.UpdateSize | lib/backend/backend.c:621-665 | a found object takes the new size, its backend's and the manager's byte counts move by new − old, an empty payload is seeded for a non-zero size, and the index is marked dirty when the size changed or a payload was seeded |
| Backend.Manager.Migrate | lib/backend/backend.c:678-784 | succeeds exactly when the object exists, the target differs, an ephemeral object goes to an EPHEMERAL_ONLY target, the source allows MIGRATION_SRC, the target MIGRATION_DST, and the copy works; then one object and its bytes move between the counts, the object lives at `FsPath` of the target's mount path and the URI with the source file gone, and it has two more accesses: the migration's own lookup and the one inside `global_index_update_backend` (lib/index/index.c:443); a found object that does not move gets one; other objects stay indexed, as with separate chain links (the corrected behaviour of the shared-`next` finding) |
| Backend.Manager.SetEnabled | lib/backend/backend.c:977-992 | -1 for an unknown id; otherwise only the ENABLED bit of that backend changes, to the requested state |
| Backend.MigrationLosesCopy | lib/backend/backend.c:763-781 | as written, the unlink after the path update removes the copy just made and keeps the source file |
| Backend.FsPath | lib/backend/backend.c:340-341 | the object's file path is the mount path followed by the URI, cut to the 1023 characters a 1024-byte buffer holds: a prefix of the full path, and the full path whenever that fits |
| Backend.LongUrisShareFile | lib/backend/backend.c:340-341 | two URIs that agree on their first 1023 characters less the mount path's length get the same file path on a backend |
| Backend.LongUriDeleteUnlinksOther | lib/backend/backend.c:435-470 | with two such URIs indexed on one backend, deleting the first removes the file that the second's entry, unchanged, still names |
| Backend.DuplicateCreateDeletesFile | lib/backend/backend.c:357-387 | as written, creating an object that already exists truncates and then unlinks its file while its entry stays indexed |
| Dispatch.RouteCases | server.c:343-362 | a request is a DELETE exactly when its URI starts with "/delete/", a LIST exactly when it is not a DELETE and is "/list" or starts with "/backend/"; the DELETE target is the URI with "/delete" stripped, so it still starts with '/' |
| Dispatch.ClientDeleteRoundTrip | client.c:181-191 | the client's "/delete" + uri for a uri that starts with '/' and fits the copy buffer is routed by the server as a DELETE of exactly that uri |
| Dispatch.ClientDeleteWithoutSlash | client.c:181-191 | a client delete of a uri without a leading '/' produces "/delete..." without the second slash, which the server routes as a GET/PUT of that string rather than a DELETE |
| Dispatch.AgreesOnTheWire | server.c:89-97 | for a reply whose OK status has a descriptor exactly when its content length is 0, the client's "expect an fd" rule on the encoded header agrees with whether the server attaches an fd; DELETE, PUT and error replies always qualify, a GET reply only with a descriptor |
| Dispatch.GetReply | server.c:85-117 | the GET reply agrees with the wire rule exactly when the mode is not FD-pass or the lookup handed out a descriptor |
| Dispatch.FailedOpenStallsClient | server.c:85-100 | as written, an FD-pass GET whose file could not be opened (descriptor -1) replies OK with content length 0, so the client expects a descriptor the server does not send |
| Dispatch.CheckedGetReply | server.c:85-117 | the corrected GET reply always agrees with the wire rule, sends a descriptor with every OK, and equals the reply as written whenever a descriptor exists or the mode is not FD-pass |
| Dispatch.PutReply | server.c:149-185 | the PUT reply agrees with the wire rule and is OK exactly when the object was created and the mode is FD-pass |
| Dispatch.DeleteReply | server.c:192-215 | the DELETE reply agrees with the wire rule, is OK exactly when the object was found, and never makes the client wait for a descriptor |
| Dispatch.PutOutcome | server.c:129-186 | a PUT keeps the manager's invariant; the URI is indexed afterwards exactly when the ephemeral (PRIORITY) or default backend admits the object and the file opens, then with a new, empty entry at `FsPath` of that backend's mount path and the URI; every other object is unchanged and no other URI appears |
| Dispatch.ProbeThenGet | server.c:364-383 | the existence probe followed by handle_get leaves the object with four more accesses and its backend with two more reads, and nothing else changed |
| Dispatch.Server.constructor | server.c:50-61 | all request counters start at zero |
| Dispatch.Server.HandleGet | server.c:75-118 | the new manager state is `AfterGet` of the old (an unknown URI changes nothing); the reply is NOT_FOUND for an unknown URI, else `GetReply` with the descriptor the lookup handed out, which may be -1; gets rises only on an OK reply that was sent |
| Dispatch.Server.HandlePut | server.c:129-186 | the new manager state is `PutState` of the old (lookup and delete of any existing object, then creation on the automatically selected backend with flags 0); the reply is `PutReply` for whether the URI is now indexed; puts rises only on a sent OK |
| Dispatch.Server.DropExisting | server.c:143-147 | the new manager state is `Cleared` of the old: `AfterGet` then `AfterDelete`, so the URI is no longer indexed |
| Dispatch.Server.CreateAndReply | server.c:149-186 | for a URI not yet present the new manager state is `AfterCreate` of the old with an automatic backend and flags 0; the reply is `PutReply` for whether it was created; puts rises only on a sent OK |
| Dispatch.Server.HandleDelete | server.c:191-216 | the new manager state is `AfterDelete` of the old, the URI is absent afterwards, the reply is `DeleteReply` for whether it was present, and deletes rises only on a sent OK |
| Dispatch.Server.HandleList | server.c:225-231 | LIST always fails with UNSUPPORTED_OP and the disabled-LIST message |
| Dispatch.Server.HandleObject | server.c:362-390 | an indexed URI is served as a GET: the state is `AfterGet` applied twice (probe and handler), the reply `GetReply`, and only gets may rise; a missing one as a PUT: the state is `PutState`, the reply `PutReply`, and only puts may rise |
| Dispatch.Server.GetRoute | server.c:364-383 | the GET branch: the state is `AfterGet` applied twice, the reply `GetReply` with the lookup's descriptor, gets +1 exactly on a sent OK |
| Dispatch.Server.PutRoute | server.c:364-389 | the PUT branch: the probe changes nothing, so the state is `PutState` of the old one and the reply `PutReply`; puts +1 exactly on a sent OK |
| Dispatch.Server.Serve | server.c:334-390 | one request: requests_total +1; errors +1 unless the reply is OK and sent; deletes, gets or puts +1 for a sent OK on its route and the others unchanged; DELETE gives state `AfterDelete` of the stripped target and `DeleteReply`, LIST no state change and UNSUPPORTED_OP, other URIs GET or PUT by existence as in HandleObject; the reply breaks the wire rule exactly for an FD-pass GET of an indexed object whose file could not be opened |
| Dispatch.InitBackends | server.c:407-463 | succeeds exactly when both backend indexes can be created; then backend 0 is the memory backend (ephemeral and cache role, ephemeral-only), backend 1 the SSD backend (default role, not ephemeral-only), and both admit the objects routed to them |
| Datapass.Widen | datapass/csrc/server.c:79 | a (signed) char ORed into the 64-bit hash keeps its byte in the low 8 bits and is zero only for NUL |
| Datapass.StrToHash | datapass/csrc/server.c:73-84 | the loop computes the rotate-or hash: start at 0 with rotation 0, each character rotates left by the current count and ORs the character in, the count steps modulo 64 |
| Datapass.RotlZero | datapass/csrc/server.c:79 | the rotation-by-0 step (a shift by 64 in C) is taken as leaving the hash unchanged |
| Datapass.HashFromNonzero | datapass/csrc/server.c:77-82 | once any non-NUL character has been ORed in, the hash stays non-zero |
| Datapass.HashIsZeroOnlyForEmpty | datapass/csrc/server.c:73-84 | a name hashes to 0 exactly when it is empty, so only the empty name can look like a free slot |
| Datapass.NamesCollide | datapass/csrc/server.c:73-84 | distinct names collide: "0c" and "c" both hash to 0x63, and since lookups compare hashes only they resolve to the same item |
| Datapass.Home | datapass/csrc/server.c:89 | the home slot fullhash % hsize lies inside the table |
| Datapass.PutSlot | datapass/csrc/server.c:89-92 | in a table with a free slot the insertion probe ends at a free slot |
| Datapass.Inserted | datapass/csrc/server.c:95-96 | insertion writes one slot and keeps the table size |
| Datapass.ProbeEndStops | datapass/csrc/server.c:91-92 | the probe end is the first slot, counting cyclically from the home slot, that is free or (for a lookup) holds the key; every slot before it does not stop the probe |
| Datapass.ProbeReaches | datapass/csrc/server.c:91-92 | with at least one free slot the cyclic probe always stops inside the table |
| Datapass.GetAgreesOnNonzero | datapass/csrc/server.c:227-233 | for every non-zero hash the lookup as written and the corrected lookup give the same answer |
| Datapass.FreeTableClustered | datapass/csrc/server.c:197-199 | a fresh (zero-filled) table satisfies the probing invariant |
| Datapass.PutKeepsClustered | datapass/csrc/server.c:88-96 | insertion keeps the invariant that every occupied slot is reachable from its home slot through occupied slots |
| Datapass.GetFinds | datapass/csrc/server.c:224-233 | if some slot holds a non-zero hash, the lookup probe stops at a slot holding that hash and returns its index |
| Datapass.GetMisses | datapass/csrc/server.c:227-231 | a hash held by no slot gives -1 |
| Datapass.PutThenGet | datapass/csrc/server.c:222-234 | after put_item (lines 88-96) inserting a new non-zero hash, the lookup of that hash returns the index just stored |
| Datapass.EmptyNameMatchesFreeSlot | datapass/csrc/server.c:227-233 | as written, the empty name (hash 0) stops at the first free slot of its probe and returns that slot's stale index, where the corrected lookup gives -1 |
| Datapass.EmptyNameFindsItemZero | datapass/csrc/server.c:222-234 | as written, in a zero-filled table the empty name is reported as item 0 |
| Datapass.FreeWhenSparse | datapass/csrc/server.c:197-199 | a table with fewer occupied slots than slots has a free slot |
| Datapass.OccupancyStore | datapass/csrc/server.c:95 | filling a free slot raises the occupancy by one exactly when the stored hash is non-zero |
| Datapass.TableHasFree | datapass/csrc/server.c:189-212 | with hsize = 2·nfiles and at most nfiles items the table always has a free slot, so every probe terminates |
| Datapass.PutKeepsTable | datapass/csrc/server.c:86-97 | putting the next item keeps occupancy, clustering and the slot-to-item correspondence |
| Datapass.PutKeepsIndexed | datapass/csrc/server.c:95-96 | after a put every occupied slot names an item whose name has the slot's hash |
| Datapass.GetMeaning | datapass/csrc/server.c:222-234 | a lookup returns an item whose name has the same hash as the query, and returns -1 exactly when the name is empty or no item's name has that hash |
| Datapass.PutFindsNew | datapass/csrc/server.c:222-234 | putting (lines 86-97) a non-empty name whose hash is new makes the lookup of that name return the new item's index |
| Datapass.Regular | datapass/csrc/server.c:206-214 | only regular files become items, and there are at most as many items as directory entries |
| Datapass.RegularStep | datapass/csrc/server.c:202-216 | each directory entry of the second pass appends one item when it is a regular file and none otherwise |
| Datapass.Storage.constructor | datapass/csrc/server.c:178-220 | the table has 2·nfiles slots for nfiles directory entries, and the items are the regular files in directory order with the table invariant established |
| Datapass.Storage.PutEntries | datapass/csrc/server.c:201-216 | the second directory pass puts exactly the regular files, in order |
| Datapass.Storage.PutEntry | datapass/csrc/server.c:206-214 | one directory entry is put only when it is a regular file |
| Datapass.Storage.PutItem | datapass/csrc/server.c:86-97 | the next item is recorded at the first free slot of its probe (a free slot exists), the invariant is kept, and a new non-empty name is then found at that index |
| Datapass.Storage.GetItem | datapass/csrc/server.c:222-234 | the probe returns the corrected lookup result: an item with the query's hash, or -1 exactly when the name is empty or no item has its hash |
| Datapass.Storage.Probe | datapass/csrc/server.c:224-228 | the cyclic probe loop shared with put_item (lines 88-92) stops at the first free slot or slot holding the key, counted from the start slot |

## Left out

- Socket and descriptor I/O (`send_all`, `recv_all`, `send_fd`, `recv_fd`, fdpass, transport): a method receives the bytes a peer sent, and whether a send succeeded, as parameters. Only the bytes on the wire are modelled.
- Concurrency: atomics, rwlocks and mutexes, the caching thread (backend.c:791-861) and the per-client threads. Every operation is sequential.
- Floating point: hotness, perf factors and expected latency, watermarks, hit rates, utilisation. Also `global_index_get_stats` and `backend_get_index_stats`, which derive such rates from the counters that are modelled.
- Filesystem effects: `mkdir_p`, `open`, `write`, `rename`, `unlink`, `mmap` and `sendfile`. The backend manager keeps a set of existing paths instead, and an `open` outcome is a parameter.
- Directory scans: `backend_manager_scan` and `backend_index_scan` (backend.c:472-546, index.c:837-907). For the same reason `Dispatch.InitBackends` leaves out the scans and `backend_start_caching`.
- The OS-descriptor state machine of `fd_ref_acquire`, `index_entry_open_fd` and `index_entry_close_fd`. A lookup receives the descriptor to hand out. Only the refcounts and the open-descriptor count are kept.
- Backend.Manager.CreateObject, Backend.Manager.Migrate: paths are cut to the 1024-byte `fs_path`/`dst_path` buffers (lib/backend/backend.c:340-341, 723-724) as `FsPath`, and the files form a set of paths without contents, so that creating a second long URI with the same 1023-character path empties the first object's file through `O_TRUNC` (line 357) is not shown; only the shared path and the unlink on delete are.
- IndexTables.GlobalIndex, IndexTables.IndexEntry, IndexBackend, Storage.Slot, Dispatch.Server: the 64-bit event counters (the global index's lookups, hits and misses, an entry's `access_count`, the index backend's lookups and hits, a slot's hits, the server's request counters) are unbounded `nat`s; their wrap-around after 2^64 events is not modelled.
- CRC32 (index.c:622-635): its table is truncated and it is never called.
- Stubs: `backend_list_objects` and `backend_get_hotness_map` return empty results.
- `backend_get_metadata`, `backend_cache_object`, `backend_evict_object`, `backend_get_status`, `backend_set_watermarks`, `backend_set_migration_policy` and `backend_get_stats`: only the operations listed in the table above are modelled.
- The index-entry payload setter and getter, `objm_metadata_add_payload`, `objm_metadata_get_payload` and `objm_last_error` have no bodies in the source. The payload is stored and returned unchanged, as set-then-get does in lib/backend/test_backend.c:206-215.
- Backend.Manager.Register: the result of `backend_index_load` (backend.c:229-236) is reduced to whether the index could be created. Entries already on disk never reach the global index, as in the code, where that step is a TODO.
- Backend.Manager.CreateObject, Backend.Manager.Migrate: the global index is the manager's URI map and each backend index a separate structure, which is the corrected behaviour of the shared-`next` Findings row. As written, an object whose global chain runs through a newly created or migrated entry drops out of lookups; the model keeps it indexed, and so do Dispatch.PutOutcome, Dispatch.Server.HandlePut, Dispatch.Server.CreateAndReply, Dispatch.Server.PutRoute, Dispatch.Server.HandleObject and Dispatch.Server.Serve, which build on it. The as-written chains are modelled on their own, in `IndexTables.SharedLinks`.
- Backend.CreateKeepsState: its new map of objects is the old one plus the created entry, as with separate links; as written, the objects that shared the new entry's global bucket are lost (see the shared-`next` Findings row).
- Backend.Manager: the per-backend index is not linked into the manager. The global index is the manager's URI map; the backend index is modelled on its own in `IndexBackend`. The paths of loaded and skipped records are not cross-checked.
- IndexTables.IndexEntry.RecordAccess: the monotonic clock is a parameter `now`.
- IndexTables.GlobalIndex.constructor and IndexBackend.BackendIndex.constructor require 1 ≤ n ≤ 2^63 buckets. `index_next_power_of_2` overflows above that, and every caller passes 16 to 262144.
- IndexBackend.BackendIndex.Load parses all records first and then inserts them. The C code reads and inserts record by record; the resulting index and return value are the same.
- Dispatch.Server.HandleObject: the GET branch counts four index accesses (the existence probe and the handler's lookup, each through `global_index_lookup`). The model follows that rather than the one logical read a client makes.
- Dispatch.Server.HandleGet: the handlers model `handle_get` as written, so an FD-pass GET whose file could not be opened gets an OK reply without a descriptor; the corrected reply `Dispatch.CheckedGetReply` is stated and proved beside it (see Findings). Its STORAGE_ERROR status and message are this model's choice.
- Protocol.CapabilityNames: the corrected routine writes an empty text's NUL when no named capability bit is set. The code makes no `snprintf` call then and leaves the buffer as it was (`Protocol.CapabilityNamesNoCall`).
- IndexBackend.BackendIndex.Save: a failed record write is modelled as the file ending after the record bytes written so far. A failure followed by later successful writes, which would leave a gap inside the file, is not modelled.
- Dispatch: URIs containing NUL are not modelled. `backend_manager_create(8192, 2000)` is modelled by the manager's constructor without the bucket count, which only affects performance.
- ProtocolClient.Connection.RecvResponseFor: a stashed response whose slot is already occupied by the same id overwrites it. The earlier header is dropped, as in the code (its metadata would leak).
- Datapass.Storage.constructor: the table is zero-filled. init_storage allocates it with `malloc` (datapass/csrc/server.c:198), so the code relies on memory it never clears. The items array is `malloc`ed too (line 197), and lines 210-211 copy each name without its NUL, so `strtohash(fsname)` (line 77) and the `sprintf` at line 99 read on to whatever zero byte follows in memory; Datapass.Storage.PutEntries and Datapass.Storage.PutItem take each name exactly as given, terminated.
- Datapass.Storage.constructor requires at least one directory entry. `readdir` always yields "." and "..", and with zero entries the home-slot modulo would divide by zero.
- Datapass.Storage.PutItem: the `open` of the backing and cache files and the fd bookkeeping (datapass/csrc/server.c:98-121) are left out, as are `cache_item` and `uncache_item`, which are never called.
- Datapass: the name truncation to the `fsname` field size (datapass/csrc/server.c:210-211) is left out; names are taken as given. PutItem uses the number of items already put as the index, as init_storage does.
- Datapass.Rotl: the rotation by 0 shifts right by 64 in C, which is undefined behaviour. It is modelled as no rotation, under which hash | (hash >> 64) leaves the hash unchanged; see `Datapass.RotlZero`.
- The CLI and demo drivers (client.c apart from its `/delete` prefix, benchmark.c, demo_integration.c, examples/) and the non-compiling Rust sources are outside the model.

## Findings

| source | as written | input that shows it | evidently intended | confidence | as-written member | corrected member |
|---|---|---|---|---|---|---|
| lib/storage/storage.c:365-375 | `storage_remove` subtracts a cached mapping's size but leaves the slot's `cache_mmap` set | cache a 100-byte object, remove it, reuse its slot for a 50-byte object, then remove that: 50 is subtracted from a budget of 0 and wraps to 2^64 − 50 | removing a slot clears its cached mapping | not executed | Storage.RemovedAsWritten, Storage.StaleMappingWrapsBudget | Storage.ObjectStorage.Remove |
| lib/storage/storage.c:221-222 | `storage_put` of an existing cached URI updates the size but keeps the mapping and its charged bytes | re-put a cached 100-byte object as 10 bytes: the budget still holds 100, and a later remove subtracts only 10, leaving 90 charged to no object | a re-put unmaps the old mapping and releases its bytes | not executed | Storage.WrittenAsWritten, Storage.ResizedMappingMiscounted | Storage.ObjectStorage.Put |
| lib/storage/storage.c:191 | the URI is copied with `strncpy` into a 1024-byte field | a URI of 1024 or more characters is stored truncated, so `find_slot`'s comparison with the full key never matches and the object cannot be found again | the URI is stored in full, or over-long URIs are rejected | not executed | Storage.StoredUriAsWritten, Storage.LongUriNeverFound | Storage.ObjectStorage.Put |
| lib/backend/backend.c:763-781 | the copy is written to the destination with `open` and `sendfile` (lines 722-745); line 765 then rewrites `entry->backend_path` to the destination, and the unlink at line 781 uses that rewritten path | migrate an object from backend 0 to backend 1: the source file survives, the new copy is deleted | unlink the old source path | not executed | Backend.MigratedFilesAsWritten, Backend.MigrationLosesCopy | Backend.Manager.Migrate |
| lib/backend/backend.c:357-387 | `backend_create_object` opens the file with `O_TRUNC` before the duplicate insert fails, then unlinks it | create a URI that already exists: the existing object's file is emptied and deleted while its index entry stays | refuse the duplicate before touching the file | not executed | Backend.CreatedFilesAsWritten, Backend.DuplicateCreateDeletesFile | Backend.Manager.CreateObject |
| lib/protocol/protocol.c:841-847 | `objm_capability_names` adds each `snprintf` return value to `written` even when the output was truncated | capabilities 0x0003 into an 8-byte buffer: the second call writes at offset 11 with size 8 − 11, which wraps to 2^64 − 3 | stop (or clamp `written`) once the buffer is full; the corrected routine also writes the NUL of an empty text when no named bit is set, where the code makes no call and leaves the buffer untouched (`Protocol.CapabilityNamesNoCall`) | not executed | Protocol.CallsAsWritten, Protocol.CapabilityNamesOverrun | Protocol.CapabilityNames |
| lib/protocol/protocol.c:365-366, 519-529 | the client sends a 2-byte CLOSE, but the server always reads a full 9-byte request header before looking at the type | a client that sends only CLOSE and waits: the server blocks for 7 more bytes and never sees the close | read the type byte first and the rest of the header only for a REQUEST | not executed | Protocol.ServerReadAsWritten, Protocol.CloseNeverReadAsWritten | Protocol.ServerRead |
| datapass/csrc/server.c:222-234 | `get_item` stops at a free slot and then compares its hash 0 with the key | look up the empty name (hash 0) in any table: the first free slot of its probe matches, and its stale index (0 in a zero-filled table) is returned instead of -1 | a free slot never matches | not executed | Datapass.GetAsWritten, Datapass.EmptyNameMatchesFreeSlot | Datapass.Get |
| server.c:85-100 | `handle_get` replies OK with `ref.fd` and content length 0 without checking the descriptor, and `backend_get_object` succeeds with descriptor -1 when the file cannot be opened (lib/index/index.c:331-347) | GET an indexed object whose file has been removed: the reply is OK with no descriptor and content length 0, and the server sends no descriptor (lib/protocol/protocol.c:587) while the client, seeing OK with content length 0, waits for one (lines 311-320) | report the failed open as an error | not executed | Dispatch.GetReply, Dispatch.FailedOpenStallsClient | Dispatch.CheckedGetReply |
| lib/index/index.c:384-388, 555-558 | an index entry has a single `next` link (lib/index/index.h:78); `global_index_insert` points it at the global bucket's old head, and `backend_create_object` then passes the same entry to `backend_index_insert` (lib/backend/backend.c:381-390), which points it at the backend bucket's old head; `backend_migrate_object` relinks it the same way (lib/backend/backend.c:772) | on one backend, PUT "/x" and then PUT "/hd" (FNV-1a 0x07d64e07b49caeb2 and 0xee0b4d17e66a6eb2: the same bucket 0xeb2 of the global index's 8192, different buckets of the backend index's 262144): the global chain now holds only "/hd", so "/x" is no longer found, and a later request for it is served as a PUT whose `O_TRUNC` open empties its file | the global and backend chains each have their own link, so an insertion or a migration leaves every other object reachable | not executed | IndexTables.InsertBothRoutesGlobalChain, IndexTables.RelinkCutsChain, IndexTables.SecondCreateHidesFirst | IndexTables.GlobalInsertKeepsChain, Backend.Manager.CreateObject, Backend.Manager.Migrate |
