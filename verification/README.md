# A verified model of dnsd-rs

dnsd-rs is a recursive DNS server. A query is parsed, rate limited, looked up in
a three-tier cache under a key made of name, type and client subnet, resolved by
an iterative walk from the root servers when the cache misses, encoded with name
compression, stored, and answered; administrators' actions go into a hash-chained
audit log. This project models those parts in Dafny and proves what they promise.

Each part is written twice where the source changes state: a method or class that
works step by step as the source does, proved equal to a specification function,
and lemmas about that function. Purely computing code has the function only, and
the two concurrent protocols (singleflight, compaction) are transition systems
over their critical sections.

| Part | Files | Main results |
|---|---|---|
| Wire codec (sections 3.1 and 4.1 of RFC 1035, section 6.1 of RFC 6891) | `Octets`, `Names`, `NameForms`, `NameDecoding`, `WireGrammar`, `Compression`, `EmptyLabels`, `Messages`, `DnsEncoder`, `DnsParser`, `RoundTrip`, `SoaRoundTrip`, `MessageRoundTrip`, `CanonicalForm` | `ParseExactly`, `RoundTripExactly`, `SameNameExactly`, `RoundTripCanonical`, `SoaExactly`, `NameRoundTrip`, `TableKeptExactly`, `NameReadsExactly`, `NameAtMeetsGrammar` |
| L2 log store | `L2Log`, `L2Store`, `L2Compaction`, `L2Interleaving`, `L2Recovery`, `L2Reopen`, `L2Crashes`, `L2ShortReads`, `L2Damage` | `StoreRefinesMap`, `ReachableHits`, `SwapRestoresSnapshot`, `UntouchedKeySurvives`, `CrashRecovery`, `CompactKeepsExactly`, `ReopenExactly`, `CrashesExactly`, `ReplayCompleteExactly`, `OneByteDamage` |
| L1 and the tiers | `L1`, `L1Runs`, `L1Retention`, `Tiered`, `TieredOps`, `TieredLaws`, `TieredRuns` | `ReachableBounded`, `HitIsLastPut`, `KeptExactly`, `FullShardForgets`, `HitWindow`, `ReopenBringsBack`, `NoPromotionNoStaleHit` |
| Singleflight | `Singleflight` | `OneResolutionPerKey`, `ReturnsItsFlightsResult`, `MapHoldsLiveFlights`, `NoLostWaiter`, `Progress` |
| Iterative walk | `Recursion`, `WalkOutcomes`, `Resolver` | `ResolutionMeets`, `SucceedsExactly`, `WalkCost`, `ResultIsDelegated` |
| Keys, id patching, the cache path | `Text`, `Keys`, `CacheHit`, `Pipeline` | `KeyUnambiguous`, `PatchedEncoding`, `HitAnswersRequest`, `StoredAnswerHits` |
| Rate limiter | `Limiter`, `LimiterExact` | `AllowedExactly`, `WindowBound`, `CleanupInvisible`, `AddressesIndependent` |
| Audit log | `Audit`, `AuditChain`, `AuditText` | `ChainUnbrokenExactly`, `LastHashPinsRows`, `UnambiguousExactly` |

`Results` and `Slices` hold shared helpers. `dafny verify dfyconfig.toml` checks
the whole project.

## Where the code does less than its documentation says

The model follows the code. These are the places where that matters, each with
the member that states it:

- **SOA names.** Both names of an SOA go through one scratch encoder, so the
  second can be compressed against the first by an offset relative to the RDATA
  (src/proto.rs:906-909), although src/proto.rs:979-980 says no compression is
  used there. `SoaExactly` and `RoundTripExactly` give the exact condition for
  such a record, and a message that holds some, to survive; `SoaLost` is a
  message that does not.
- **Extended rcodes.** `encode` writes only the low four bits of the rcode, and
  `parse` keeps eight of twelve: `FieldsAgree` in `RoundTripExactly`.
  `BadversLost` shows that the server's own BADVERS reply, which carries no OPT
  record, comes back as NOERROR.
- **Empty labels.** A name such as `a..b` is written without complaint and does
  not read back: `NameReadsExactly`, `EmptyLabelCutsName`, and `AEmptyBLost` for
  that name. When it is written in full the compression table then claims what is
  not there: `TableKeptExactly`.
- **Deletes in L2** write no tombstone, so a reopen brings a key back exactly when
  neither a put of it nor a compaction followed its delete: `DeletedKeyReturns`,
  `DeletedExactly`, and for the whole cache `ReopenBringsBack`.
- **Writes during compaction** are undone by the swap, which replaces index and
  log wholesale: `SwapRestoresSnapshot`, `PutDuringCompactionLost`,
  `DeleteDuringCompactionUndone`; `PutLostInEmptyStore` and
  `DeleteUndoneInSmallStore` are such runs.
- **A torn record** left by a crash is never cut off, and every scan stops there.
  Records appended after it are readable through the index, but the next reopen
  forgets everything put or deleted since the crash, and the next compaction drops
  every record behind it: `CrashesExactly`, `TornTailForgets`,
  `PutLostBehindTornByte`, `CompactKeepsExactly`.
- **Record headers** are read by one `read` call on a buffered reader
  (src/cache/l2.rs:260), which returns short when a header crosses the end of the
  buffer; replay and compaction then stop on an undamaged log.
  `ReplayCompleteExactly`, `RecordsBeforeShort` and `CopyIsOfPart` take arbitrary
  short reads. The other statements about L2 are about scans whose headers are
  all read in full.
- **CNAME chasing** announced at the top of src/resolve/recurse.rs cannot happen:
  both returns before it (lines 130 to 135) cover every response. The method
  `DoResolve` has an `assert false` in its place.
- **Promotion** from L2 or L3 stamps a fresh minute, so a value can be served
  past its ttl: `PromotionOutlivesExpiry`, `StaleHitHappens`, bounded by
  `HitWindow`, and caused by nothing else: `NoPromotionNoStaleHit`. A delete that
  falls into another thread's promotion is undone:
  `DeleteDuringPromotionUndone`.
- **A full shard of L1** drops its first entry, and the last one moves to the front
  (src/cache/l1.rs:92-94), so a key just put can be gone after two more puts into
  its shard however large the cache is: `FullShardForgets`. `KeptExactly` says
  exactly when a young entry is lost.
- **A failed read of the last audit hash** at start restarts the chain at genesis
  in the middle of the table: `FailedReadBreaksChain`, `ChainUnbrokenExactly`. The verifier column is not
  hashed: `VerifierUncovered`. Fields that contain a bar are hashed ambiguously:
  `UnambiguousExactly`.

## Model

| member | source | states |
|---|---|---|
| Names.LabelsSpellName | src/proto.rs:774-783 | the labels the encoder splits a canonical name into spell that name again, and none holds a dot |
| Names.SplitJoin | src/proto.rs:780-789 | joining labels without dots with dots and splitting again gives the same labels |
| Names.DottedInjective | src/proto.rs:788-806 | different label lists have different texts, so a text key of the compression table names one suffix |
| NameForms.SameNameExactly | src/proto.rs:1042-1051 | two names have the same canonical form exactly when they are equal up to the case of ASCII letters, outer white space and final dots |
| NameForms.CanonicalParts | src/proto.rs:1042-1051 | every name divides in one way into white space, a name proper, final dots and white space; its canonical form is the name proper with A to Z made a to z, and one dot, or the dot alone, and holds no capital letter |
| NameDecoding.ReadName | src/proto.rs:429-483 | the reading loop computes the recursive decoding of labels and pointers, every error case included, and the position after the first pointer or the root |
| NameDecoding.NameAtMeetsGrammar | src/proto.rs:429-483 | reading succeeds exactly when the label/pointer grammar derives some labels, in lower case, in at most 256 steps; it returns those labels and a position strictly past the start and inside the buffer |
| NameDecoding.SpellingUnique | src/proto.rs:429-483 | a position spells at most one name, by at most one derivation |
| NameDecoding.ReadFull | src/proto.rs:429-483 | a full copy of labels standing anywhere in a buffer reads as those labels |
| WireGrammar.ParseExactly | src/proto.rs:671-756 | for every buffer, parsing returns a message exactly when the buffer holds that message by a grammar of header bits, counted sections, records and RDATA that does not mention the parser |
| WireGrammar.RDataExactly | src/proto.rs:523-650 | RDATA of every type number parses exactly to what the grammar of that type says, its names read from the whole buffer |
| WireGrammar.RDataPanicsExactly | src/proto.rs:552-641 | RDATA parsing indexes out of range exactly when the SOA numbers would leave the buffer, or the name in an RRSIG or NSEC ends behind the RDATA |
| WireGrammar.NameFailsExactly | src/proto.rs:429-483 | reading a name fails, for each cause, exactly when labels and pointers lead to that fault in fewer than 256 steps, or nowhere in 256 |
| WireGrammar.HeaderExactly | src/proto.rs:682-699 | the header fields are the named bits of the first four bytes, the rcode extended by the first OPT record |
| Compression.FindSuffix | src/proto.rs:785-800 | the index found is the longest recorded suffix: it is recorded, and no longer one is |
| Compression.NameBytesWritten | src/proto.rs:774-816 | a canonical name is written as the labels before its longest recorded suffix and one pointer, at most 0x3FFF and strictly backward, to a pointer-free copy of that suffix; or in full when no suffix is recorded |
| Compression.PutFullKeepsTable | src/proto.rs:802-816 | a full write records its suffixes at offsets where exactly those suffixes stand, and keeps every earlier entry right |
| Compression.PutFullRecords | src/proto.rs:802-816 | a full write drops no entry and records every suffix that starts at offset 0x3FFF or before |
| Compression.SecondCopyIsPointer | src/proto.rs:785-816 | a name that had to be written in full where a pointer can reach takes two bytes the next time |
| Compression.WriteFailsExactly | src/proto.rs:774-816 | writing a canonical name fails exactly when one of its labels is longer than 63 bytes |
| Compression.TableGrows | src/proto.rs:760-816 | appending to the output keeps every entry of the compression table right |
| Compression.NameRoundTrip | src/proto.rs:774-816 | writing a canonical name succeeds, only appends, keeps the table's invariant, and the name reads back from any buffer that starts with the output |
| EmptyLabels.TableKeptExactly | src/proto.rs:774-816 | a successful write keeps the table's invariant exactly when it compresses, has no empty label, or stands beyond offset 0x3FFF |
| EmptyLabels.EmptyLabelCutsName | src/proto.rs:774-816 | a canonical name written with an empty label, in full or against a recorded suffix, reads back as the labels before the first empty one |
| EmptyLabels.NameReadsExactly | src/proto.rs:774-816 | a canonical name of at most 254 labels that was written without error reads back exactly when none of its labels is empty |
| EmptyLabels.AEmptyBLost | src/proto.rs:802-816 | the name a..b written with nothing recorded before it succeeds and reads back as a |
| DnsEncoder.Encoder.WriteName | src/proto.rs:774-816 | the suffix search and both writing loops leave output, table and result as the specification of one name write |
| DnsEncoder.Encoder.WriteLabels | src/proto.rs:790-796 | the loop over the labels before a pointer appends each with its length, and stops at one over 63 bytes |
| DnsEncoder.Encoder.WriteInFull | src/proto.rs:802-815 | the loop that writes a full name records each suffix at its start while that fits a pointer |
| DnsEncoder.Encoder.WriteQuestion | src/proto.rs:818-823 | one question is appended after its compressed name, or the write fails |
| DnsEncoder.Encoder.WriteRecord | src/proto.rs:825-859 | one record is appended, an OPT with its packed class and ttl, or the write fails |
| DnsEncoder.EncodeOptions | src/proto.rs:861-873 | the loop concatenates the options with their codes and lengths |
| DnsEncoder.EncodeTxt | src/proto.rs:916-921 | the loop concatenates the strings with their length bytes |
| DnsEncoder.EncodeSoaNames | src/proto.rs:897-915 | both names go through one scratch encoder, so the second may be compressed against the first |
| DnsEncoder.EncodeRData | src/proto.rs:875-983 | RDATA bytes of every type, by the step-by-step encoder |
| DnsEncoder.EncodeMessage | src/proto.rs:985-1039 | the message encoder equals its specification: header, then four sections over one compression table |
| DnsParser.ReadTxt | src/proto.rs:579-586 | the string loop reads what the recursive specification reads, a truncated string being an error |
| DnsParser.ReadOptions | src/proto.rs:652-669 | the option loop reads what the recursive specification reads, ignoring a tail too short for a header |
| DnsParser.ReadRData | src/proto.rs:523-650 | RDATA parsing by type returns exactly what the grammar of the type holds, and panics exactly on its unchecked indexing |
| DnsParser.ReadRecord | src/proto.rs:485-504 | one record is read at the cursor, or the first error is returned |
| DnsParser.ReadRecords | src/proto.rs:712-719 | the loop over a section's count reads that many records in order, or stops at the first error |
| DnsParser.RecoverOpt | src/proto.rs:718-745 | the loop restores every OPT record's size, extended rcode, version and flags from its class and ttl |
| DnsParser.ParseMessage | src/proto.rs:671-756 | the whole parser equals its specification, error cases included, and returns exactly the message the grammar finds in the buffer |
| RoundTrip.RecordRoundTrip | src/proto.rs:825-859 | a well-formed record written after anything keeps the table's invariant and reads back, its owner name compressed against everything before it |
| RoundTrip.RDataReads | src/proto.rs:523-650 | well-formed RDATA of every type but OPT reads back from wherever it stands |
| RoundTrip.SoaCompressionGuard | src/proto.rs:897-915 | the second SOA name is compressed exactly when the two names share a non-root suffix |
| RoundTrip.FlagsRead | src/proto.rs:990-1014 | the flag word carries every header bit, and the low four bits of opcode and rcode |
| MessageRoundTrip.ParseOfEncode | src/proto.rs:985-1039 | every well-formed message encodes, and when its SOA records survive parses to the same questions and records over all four sections, with the fields the wire format does not carry recomputed |
| MessageRoundTrip.RecordExactly | src/proto.rs:825-859 | a well-formed record reads back exactly when it is not an SOA the fault spoils, and never past its end |
| MessageRoundTrip.RoundTripExactly | src/proto.rs:671-756 | a well-formed message, SOA records of any names included, survives encoding and parsing exactly when its opcode, rcode and OPT fields agree and every SOA whose names share a suffix finds it spelled at the offset its pointer carries |
| MessageRoundTrip.BadversLost | src/resolve/mod.rs:273-282 | the BADVERS reply to any well-formed questions is well formed, and comes back with rcode 0 |
| SoaRoundTrip.SoaExactly | src/proto.rs:897-915 | a record with an SOA survives exactly when the two names share no suffix, or the message spells that suffix, by the grammar of names, at the offset the pointer carries |
| SoaRoundTrip.SoaLost | src/proto.rs:897-915 | a one-record message whose fields agree does not come back |
| CanonicalForm.RoundTripCanonical | src/proto.rs:985-1039 | a message with names in any case, with or without the final dot, comes back with canonical names and otherwise unchanged, exactly when its fields agree and its SOA records survive |
| CacheHit.PatchId | src/resolve/mod.rs:288-293 | the in-place patch replaces the first two bytes by the id, and leaves a shorter buffer alone |
| CacheHit.PatchedEncoding | src/resolve/mod.rs:288-293 | patching the id of an encoded message gives the encoding of the message with that id, for every message: no pointer depends on the header |
| CacheHit.CacheHitParses | src/resolve/mod.rs:210-222 | a cached well-formed message, patched, parses to itself with only the id changed, exactly when its fields agree and its SOA records survive |
| L2Log.ComputeFnv64 | src/cache/l2.rs:342-350 | the hashing loop computes 64-bit FNV-1a |
| Octets.XorBitwise | src/cache/l2.rs:342-350 | the arithmetic exclusive or of the hash has a binary digit one exactly where the operands differ |
| L2Damage.XorLowBitwise | src/cache/l2.rs:344-346 | what the hash does with a byte: every binary digit of the result is one exactly where those of hash and byte differ |
| L2Damage.Fnv64Laws | src/cache/l2.rs:342-350 | the hash of no data is the 64-bit offset basis, and one more byte is exclusive-or'ed in and the whole multiplied by the prime |
| L2Damage.RecordLayout | src/cache/l2.rs:121-134 | a record is 0xA5, both lengths, the expiry and the checksum in little-endian order, then key and value |
| L2Damage.OneByteDamage | src/cache/l2.rs:258-300 | a record of which any one byte outside its length fields was changed is read as no record |
| L2Log.RecordReads | src/cache/l2.rs:258-300 | a record written in full reads back wherever it stands |
| L2Log.RecordStands | src/cache/l2.rs:258-300 | whatever is read at an offset is the bytes of exactly that record: nothing incomplete is accepted |
| L2Log.TornIsNoRecord | src/cache/l2.rs:258-300 | a strict prefix of a record at the end of a log reads as no record |
| L2Store.L2.constructor | src/cache/l2.rs:51-87 | opening a file replays it into the index, takes its length as size and counts no dead bytes |
| L2Store.L2.Lookup | src/cache/l2.rs:89-113 | a get answers from the index and the bytes at its offset, expiry checked, key and checksum not |
| L2Store.L2.Insert | src/cache/l2.rs:115-152 | a put appends one record, indexes it at the old size, and counts what it replaces as dead; a ttl of zero or less does nothing |
| L2Store.L2.Remove | src/cache/l2.rs:154-159 | a delete drops the index entry and counts it as dead, and leaves the log alone |
| L2Compaction.LiveRecord | src/cache/l2.rs:174-204 | a record the scan meets is copied exactly when it is the indexed record of its own key and had not expired at the snapshot |
| L2Store.L2.SwapIn | src/cache/l2.rs:219-245 | the third phase replaces log, size and index wholesale and clears the dead bytes |
| L2Store.L2.CompactNow | src/cache/l2.rs:169-247 | the three phases run without interruption are the specified compaction |
| L2Store.CopyFile | src/cache/l2.rs:185-217 | the copying loop writes out the live records in order and indexes them at their new offsets, and stops at a damaged record or a header read short |
| L2Store.ReplayFile | src/cache/l2.rs:302-317 | the replay loop builds the index up to the first record that is damaged or whose header read comes back short |
| L2ShortReads.ReplayIsOfPart | src/cache/l2.rs:258-317 | whichever header reads come back short, replay is that of the whole records up to where it stops |
| L2ShortReads.ReplayCompleteExactly | src/cache/l2.rs:258-317 | replay finds what reading in full would find exactly when no header of a record on its way comes back short |
| L2ShortReads.RecordsBeforeShort | src/cache/l2.rs:258-317 | on an undamaged log replay is that of the records before the first short header |
| L2ShortReads.CopyIsOfPart | src/cache/l2.rs:185-217 | the copying scan of a compaction copies from that same part of the log only |
| L2Compaction.CopyOneKeeps | src/cache/l2.rs:193-216 | one step of the copying scan keeps every copied key readable as at the snapshot, and every key not yet copied ahead of the scan |
| L2Compaction.SwapReads | src/cache/l2.rs:219-245 | after a swap every key the scan can reach reads as at the snapshot, whatever was written in between |
| L2Compaction.SwapNeverInvents | src/cache/l2.rs:169-247 | even with a torn record in the way, what reads after a swap read the same at the snapshot |
| L2Interleaving.StepKeepsInv | src/cache/l2.rs:115-247 | every put, delete and phase of compaction, in any interleaving, keeps index entries on complete records of their own key, values known, and bytes accounted for |
| L2Interleaving.RunKeepsInv | src/cache/l2.rs:115-247 | the invariant, and exact byte accounts where they start exact, hold after any interleaving of steps |
| L2Interleaving.ReachableHits | src/cache/l2.rs:71-159 | in every reachable state of a store opened on any file a hit is a value once put under that key, an unexpired indexed key hits, and the size is at least, from an empty log exactly, the indexed records plus the dead bytes |
| L2Interleaving.SwapKeeps | src/cache/l2.rs:219-245 | after a swap the size is exactly the indexed records, with no dead bytes |
| L2Interleaving.SwapRestoresSnapshot | src/cache/l2.rs:174-245 | whatever is put or deleted while a compaction runs, after its swap every key reads as at the snapshot; so the swap leaves a reading alone exactly when it was that of the snapshot |
| L2Interleaving.UntouchedKeySurvives | src/cache/l2.rs:174-245 | a key not written or deleted between snapshot and swap reads the same before and after the swap |
| L2Interleaving.PutDuringCompactionLost | src/cache/l2.rs:219-245 | a put between snapshot and swap is readable before the swap and lost after it |
| L2Interleaving.DeleteDuringCompactionUndone | src/cache/l2.rs:219-245 | a key deleted between snapshot and swap misses before the swap and reads as at the snapshot after it |
| L2Interleaving.PutLostInEmptyStore | src/cache/l2.rs:169-247 | such a put in a run: any put into an empty store while its compaction runs reads before the swap and is gone after it |
| L2Interleaving.DeleteUndoneInSmallStore | src/cache/l2.rs:169-247 | such a delete in a run: the only key, deleted while the compaction of its record runs, misses before the swap and reads after it |
| L2Recovery.ReplayAppend | src/cache/l2.rs:302-317 | one more complete record changes exactly its own key in the replayed index |
| L2Recovery.CrashRecovery | src/cache/l2.rs:302-317 | complete records followed by any strict prefix of one more replay to exactly the last-write-wins index of the complete ones |
| L2Crashes.CrashesExactly | src/cache/l2.rs:51-317 | over any run of calls and any number of crashes that leave torn records, what a key reads as, what it will read as after one more reopen, and whether that reopen or a compaction keeps its record, as functions of the events |
| L2Crashes.ReopenAgreesExactly | src/cache/l2.rs:51-317 | after any such run the reopened index equals the live one exactly when every held key is reached by the scan and no key that is not held is still in the log |
| L2Crashes.TornTailForgets | src/cache/l2.rs:51-317 | after a crash, a reopen finds what the crash left, whatever was put or deleted in between, unless the bytes after the torn record complete it |
| L2Crashes.PutLostBehindTornByte | src/cache/l2.rs:51-247 | a key put into a store opened on one byte of a record is readable, and neither a reopen nor a compaction keeps it |
| L2Reopen.ReopenAgrees | src/cache/l2.rs:51-159 | for a run up to its first crash: the reopened index agrees with the live one on every key it held, and equals it exactly when no key was left deleted with its record in the log |
| L2Reopen.ReopenExactly | src/cache/l2.rs:115-247 | the reopened index equals the live one exactly when every delete that took a key out of the index was followed by a put of that key with a positive ttl or by a compaction |
| L2Reopen.DeletedKeyReturns | src/cache/l2.rs:154-159 | over any run, a reopen changes what a key reads as exactly when the key was left deleted and has not expired, and then it reads as what was deleted |
| L2Reopen.DeletedExactly | src/cache/l2.rs:115-247 | a key is left deleted exactly when some delete took it out of the index and neither a put of the key with a positive ttl nor a compaction followed |
| L2Reopen.OpenTidy | src/cache/l2.rs:51-87 | a store opened on a fully parseable log is one whose index points at reachable, complete records |
| L2Recovery.CompactKeepsExactly | src/cache/l2.rs:169-247 | an uninterrupted compaction keeps exactly the unexpired keys whose records its scan reaches |
| L2Recovery.CompactedReplays | src/cache/l2.rs:193-245 | replaying a compacted log gives exactly the compacted index |
| L2Recovery.StoreRefinesMap | src/cache/l2.rs:89-247 | over any run of puts, gets, deletes and uninterrupted compactions under a clock that does not run back, every get answers as the plain map from key to value and expiry |
| L1.ComputeFnv32 | src/cache/l1.rs:140-147 | the hashing loop computes 32-bit FNV-1a |
| L1.L1Cache.constructor | src/cache/l1.rs:36-49 | 64 empty shards, each limited to a 64th of the setting but at least 64 entries, 2048 by default, and entries to the ttl setting, 60 seconds by default |
| L1.L1Cache.Lookup | src/cache/l1.rs:56-74 | the scan returns the first fresh entry of the key, or swap-removes an expired one |
| L1.L1Cache.Insert | src/cache/l1.rs:76-109 | a put evicts from a full shard, caps the ttl, and overwrites in place or appends |
| L1.L1Cache.Remove | src/cache/l1.rs:111-115 | a delete keeps every slot of the shard but the key's, in order |
| L1.L1Cache.PurgePrefix | src/cache/l1.rs:117-126 | the loop over shards drops the keys with the prefix and counts them |
| L1.L1Cache.Len | src/cache/l1.rs:128-130 | the number of slots over all shards |
| L1Runs.MakeRoomSlots | src/cache/l1.rs:84-94 | making room in a full shard drops the expired entries, or the first one when there are none; a shard with room keeps everything |
| L1Runs.GetMeaning | src/cache/l1.rs:56-74 | a get answers the key's fresh entry and nothing else, and at most drops the key's expired entry |
| L1Runs.PutMeaning | src/cache/l1.rs:76-109 | a put makes the key's entry the new one, and other keys lose theirs only from the same, full shard: expired ones, or else the first |
| L1Runs.DelMeaning | src/cache/l1.rs:111-115 | a delete removes the key and nothing else |
| L1Runs.PurgeMeaning | src/cache/l1.rs:117-126 | a purge removes exactly the keys with the prefix |
| L1Runs.ReachableBounded | src/cache/l1.rs:36-130 | in every reachable state no shard holds a key twice, each key is in the shard its hash selects, each shard holds at most a 64th of the setting, or 64, and the total is at most the setting or 4096 |
| L1Runs.HitIsLastPut | src/cache/l1.rs:56-109 | a hit in any reachable state is the last put of the key not removed since, younger than its ttl and the configured limit, 60 seconds when that is not positive |
| L1Retention.KeptExactly | src/cache/l1.rs:36-109 | in any run, a put hits until it is as old as its ttl or the configured limit or its key is written or removed again, exactly when no put into its shard meanwhile found as many young entries there as the setting allows and this key the first of them |
| L1Retention.KeptWhileNotFull | src/cache/l1.rs:36-109 | if no put into its shard ever finds as many different keys put there before as the setting allows entries, such a put always hits |
| L1Retention.FullShardForgets | src/cache/l1.rs:84-108 | for every setting there is a run in which a key, still young, is gone after two more puts into its shard |
| L1Retention.Fnv32Laws | src/cache/l1.rs:140-147 | the hash of no data is the 32-bit offset basis, one more byte is exclusive-or'ed in and the whole multiplied by the prime, and its remainder by 64 selects the shard |
| Tiered.TieredCache.Lookup | src/cache/mod.rs:61-78 | a get asks the tiers in order and promotes a lower hit upward for 60 seconds |
| Tiered.TieredCache.Insert | src/cache/mod.rs:81-91 | a put with a positive ttl goes to every tier |
| Tiered.TieredCache.Remove | src/cache/mod.rs:93-99 | a delete goes to every tier |
| TieredLaws.HitsAreCopiedUp | src/cache/mod.rs:61-78 | a get answers from the first tier that has the key; a hit in L2 makes L1, and a hit in the shared tier makes L1 and L2, answer alone for sixty seconds, and nothing else below L1 is written |
| TieredLaws.PutReachesEveryTier | src/cache/mod.rs:81-91 | after a put each tier alone answers with the value up to its ttl, L1 at most up to its own limit |
| TieredLaws.DeleteReachesEveryTier | src/cache/mod.rs:93-99 | after a delete no tier answers for the key at any time, and every tier answers as before for the others |
| TieredOps.GetFinds | src/cache/mod.rs:61-78 | in a coherent state a hit is the last put's value within the slack of its expiry, and an available value before its expiry hits |
| TieredOps.GetKeeps | src/cache/mod.rs:61-78 | a get with its promotions keeps the tiers coherent |
| TieredOps.PutKeeps | src/cache/mod.rs:81-91 | a put keeps the tiers coherent and makes its value the key's |
| TieredOps.DelKeeps | src/cache/mod.rs:93-99 | a delete keeps the tiers coherent and leaves the key in none |
| TieredRuns.DoSound | src/cache/mod.rs:61-99 | every operation and every restart keeps the tiers coherent with what is current and the log with what a reopen would bring back |
| TieredRuns.HitWindow | src/cache/mod.rs:61-99 | over any run with restarts, a hit is the current value of its key, served less than 60 seconds past its expiry, or 120 with a shared tier; and before its expiry it hits if the disk was kept, or if there is a shared tier and L2 was not reopened |
| TieredRuns.TornLogForgets | src/cache/mod.rs:61-91 | with a torn record on the disk the window fails: a put hits, and after the next restart, before its expiry, it misses |
| TieredRuns.BuriedExactly | src/cache/mod.rs:93-99 | a deleted key is ready to come back exactly when some delete removed it and neither a put of it with a positive ttl nor a compaction nor a restart followed |
| TieredRuns.ReopenBringsBack | src/cache/mod.rs:93-99 | after a restart on the same disk a deleted key hits only if it was ready to come back, with the value it had, and does hit until that value expires |
| TieredRuns.NoPromotionNoStaleHit | src/cache/mod.rs:61-91 | if since its last put a key was neither deleted nor moved up a tier, a hit is that put and comes strictly before its ttl runs out |
| TieredOps.PromotionOutlivesExpiry | src/cache/mod.rs:65-69 | a value promoted from L2 is served for the next 60 seconds whatever its expiry |
| TieredRuns.StaleHitHappens | src/cache/mod.rs:61-91 | such a hit in a run: put for 100 seconds, promoted after 99, still a hit after 150 |
| TieredOps.DeleteDuringPromotionUndone | src/cache/mod.rs:61-99 | a value read from L2 and stored into L1 after another thread deleted the key is served for a minute |
| Keys.EcsRoundTrip | src/proto.rs:261-322 | a client-subnet option survives encoding and decoding exactly when its address, if any, is of its family |
| Keys.EcsLayout | src/proto.rs:261-322 | the option is family, source and scope prefix and the bytes of the address |
| Keys.TokenMeansSubnet | src/proto.rs:335-342 | two options have the same token exactly when they have the same address and source prefix, or neither has an address |
| Keys.KeyParts | src/resolve/mod.rs:284-286 | a cache key read from the right has one canonical name, type and token, even when the name contains bars |
| Keys.KeyReads | src/resolve/mod.rs:284-286 | for a name without bars the key splits at its bars into the canonical name, the decimal type and the token |
| Keys.Ipv4Reads | src/proto.rs:335-342 | an IPv4 address is written as its four octets in decimal between dots |
| Keys.KeyUnambiguous | src/resolve/recurse.rs:77-82 | two requests have equal cache keys, and equal singleflight keys, exactly when their names are equal up to case, outer white space and final dots and type and client subnet are equal |
| Pipeline.HitAnswersRequest | src/resolve/mod.rs:210-248 | over any run of lookups, stores, deletes and compactions, a hit is the latest answer stored for the same name up to case and final dots, type and subnet, re-encodable or not, within the staleness bound, and under the client's id parses to that message exactly when its fields agree and its SOA records survive |
| Pipeline.StoredAnswerHits | src/resolve/mod.rs:210-248 | an answer stored, and neither replaced nor deleted since, is the hit for every request that shares it until its ttl runs out |
| Limiter.RateLimiter.constructor | src/resolve/mod.rs:341-347 | the configured rate is raised to at least one and no address is known |
| Limiter.RateLimiter.Allow | src/resolve/mod.rs:349-369 | one request: cleanup above 65536 buckets, refill, and spend one token or refuse |
| Limiter.TokensStayInRange | src/resolve/mod.rs:349-369 | over any requests every bucket holds between 0 and the rate |
| Limiter.StepTakesToken | src/resolve/mod.rs:349-369 | a request is allowed exactly when its address has a whole token, takes one, and changes no other address's level |
| Limiter.CleanupInvisible | src/resolve/mod.rs:353-356 | over any requests under a clock that does not run back, decisions are those of a limiter that never forgets a bucket |
| Limiter.WindowBound | src/resolve/mod.rs:349-369 | in any window of requests, whatever came before, an address is allowed at most the rate plus the rate times the window's length |
| Limiter.AddressesIndependent | src/resolve/mod.rs:349-369 | an address is served exactly as if the others had sent nothing |
| LimiterExact.AllowedExactly | src/resolve/mod.rs:349-369 | over any requests, one is allowed exactly when, counted from each earlier request of its address, those allowed to it leave a whole one of the rate plus the rate times the time since; the first of an address always is |
| LimiterExact.CleanupExactly | src/resolve/mod.rs:353-356 | when more than 65536 addresses are known, exactly those idle for 300 seconds are forgotten, and otherwise nobody |
| Singleflight.StepKeepsInv | src/resolve/recurse.rs:76-120 | every step of any thread keeps the protocol's invariant |
| Singleflight.OneResolutionPerKey | src/resolve/recurse.rs:76-120 | in every reachable state at most one thread resolves a key |
| Singleflight.NoSecondLeader | src/resolve/recurse.rs:98-99 | once a flight is started no other thread ever comes to lead it |
| Singleflight.LeaderRemovesOwnFlight | src/resolve/recurse.rs:104-111 | the flight a leader removes is its own, with its result already published in it; then the key is out of the map, the others stay, and it leads nothing |
| Singleflight.MapHoldsLiveFlights | src/resolve/recurse.rs:83-111 | in every reachable state a key is in the map only while its flight is unstarted and some thread holds it, or some thread resolves it, or some thread has published it and not yet removed it |
| Singleflight.PublishedFlightLeaves | src/resolve/recurse.rs:83-111 | once a flight is published and its leader gone, a thread that enters for its key gets another flight, and without others in between a new one that it leads if it swaps first |
| Singleflight.AllDoneKeyFree | src/resolve/recurse.rs:83-111 | when every thread that asked for a key is done, the key is out of the map and the next request for it resolves afresh |
| Singleflight.AllDoneMapEmpty | src/resolve/recurse.rs:108 | when every thread is done the map is empty |
| Singleflight.PublishedOnce | src/resolve/recurse.rs:104-110 | a published result is never replaced |
| Singleflight.ReturnsItsFlightsResult | src/resolve/recurse.rs:98-120 | every finished thread returns the result published in the flight it obtained, which is for its key |
| Singleflight.SameFlightSameResult | src/resolve/recurse.rs:98-120 | two threads of one flight return the same result |
| Singleflight.NoLostWaiter | src/resolve/recurse.rs:114-120 | a waiting thread can wake, or some thread is resolving its flight and can publish |
| Singleflight.Progress | src/resolve/recurse.rs:76-120 | while a thread is unfinished some step other than a new arrival is possible and brings the end closer |
| Recursion.Walk | src/resolve/recurse.rs:166-224 | the walk with its nested lookups, which restart the depth, terminates, and time spent pays for every exchange of the whole tree |
| Recursion.Addresses | src/resolve/recurse.rs:189-215 | looking up nameservers without glue terminates and pays for its exchanges |
| Recursion.WalkCost | src/resolve/recurse.rs:159-224 | the whole recursion tree starts at most as many exchanges as ticks are left to the deadline, all before it |
| WalkOutcomes.ResolutionMeets | src/resolve/recurse.rs:159-224 | every resolution, successful or not: referrals lead from the configured roots to a conclusive response, or to the cause of the failure: the clock at the deadline, servers that were all asked in vain or not reached in time, a referral that yields no address, or the depth used up |
| WalkOutcomes.QueryServersMeets | src/resolve/recurse.rs:228-259 | servers are asked in their order, each at its time, until one answers; a failure means that all were asked in vain or the clock had reached the deadline at the next one's turn |
| WalkOutcomes.SucceedsExactly | src/resolve/recurse.rs:228-259 | asking succeeds exactly when some listed server, asked in its turn before the deadline, would answer |
| WalkOutcomes.ReferralMeets | src/resolve/recurse.rs:182-218 | each NS name contributes in turn: the last glue address and nothing else, or without glue the IPv4 addresses a walk for it finds, or if there are none the IPv6 addresses of a second walk |
| WalkOutcomes.LeadsNowhere | src/resolve/recurse.rs:187-217 | when a referral leads nowhere, no NS name in it has glue and both walks for each found no address |
| WalkOutcomes.GlueMeets | src/resolve/recurse.rs:276-284 | the glue of a name is its last address record, at port 53, and a name without one has no glue |
| WalkOutcomes.FinalMeans | src/resolve/recurse.rs:175-185 | a response ends the walk exactly when it has answers, an error code, or no NS record |
| Recursion.FirstResponder | src/resolve/recurse.rs:228-259 | a success is the first listed server that gave a response, all earlier ones having been asked in order and failed |
| Recursion.AddressesDelegated | src/resolve/recurse.rs:187-215 | every next server is glue for, or was looked up from, an NS name of the response, by exchanges that all belong to this loop |
| Recursion.ResultIsDelegated | src/resolve/recurse.rs:159-224 | every result comes from a server reached from the roots by fewer than the maximum of referrals, by exchanges of this walk in order, each referral backed by the response before it and by lookups made in between; and it has answers, an error code, or no NS record |
| Resolver.ExtractReferral | src/resolve/recurse.rs:267-286 | the two loops collect the NS names in order and the last address of each glue owner |
| Resolver.Engine.QueryServers | src/resolve/recurse.rs:228-259 | the failover loop asks the servers at their times until one answers in time, or fails as all were asked in vain or the deadline came |
| Resolver.Engine.Iterative | src/resolve/recurse.rs:159-224 | the loop over depths is the specified walk with its referrals and its cause of failure, and terminates although nested lookups restart the depth |
| Resolver.Engine.ServerAddresses | src/resolve/recurse.rs:187-215 | the loop over NS names collects the specified addresses in order |
| Resolver.Engine.DoResolve | src/resolve/recurse.rs:122-156 | resolution is exactly one walk for the canonical name under the deadline: no CNAME is followed |
| Audit.HexEncode | src/store/logs.rs:214-220 | the loop writes two lower-case hexadecimal digits a byte |
| Text.HexInjective | src/store/logs.rs:214-220 | different digests have different texts |
| Audit.ComputeHash | src/store/logs.rs:188-212 | the pieces fed to the hash in turn are the specified text |
| AuditChain.ChainGrows | src/store/logs.rs:139-186 | a row added to a table keeps the chain exactly when the table was a chain and the row chains to its last hash, or to genesis if it was empty |
| AuditText.RowsAreTaken | src/store/logs.rs:139-173 | over any run the table holds what it held and then one row for every insert that was carried out, with its fields and the writer's verifier, and nothing else |
| AuditText.HashedPieces | src/store/logs.rs:188-212 | without bars in them the hashed text splits at its bars into previous hash, decimal time, actor, action, target, detail and client address, in that order |
| AuditText.ChainHashes | src/store/logs.rs:139-212 | a chain starts from sixty-four zeros, links each row to the hash of the one before, and each hash is the digest of the row's text in hexadecimal |
| AuditText.HexReads | src/store/logs.rs:214-220 | each byte is written as its two digits, the higher first |
| Audit.AuditWriter.constructor | src/store/logs.rs:130-137 | a new writer chains to the last hash, or to genesis when it cannot be read |
| Audit.AuditWriter.Record | src/store/logs.rs:139-173 | a record adds a row chained to the previous hash and advances only when the insert is reported to have succeeded |
| AuditChain.ChainUnbroken | src/store/logs.rs:129-186 | over any inserts that succeed or fail and any restarts that read the last hash, rows are only added and form one chain from genesis |
| AuditChain.ChainUnbrokenExactly | src/store/logs.rs:129-186 | from an empty table, with failed reads and unreported inserts allowed, the chain is unbroken exactly when every added row found the writer in step, provided no hash of this run is genesis or its own previous hash |
| AuditChain.FailedReadBreaksChain | src/store/logs.rs:130-137 | one insert, a restart that cannot read the last hash, and another insert break the chain |
| AuditChain.UnambiguousExactly | src/store/logs.rs:188-212 | the hashed text determines a row's fields exactly when none of its five texts contains a bar |
| AuditChain.LastHashPinsTexts | src/store/logs.rs:188-212 | for any hash, two chains that end in the same hash have the same length and hashed the same text row by row, or their rows show two texts with one digest, or a hash that is genesis |
| AuditChain.LastHashPinsRows | src/store/logs.rs:188-250 | for any hash, if besides one chain's fields contain no bar, the rows are identical, with the same two exceptions |
| AuditChain.VerifierUncovered | src/store/logs.rs:148-167 | changing a row's verifier keeps the chain and its last hash |

## Left out

- Sockets, threads, HTTP, DoH, listeners, the MySQL and Redis clients: the
  network is an arbitrary function of server, query and time, the shared tier a
  map with expiry whose reads and writes always succeed, the audit table a
  sequence whose inserts may fail.
- UDP exchange, TCP fallback and per-server timeouts (src/resolve/recurse.rs:327-371):
  one exchange either gives a parsed message or nothing, and takes at least one tick.
- Text that is not ASCII: UTF-8 decoding of labels (lossy in the source) and
  Unicode lower-casing; names, keys and audit fields are byte strings.
- Error texts and log output; failures are distinguished by cause only.
- File-system failures and fsync: writes append what they are given, and the only
  damage to a file is a torn or altered record; `max_file_bytes` and the timer only
  decide when compaction runs.
- Poisoned locks and a singleflight leader that panics.
- Rounding of the limiter's floating-point tokens: `Limiter` uses reals.
- SHA-256 itself: any function to 32 bytes, with no assumption of collision
  freedom; a collision among the rows at hand is an explicit alternative of the
  results. The text form of IPv6 addresses: any text that meets `Writes`.
- Several clock readings within one cache operation: `Tiered` takes one instant
  per operation, so a pause inside an operation adds to the bound of `HitWindow`.
- `NameDecoding.ReadName`: names of up to 254 labels are guaranteed to read back;
  the reader's limit of 256 steps needs one for a pointer and one for the root.
- `TieredRuns.HitWindow`: its restarts find no torn record, since with one the
  window fails (`TornLogForgets`; `L2Crashes` has the exact fate of each key in L2).
  Operations on the tiers are atomic and compaction is uninterrupted: what an
  operation of another thread in the middle of a promotion does is only shown by
  `DeleteDuringPromotionUndone`, and the tiers over an interleaved compaction are
  not modelled (`L2Interleaving` treats L2 alone). The first L2 file is empty.
- `L2Damage.OneByteDamage`: a changed length field makes the checksum cover other
  bytes, so whether the record is still read depends on the hash of those.
- `WalkOutcomes.ResolutionMeets`: says what a walk does with the outcomes of its
  nested lookups; those are walks of the same kind, named by `Recursion.Iterative`.
- `L2Reopen.ReopenAgrees`: its runs start on an empty file and end at the first
  crash; `L2Crashes.CrashesExactly` and `ReopenAgreesExactly` have neither limit.
- `purge_prefix` of the tiered cache, which only reaches L1 (src/cache/mod.rs:101-105).
- Custom zones, block lists and dual-stack bindings: they answer before the cache
  and the resolver are reached, from tables an operator loads.
- The IP location database: its lookup takes byte offsets for record numbers
  (src/resolve/qqwry.rs:89-111), so no statement about searching it would hold.
- The query log's batching, configuration and the management API: they neither
  change nor read the state modelled here.
- Building queries, EDNS insertion, ECS clamping and echo, and `msg_ttl`: they
  choose the messages and ttls that enter the model, which allows any.
