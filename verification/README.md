# DaeNext, modelled in Dafny

DaeNext is a transparent proxy: it answers and caches DNS, classifies packets in the
kernel, merges configuration files and ships TLS fingerprint fixtures.  This project
models the parts of it whose correctness is least obvious and proves what they promise.
The modules are independent of each other except within a subject.

* **DNS names** (`DnsName`, `DnsText`, `DnsRoundTrip`).  RFC 1035 names with compression
  (section 4.1.4), size limits (sections 2.3.4 and 3.1) and escapes (section 5.1) are decoded
  twice, by an offset scanner and by a label iterator, and printed and encoded.  One
  recursive expansion is the meaning of a name; every decoder is proved equal to it, and
  encoder and printer undo each other.
* **Cache identity** (`DnsKey`, `DnsIdentity`, `DnsQuestionMatch`).  Cache keys are compared and
  hashed without building strings, from text or straight from the wire.  All routes agree with
  the canonical name, except for text that ends in an open escape and keys that end in two dots,
  where the exact exceptions are proved.
* **Editing packets in place** (`DnsReads`, `DnsTtl`, `DnsReuse`, `DnsRestore`,
  `DnsFingerprint`).  TTLs are zeroed or capped, and a cached response is made to answer
  another request, while compression pointers may refer to octets being overwritten.
  `DnsReads` says which octets a name depends on; the rest follows from it, with examples
  where a condition is needed.
* **The cache store** (`CacheEntries`, `CacheStore`).  A short list and a hash table with a
  deadline index are both the same finite map; eviction, sweeps and rolled-back transactions
  keep the counters in balance over every run.
* **ClientHello normaliser** (`ClientHello`, `ClientHelloNormalizer`).  A TLS record (section
  4.1.2 of RFC 8446) is parsed, repeats are collapsed, the padding extension (RFC 7685) grows by
  what was removed, and the record is rebuilt with its nested lengths.
* **Upstream resolver** (`Upstream`).  A single-flight refresh with waiters and stale reuse, as
  a step system over any number of callers.
* **UDP payload pool** (`PayloadPool`, `PoolPressure`).  Sharded buffers with byte accounting,
  and the race between recycling and a pressure trim as a step system over threads.
* **Rule evaluation** (`Routing`, `RoutingCompile`).  The one-pass loop over flattened rules
  equals the grouped first-match meaning, and the compiler that flattens rules preserves it.
* **Configuration merge** (`Wildcard`, `Sections`, `IncludeTree`, `Merger`).  The stateful
  depth-first merge equals concatenating the files of the include tree in preorder; its circular
  and duplicate reports come with the places in the tree that justify them.
* **Smaller subjects**: dependency cycles (`Cycles`), durations (`Duration`, `DurationText`), and
  the packet classifier (`PacketSpec`, `PacketFrames`, `PacketParser`).

`Bytes` and `Decimal` hold octets, 16-bit fields and decimal numerals.

Where code works step by step it is a method or a class with the same loop and the same
fields, proved against a specification function or relation; the laws are then proved of that
specification.  Clocks, the file system, the resolver callbacks, the owner's transaction and the
domain matcher are parameters.  Machine integers are written out where they matter (16-bit
lengths, the pool's saturating counts, the duration parser's 128-bit arithmetic).

Six things the source does not promise in so many words, or promises and does not quite keep:

* `canonical_name_lowercase` is not idempotent: text such as `a\` gains a dot, which a second
  pass reads as escaped.  A cache key then matches a view that hashes differently.
  `DnsIdentity.CanonicalNameTwice`, `MatchingViewHash` and `KeyRoundTrip` give the exact condition.
* A key whose name ends in two dots, such as `a..`, matches the question `a.` but hashes
  differently, so the list backend finds it and the table backend does not
  (`DnsQuestionMatch.MatchHashesAlike` gives the exact condition).
* Restoring a request into a response can move a compressed name that reads a letter of the
  question as the second octet of a compression pointer.  Names are preserved if restoring
  does not change such a letter, nor an octet of the identifier or the flags that they read
  (`DnsRestore.RestoredKeepsName`, `DnsRestore.MidLabelNameMoves`).
* Zeroing TTLs can change a name that points into a TTL field; names whose TTL octets, if
  any, kept their values are preserved (`DnsTtl.TtlRewriteKeepsNames`, `DnsTtl.NameInsideTtl`).
* The pool's saturating byte count is exact unless the true sum exceeds the machine word
  (`PayloadPool.PushExactly`), which takes buffers that fill the address space
  (`PayloadPool.CountSaturates`).
* The duration parser adds a fraction without an overflow check, so a term of 36 digits can
  wrap to a negative count.  `Duration.TermIsTruncated` gives the exact condition for a term,
  `Duration.ParseIsSum` the whole result when no term wraps, and `Duration.WrappedTextParses` a
  text far beyond 128 bits that parses to 171 nanoseconds.

## Model

| member | source | states |
|---|---|---|
| `DnsName.ScanDnsName` | crates/dae-dns/src/name.rs:6-59 | the offset scanner succeeds exactly when the name expands (at most 16 jumps, so pointer loops end) to at most 255 octets, and returns the end of that expansion; every packet, offset, scope and compression flag |
| `DnsName.NameLabels.NextLabel` | crates/dae-dns/src/name.rs:92-141 | each call of the label iterator yields the next label of the expansion; the root is reported exactly at its end with the consumed offset equal to the expansion's end; an error is reported only for a malformed or overlong name; every call makes progress |
| `DnsName.NameLabels.TakeLabel` | crates/dae-dns/src/name.rs:118-139 | the part of the iterator after pointers: take one label, or the root, within scope and size limits |
| `DnsName.CollectLabels` | crates/dae-dns/src/name.rs:144-162 | draining the iterator gives the same answer as the scanner, with the labels: both equal the one expansion |
| `DnsText.AppendLabel` | crates/dae-dns/src/name.rs:170-182 | appends exactly the escaped text of the label |
| `DnsText.CanonicalWireName` | crates/dae-dns/src/name.rs:247-257 | the canonical text of the expansion, for every wire input |
| `DnsText.PrintName` | crates/dae-dns/src/name.rs:247-257 | the printing loop over the iterator, for any offset and scope |
| `DnsText.ReadName` | crates/dae-dns/src/message.rs:335-346 | `read_name` returns text and end of the one expansion; its second pass over the name cannot fail once the scan succeeded |
| `DnsText.EncodeDnsNameInto` | crates/dae-dns/src/name.rs:186-245 | succeeds exactly when the text reads as labels of 1 to 63 octets and 255 octets in all, then appends exactly their wire form; on error the destination is unchanged |
| `DnsText.Encoder.TakeDot` | crates/dae-dns/src/name.rs:196-215 | a dot closes the open label in the scratch buffer, or stops the encoder exactly when the text is finished or invalid there |
| `DnsText.Encoder.TakeOctet` | crates/dae-dns/src/name.rs:216-238 | an octet or escape extends the open label in the scratch buffer, or is refused for exactly the texts that cannot be encoded |
| `DnsText.PutLength` | crates/dae-dns/src/name.rs:200-244 | writing the length octet of the open label turns the buffer into the wire form of one more label |
| `DnsRoundTrip.TextRoundTrip` | crates/dae-dns/src/name.rs:166-245 | reading canonical text gives the labels back, lower-cased |
| `DnsRoundTrip.CanonicalTextInjective` | crates/dae-dns/src/name.rs:166-182 | two label lists have the same canonical text exactly when they are equal up to ASCII case |
| `DnsRoundTrip.UncompressedIsWire` | crates/dae-dns/src/name.rs:6-59 | an uncompressed name consumed in full is the wire form of its labels |
| `DnsRoundTrip.WireRoundTrip` | crates/dae-dns/src/name.rs:186-257 | encoding the canonical text of an accepted uncompressed wire name gives back its octets, lower-cased |
| `DnsRoundTrip.WireExpands` | crates/dae-dns/src/name.rs:6-59 | the wire form of a label list, anywhere in a packet, expands to those labels and ends where it ends |
| `DnsRoundTrip.EncodedNameDecodes` | crates/dae-dns/src/name.rs:186-257 | an encoded name, placed anywhere in a packet, decodes to the labels of its text |
| `DnsKey.CanonicalNameLowercase` | crates/dae-dns/src/cache_key.rs:153-175 | the program's route through encoder and wire printer equals the direct definition of the canonical name |
| `DnsKey.CanonicalTextFixed` | crates/dae-dns/src/cache_key.rs:153-175 | canonical text of a name that fits on the wire is its own canonical form |
| `DnsKey.TrimIsTrimmed` | crates/dae-dns/src/cache_key.rs:153-175 | trimming (Unicode white space in UTF-8) leaves nothing to trim |
| `DnsIdentity.CanonicalNameTwice` | crates/dae-dns/src/cache_key.rs:153-175 | canonicalising twice changes nothing exactly when the text does not end in an open escape that a final dot completes; false otherwise |
| `DnsIdentity.StreamIsCanonical` | crates/dae-dns/src/cache_key.rs:74-93 | the octets hashed for a spelling are its canonical name and a terminator |
| `DnsIdentity.HashCanonicalWireName` | crates/dae-dns/src/cache_key.rs:95-137 | for any octets, well-formed or not, what is hashed is the text of the labels up to the fault or the end and a terminator; for an accepted name it is what is hashed for its text |
| `DnsIdentity.WireAndTextHashAgree` | crates/dae-dns/src/cache_key.rs:63-137 | the stream of an accepted wire name equals the stream of its canonical text |
| `DnsName.PlainIsExpand` | crates/dae-dns/src/cache_key.rs:95-137 | the label walk without pointers ends at the root exactly when the name is well-formed, with the same labels |
| `DnsIdentity.MatchIsCanonical` | crates/dae-dns/src/cache_key.rs:177-189 | the allocation-free comparison holds exactly when the candidate canonicalises to the key's name |
| `DnsIdentity.KeyMatchesView` | crates/dae-dns/src/cache_key.rs:27-32 | a key matches a view exactly when building a key from the view gives that key |
| `DnsIdentity.MatchingViewHash` | crates/dae-dns/src/cache_key.rs:34-61 | a matching view hashes like the key exactly when the view has no open escape |
| `DnsIdentity.OpenEscapeExample` | crates/dae-dns/src/cache_key.rs:34-61 | the view `a\` matches its key and hashes differently |
| `DnsIdentity.KeyTextParses` | crates/dae-dns/src/cache_key.rs:46-50 | the text of a key parses back to its parts |
| `DnsIdentity.KeyRoundTrip` | crates/dae-dns/src/cache_key.rs:191-221 | parsing the text of a key gives the key back exactly when its name had no open escape |
| `DnsQuestionMatch.WireNameEqCanonical` | crates/dae-dns/src/message/packet_view.rs:242-282 | for every octet string and every text: the stated match for an accepted name; otherwise an error or the verdict of the first differing label |
| `DnsQuestionMatch.CompareLabels` | crates/dae-dns/src/message/packet_view.rs:252-281 | the first label that differs from its part decides, otherwise the end of the name does: match, too few labels, or an error |
| `DnsQuestionMatch.ReadSplit` | crates/dae-dns/src/message/packet_view.rs:251-252 | text without escapes reads as the parts between its dots exactly when none is empty |
| `DnsQuestionMatch.MatchHashesAlike` | crates/dae-dns/src/cache/entries.rs:102-119 | a question that matches a key made from any name hashes like it, so that list and table backends find the same entry, exactly when the key's name does not end in two unescaped dots |
| `DnsQuestionMatch.TwoDotsExample` | crates/dae-dns/src/cache/entries.rs:102-119 | the key `a..` matches the question `a.` in the list and is missed in the table |
| `DnsQuestionMatch.CanonicalQuestionMatches` | crates/dae-dns/src/cache/entries.rs:368-376 | a key made from a name matches every question for that name |
| `DnsReads.ExpandByMove` | crates/dae-dns/src/name.rs:6-59 | decoding in terms of one move at a time: stop, jump or pass over a label |
| `DnsReads.CaseChangeKeepsName` | crates/dae-dns/src/name.rs:6-59 | changing only the case of letters a name reads, and no second octet of a pointer, leaves its labels the same up to case and its end the same: a letter is never a length or a pointer |
| `DnsReads.UntouchedKeepsName` | crates/dae-dns/src/name.rs:6-59 | a name is unchanged when every octet it reads is |
| `DnsTtl.ZeroAnswerTtls` | crates/dae-dns/src/hot_path.rs:225-245 | in place: succeeds exactly when the walk over the packet being overwritten does, and leaves its result |
| `DnsTtl.NormalizedPackedResponse` | crates/dae-dns/src/hot_path.rs:208-223 | identifier zeroed and, if asked, exactly the TTL fields of the answers zeroed, at the offsets that skipping names in the original gives; fails exactly when that walk does |
| `DnsTtl.ZeroRecord` | crates/dae-dns/src/hot_path.rs:225-245 | one record: name scanned, bounds checked, TTL zeroed, next offset |
| `DnsTtl.EditsOriginalRecords` | crates/dae-dns/src/hot_path.rs:225-245 | although names are decoded from half-overwritten octets, the records edited are those that skipping names in the original packet finds |
| `DnsTtl.SuccessRewritesTtls` | crates/dae-dns/src/hot_path.rs:225-245 | a successful walk changes nothing but the TTL fields of those records, each to its prescribed value, and the fields do not overlap |
| `DnsTtl.TtlRewriteKeepsNames` | crates/dae-dns/src/hot_path.rs:225-245 | every name whose TTL octets, if it reads any, kept their values keeps its labels and end |
| `DnsTtl.RecordsStay` | crates/dae-dns/src/hot_path.rs:225-245 | the rewritten packet has its records at the same places |
| `DnsTtl.NameInsideTtl` | crates/dae-dns/src/hot_path.rs:225-245 | the condition matters: a name that points into a TTL field changes when it is zeroed |
| `DnsTtl.CapDnsResponseTtls` | crates/dae-dns/src/hot_path/negative.rs:98-118 | in place, on all three record sections: succeeds exactly when the packet parses and the walk succeeds, and then every TTL above the limit is the limit, OPT records excepted, and nothing else changed |
| `DnsTtl.CapResponseTtls` | crates/dae-dns/src/hot_path/negative.rs:104-117 | the loop over the records, exactly when its walk succeeds |
| `DnsTtl.CapRecord` | crates/dae-dns/src/hot_path/negative.rs:98-118 | one record of the capping walk |
| `DnsTtl.ReadRecord` | crates/dae-dns/src/hot_path/negative.rs:98-118 | the checks before a record is written |
| `DnsTtl.CapAgain` | crates/dae-dns/src/hot_path/negative.rs:98-118 | capping to a limit and then to a lower one is capping to the lower one |
| `DnsReuse.ValidateQuestionSection` | crates/dae-dns/src/message/packet_view.rs:208-217 | the loop over questions finds the answer offset exactly when the question section parses |
| `DnsReuse.QuestionsFound` | crates/dae-dns/src/message/packet_view.rs:208-228 | the parse finds exactly the sequences of adjacent well-formed questions |
| `DnsReuse.ParsedExactly` | crates/dae-dns/src/message/packet_view.rs:31-46 | a view is what parsing its packet returns exactly when its question ends are those of the packet |
| `DnsReuse.ValidateResponseForRequest` | crates/dae-dns/src/message/packet_view.rs:143-191 | accepts exactly responses with the response bit, and the identifier if it is required, whose questions, if the request has any, match one by one in name up to case, type and class |
| `DnsReuse.SameOffsets` | crates/dae-dns/src/message/packet_view.rs:122-141 | matching questions sit at the same offsets in both packets |
| `DnsReuse.RestorableExactly` | crates/dae-dns/src/reuse.rs:50-60 | what restoration accepts is exactly a response that repeats the request's questions; the offset comparison matters only for a request without questions |
| `DnsRestore.RestoreDnsResponseForRequest` | crates/dae-dns/src/reuse.rs:50-67 | in place: succeeds exactly on acceptable responses and leaves the restored response, otherwise leaves the buffer as it was |
| `DnsRestore.FlagsRestored` | crates/dae-dns/src/reuse.rs:63-65 | RD and CD come from the request, every other flag bit stays |
| `DnsRestore.RestoredUpToCase` | crates/dae-dns/src/reuse.rs:50-67 | past identifier and flags, restoring changes nothing but the case of letters in the question section; everything from the answers on is untouched |
| `DnsRestore.RestoredKeepsName` | crates/dae-dns/src/reuse.rs:49-67 | every name, compressed or not, keeps its end and its labels up to case, if restoring changes no octet of identifier and flags that it reads and not the case of a question letter that is the second octet of a pointer it follows |
| `DnsRestore.LetterFreeNamesKept` | crates/dae-dns/src/reuse.rs:49-67 | so do, whatever the request, names that read neither identifier nor flags and whose pointers' second octets are not question letters |
| `DnsRestore.CompressedNamesKept` | crates/dae-dns/src/reuse.rs:49-67 | in particular every name that enters the question section only at label starts; any number of questions |
| `DnsRestore.MidLabelNameMoves` | crates/dae-dns/src/reuse.rs:49-67 | the condition is needed: a name entering the question inside a label is moved by restoring a letter's case |
| `DnsRestore.RestoredAnswers` | crates/dae-dns/src/reuse.rs:50-67 | the result parses, answers the request with its identifier and its question octets, and restoring again changes nothing |
| `DnsRestore.RestoreLast` | crates/dae-dns/src/reuse.rs:50-67 | a response restored for one request and then another is as if restored for the last only |
| `DnsFingerprint.FingerprintExactly` | crates/dae-dns/src/reuse.rs:19-47 | two requests share fingerprint and question exactly when they are the same octets but for identifier and letter case of the name |
| `DnsFingerprint.HeaderKnown` | crates/dae-dns/src/reuse.rs:21-30 | a fingerprint fixes every header octet past the identifier |
| `DnsFingerprint.SameOpt` | crates/dae-dns/src/reuse.rs:31-42 | the parts of the EDNS record in the fingerprint fix the record (section 6.1.2 of RFC 6891) |
| `DnsFingerprint.ReuseServes` | crates/dae-dns/src/reuse.rs:50-60 | requests that ask the same accept the same responses |
| `CacheEntries.DnsCacheEntries.Get` | crates/dae-dns/src/cache/entries.rs:48-55 | both backends look up the same finite map |
| `CacheEntries.DnsCacheEntries.Insert` | crates/dae-dns/src/cache/entries.rs:158-177 | both backends update the same finite map and keep list distinctness or the deadline index |
| `CacheEntries.DnsCacheEntries.Remove` | crates/dae-dns/src/cache/entries.rs:179-191 | both backends remove the key, by swap or with its deadline record |
| `CacheEntries.DnsCacheEntries.RemoveExpired` | crates/dae-dns/src/cache/entries.rs:243-274 | what is left are exactly the live entries; the count is the number of expired ones |
| `CacheEntries.DnsCacheEntries.RemoveExpiredEntries` | crates/dae-dns/src/cache/entries.rs:276-315 | exactly as many go as have expired, or the limit if that is less, all of them expired and returned; fewer than the limit only if nothing expired is left |
| `CacheEntries.DroppedCount` | crates/dae-dns/src/cache/entries.rs:276-315 | no more can go than have expired, and all have gone once only live entries are left |
| `CacheEntries.DnsCacheEntries.OldestKey` | crates/dae-dns/src/cache/entries.rs:340-365 | a key whose entry expires no later than any other, if there is one |
| `CacheEntries.OldestOfTable` | crates/dae-dns/src/cache/entries.rs:346-363 | whatever state the deadline index is in, the victim is in the table, so eviction progresses; an index in order gives the oldest |
| `CacheEntries.SweepList` | crates/dae-dns/src/cache/entries.rs:281-293 | the list loop with swap-removal drops exactly expired pairs |
| `CacheEntries.SweepTable` | crates/dae-dns/src/cache/entries.rs:294-313 | whatever state the index is in: the earliest records are taken, at most the limit, and exactly the entries they describe are dropped, all expired; an index in order stays in order and every record taken drops its entry |
| `CacheEntries.IndexInsert` | crates/dae-dns/src/cache/entries.rs:169-175 | updating the index for a changed entry gives the index of the new table |
| `CacheEntries.FirstIsOldest` | crates/dae-dns/src/cache/entries.rs:259-270 | the first deadline record belongs to an entry that expires first |
| `CacheStore.DnsCacheStore.InsertEntry` | crates/dae-dns/src/cache.rs:112-120 | the whole effect of an insertion on contents and counters |
| `CacheStore.DnsCacheStore.InsertOwned` | crates/dae-dns/src/cache.rs:96-99 | the same with the key as the entry's routing owner |
| `CacheStore.DnsCacheStore.LookupRef` | crates/dae-dns/src/cache.rs:131-155 | the whole effect of a lookup: only an entry past both deadlines is removed |
| `CacheStore.DnsCacheStore.SweepEntriesLimited` | crates/dae-dns/src/cache.rs:222-241 | a bounded sweep and its counters |
| `CacheStore.DnsCacheStore.RestoreSweptEntries` | crates/dae-dns/src/cache.rs:247-260 | entries put back, counters reduced by as many |
| `CacheStore.DnsCacheStore.EvictEntries` | crates/dae-dns/src/cache.rs:374-387 | expired entries go first; then the oldest, only while the store is full |
| `CacheStore.DnsCacheStore.MakeRoom` | crates/dae-dns/src/cache.rs:379-386 | the eviction loop drops as few of the oldest entries as make room |
| `CacheStore.DnsCacheStore.InsertWithEviction` | crates/dae-dns/src/cache/transactions.rs:8-40 | a failed owner transaction leaves contents and counters as they were; a successful one evicts only the oldest and counts them |
| `CacheStore.RunBalanced` | crates/dae-dns/src/cache.rs:112-260 | in every state of every run: new keys inserted equal current size plus removals counted, expired removals never exceed removals, size never exceeds capacity |
| `CacheStore.StepBalanced` | crates/dae-dns/src/cache.rs:112-260 | every operation keeps that balance |
| `CacheStore.SweepRestored` | crates/dae-dns/src/cache.rs:218-260 | a sweep whose entries are all restored leaves contents and counters as they were |
| `CacheStore.LiveEvictedOnlyWhenFull` | crates/dae-dns/src/cache.rs:374-387 | a live entry is evicted only for a new key, from a store still full after all expired entries went, and only if no survivor expires earlier |
| `ClientHello.CollapseBlock` | tools/utls-fixture-generator/main.go:277-284 | the dedup loop collapses exactly the runs of the one value |
| `ClientHello.CollapseNoRepeat` | tools/utls-fixture-generator/main.go:277-284 | no adjacent repeat is left |
| `ClientHello.CollapseFixed` | tools/utls-fixture-generator/main.go:277-284 | nothing is removed exactly when nothing repeats |
| `ClientHello.ParsedSerializes` | tools/utls-fixture-generator/main.go:225-344 | a parsed record has consistent nested lengths and serialises to itself |
| `ClientHello.SerializedParses` | tools/utls-fixture-generator/main.go:346-376 | a well-formed hello is read back from its record |
| `ClientHello.NormalizedWellFormed` | tools/utls-fixture-generator/main.go:346-376 | collapsing and growing the padding keeps the total length and every nested length; no 16-bit length can overflow |
| `ClientHello.NormalizedFixed` | tools/utls-fixture-generator/main.go:346-376 | a normalised hello has nothing left to collapse |
| `ClientHello.NormalizeRecordLaws` | tools/utls-fixture-generator/main.go:225-377 | on success the output has the same length, parses to the normalised hello, and normalising again changes nothing |
| `ClientHelloNormalizer.NormalizeClientHelloRecord` | tools/utls-fixture-generator/main.go:225-377 | the imperative normaliser computes exactly that function, errors included; its final length check cannot fail |
| `ClientHelloNormalizer.ReadExtensions` | tools/utls-fixture-generator/main.go:297-344 | the cursor loop over extensions: errors exactly on malformed blocks or a second padding extension |
| `ClientHelloNormalizer.ReadExtension` | tools/utls-fixture-generator/main.go:297-335 | one extension and its collapsed form |
| `ClientHelloNormalizer.CollapseSchemes` | tools/utls-fixture-generator/main.go:308-335 | the signature list dedup, with its inner length |
| `ClientHelloNormalizer.Finish` | tools/utls-fixture-generator/main.go:346-376 | padding grown in place and the record rebuilt, or an error exactly when octets were removed and there is no padding |
| `ClientHelloNormalizer.Rebuild` | tools/utls-fixture-generator/main.go:357-376 | the appended slices are the serialisation |
| `Upstream.ResolverState.EnterSection` | crates/dae-dns/src/upstream.rs:80-110 | the first critical section on the state's fields |
| `Upstream.ResolverState.FinishSection` | crates/dae-dns/src/upstream.rs:145-182 | the second critical section on the state's fields |
| `Upstream.StepSafe` | crates/dae-dns/src/upstream.rs:80-182 | every step of every caller keeps single flight, the history reading of the state, and right replies |
| `Upstream.RunSafe` | crates/dae-dns/src/upstream.rs:80-182 | so does every run, with any number of callers |
| `Upstream.NeverLost` | crates/dae-dns/src/upstream.rs:80-182 | after a success the upstream stays, every later completed refresh returns Ok, and so do later cached replies |
| `Upstream.CountersAddUp` | crates/dae-dns/src/upstream.rs:145-182 | successes plus failures are the completed refreshes, stale reuses at most the failures |
| `Upstream.RefreshOnlyWhenDue` | crates/dae-dns/src/upstream.rs:80-110 | a refresh starts only when none is in flight and its time has come |
| `Upstream.RefreshCanComplete` | crates/dae-dns/src/upstream.rs:112-182 | a refresh in flight can always complete, whatever its outcome |
| `PayloadPool.UdpPayloadPool.constructor` | crates/dae-datapath/src/udp_io.rs:96-120 | a fresh pool is valid and its shard budgets sum to the configured total |
| `PayloadPool.UdpPayloadPool.Take` | crates/dae-datapath/src/udp_io.rs:147-184 | the buffer handed out is empty with at least the requested capacity; the shard's accounting stays exact |
| `PayloadPool.UdpPayloadPool.Recycle` | crates/dae-datapath/src/udp_io.rs:215-237 | a buffer is retained only within the shard's budgets and not under pressure |
| `PayloadPool.UdpPayloadPool.TrimIdle` | crates/dae-datapath/src/udp_io.rs:122-145 | every shard trimmed, the released bytes reported, the flag set |
| `PayloadPool.PopKeepsShard` | crates/dae-datapath/src/udp_io.rs:147-184 | taking keeps the count exact, also when a fresh buffer is subtracted from an empty shard |
| `PayloadPool.PushKeepsShard` | crates/dae-datapath/src/udp_io.rs:215-237 | recycling keeps the count exact and the shard within its budgets |
| `PayloadPool.PushExactly` | crates/dae-datapath/src/udp_io.rs:226-236 | the saturating count stays exact exactly when the true sum fits the machine word |
| `PayloadPool.CountSaturates` | crates/dae-datapath/src/udp_io.rs:226-236 | a shard within its budgets where it fails: 2^48 buffers of 64 KiB under a saturated byte budget |
| `PayloadPool.TrimKeepsShard` | crates/dae-datapath/src/udp_io.rs:122-145 | trimming keeps the count exact |
| `PayloadPool.TrimShard` | crates/dae-datapath/src/udp_io.rs:128-143 | the loop on one shard computes the trimmed shard and the released bytes |
| `PayloadPool.SharesAddUp` | crates/dae-datapath/src/udp_io.rs:96-118 | shard budgets sum to the configured total |
| `PoolPressure.RunKeepsInv` | crates/dae-datapath/src/udp_io.rs:122-237 | every interleaving keeps locks, thread states and shard accounting consistent and every shard's budgets as they were |
| `PoolPressure.RunKeepsTotal` | crates/dae-datapath/src/udp_io.rs:96-237 | under every interleaving the idle buffers of all shards together never exceed the sum of the budgets at the start |
| `PoolPressure.StepKeepsInv` | crates/dae-datapath/src/udp_io.rs:122-237 | every atomic step does |
| `PoolPressure.TrimMakesQuiet` | crates/dae-datapath/src/udp_io.rs:122-145 | a pressure trim leaves the shard it passes empty with no refill under way |
| `PoolPressure.PassedShardStaysEmpty` | crates/dae-datapath/src/udp_io.rs:122-237 | the shard stays empty until the flag is cleared, also against leases whose first check came earlier |
| `Routing.MatchLoop` | crates/dae-dns/src/routing.rs:180-210 | the two-flag loop answers with the target of the first rule whose every OR-group, negated by its last member, holds; an error exactly when none does |
| `Routing.MatchRequest` | crates/dae-dns/src/routing.rs:180-230 | the same for requests, with hits from query type and domain bitmap |
| `Routing.MatchResponse` | crates/dae-dns/src/routing.rs:343-422 | the same for responses, with addresses and upstream |
| `Routing.AnswerUnique` | crates/dae-dns/src/routing.rs:180-210 | that meaning has one answer |
| `Routing.FallbackDecides` | crates/dae-dns/src/routing.rs:180-210 | when no earlier rule wins, a stand-alone final fallback answers exactly if it has a real target and is not negated |
| `Routing.FallbackMakesTotal` | crates/dae-dns/src/routing.rs:180-210 | such a fallback makes matching total |
| `Routing.BitmapHasPacked` | crates/dae-dns/src/routing.rs:522-527 | reading a bit of packed words gives the bit that was packed |
| `RoutingCompile.BuildRequestMatcher` | crates/dae-resident-dns/src/runtime/routing.rs:76-113 | no matcher exactly for an empty configuration; otherwise emits exactly the compiled sets and domain registrations, and fails exactly on an expansion error, a malformed rule or an unknown fallback |
| `RoutingCompile.AddRule` | crates/dae-resident-dns/src/runtime/routing.rs:173-226 | one rule: every function but the last closed by AND, the last by the rule's target |
| `RoutingCompile.AddFunction` | crates/dae-resident-dns/src/runtime/routing.rs:173-226 | one function: its groups joined by OR |
| `RoutingCompile.AddGroup` | crates/dae-resident-dns/src/runtime/routing.rs:289-335 | one group of names or query types; refused exactly for an unsupported key or function, refused patterns, no values, or a value that is no query type |
| `RoutingCompile.CompiledMeaning` | crates/dae-resident-dns/src/runtime/routing.rs:76-113 | the flat sets mean what the rules mean: the first rule all of whose functions hold, else the fallback |
| `RoutingCompile.CompiledRequestAnswer` | crates/dae-resident-dns/src/runtime/routing.rs:76-113 | whatever the matcher answers on compiled rules is the meaning of the rules, for every query |
| `Wildcard.WildcardMatchBytes` | crates/dae-config/src/merger.rs:391-416 | the row-by-row matcher equals the recursive definition of `*`, `?` and literal octets |
| `Wildcard.NextRow` | crates/dae-config/src/merger.rs:396-413 | one row of the table from the one before |
| `Wildcard.MatchesSnoc` | crates/dae-config/src/merger.rs:754-770 | the left-to-right recursion seen from the right end of the pattern |
| `Sections.ConvertSectionsToMap` | crates/dae-config/src/merger.rs:244-253 | groups the sections by name, items in order |
| `Sections.MergeInto` | crates/dae-config/src/merger.rs:235-237 | the merge loop, whatever the order of names |
| `Sections.GroupsMerge` | crates/dae-config/src/merger.rs:235-237 | merging a child appends its sections to the father's |
| `Sections.GroupsUnique` | crates/dae-config/src/merger.rs:244-253 | a grouping by name is determined by the sections |
| `IncludeTree.SortPaths` | crates/dae-config/src/merger.rs:306-307 | the same paths, in order |
| `IncludeTree.LimitsOnTotals` | crates/dae-config/src/merger.rs:61-161 | checking the limits file by file is checking them on the totals, and no file twice |
| `Merger.Merger.ReadEntry` | crates/dae-config/src/merger.rs:61-161 | reads a file exactly when it is readable, new and within limits; reports circular exactly for an ancestor and duplicate exactly for a visited non-ancestor |
| `Merger.Merger.Charge` | crates/dae-config/src/merger.rs:79-153 | opens, measures and parses a file against the limits |
| `Merger.Merger.DfsMerge` | crates/dae-config/src/merger.rs:163-242 | succeeds exactly when the tree can be read within what is left of the limits; then the file's map holds its tree's sections, its father's map has them appended, the stack is as before; a circular or duplicate report means the tree repeats a file or holds one visited before |
| `Merger.Merger.MergeChildren` | crates/dae-config/src/merger.rs:218-221 | the loop over the children |
| `Merger.Merger.ChildEntries` | crates/dae-config/src/merger.rs:190-218 | include items to sorted child paths, or an error |
| `Merger.MergeConfigFile` | crates/dae-config/src/merger.rs:23-44 | succeeds exactly when the include tree is readable, no file occurs twice and the totals are within limits; the result is the sections of the files in preorder grouped by name; a circular report has a place in the tree whose file is also on the way to it, a duplicate report two different places of one file, with no place of that file on the way to the second, and under either the tree, if it can be listed, repeats a file |
| `Merger.CircularPlaceWalks` | crates/dae-config/src/merger.rs:61-72 | a place whose file is on the way to it gives an include walk back to a file on it |
| `Merger.CircularNeverMerges` | crates/dae-config/src/merger.rs:61-72 | an include walk that returns to a file on it excludes success |
| `Merger.CircularIsTooDeep` | crates/dae-config/src/merger.rs:61-72 | where paths to the same file read the same contents, the tree of such a walk cannot be listed within the depth limit at all |
| `Merger.ReadIsReachable` | crates/dae-config/src/merger.rs:163-242 | the files read are exactly those reachable by includes |
| `Cycles.DependencyCycles` | scripts/architecture/check_dependencies.py:279-306 | empty exactly when the graph is acyclic; every entry renders a closed walk along edges that meets each node once; no entry twice |
| `Cycles.CycleFinder.Visit` | scripts/architecture/check_dependencies.py:288-301 | the recursive visit finishes its node and terminates, since each call turns one unseen node grey |
| `Cycles.CycleFinder.FollowAll` | scripts/architecture/check_dependencies.py:291-299 | the loop over targets: without cycles every target is finished |
| `Cycles.CycleFinder.Report` | scripts/architecture/check_dependencies.py:294-299 | a grey target yields a cycle from the stack, added once |
| `Cycles.RankedIsAcyclic` | scripts/architecture/check_dependencies.py:288-306 | finish order is a rank along which every edge falls, so there is no cycle |
| `Duration.PrintParses` | crates/dae-config-util/src/duration.rs:60-228 | parsing the printed text of any 64-bit count, the minimum included, gives the count back |
| `Duration.PrintInjective` | crates/dae-config-util/src/duration.rs:60-97 | different counts print differently |
| `Duration.FractionExact` | crates/dae-config-util/src/duration.rs:222-228 | nine digits without trailing zeros stand for exactly the nanoseconds printed |
| `Duration.WholeTerm` | crates/dae-config-util/src/duration.rs:117-180 | a whole number and a unit parse to their product |
| `Duration.TermIsTruncated` | crates/dae-config-util/src/duration.rs:144-171 | a term is the number times the unit rounded down to a nanosecond, and wraps to a negative count exactly when that exceeds 128 bits |
| `Duration.TermCanWrap` | crates/dae-config-util/src/duration.rs:144-171 | a term of 36 digits and a fraction that wraps, and the negative count it gives |
| `Duration.ParseIsSum` | crates/dae-config-util/src/duration.rs:99-187 | unless some term wraps, a text parses exactly when it is made of terms, no intermediate value exceeds 128 bits and the signed sum fits 64; the result is that sum of the terms, each rounded down to a nanosecond |
| `Duration.WrappedTextParses` | crates/dae-config-util/src/duration.rs:144-180 | a text of two terms far beyond 128 bits that parses to 171 nanoseconds, because one of them wraps |
| `DurationText.ParseDuration` | crates/dae-config-util/src/duration.rs:99-187 | the parser loop computes the value of the text, overflow and syntax errors included |
| `DurationText.ParseOneTerm` | crates/dae-config-util/src/duration.rs:117-172 | one term: number, unit, checked arithmetic |
| `DurationText.ScanNumber` | crates/dae-config-util/src/duration.rs:118-139 | the number at a position, with or without a fraction |
| `DurationText.Format` | crates/dae-config-util/src/duration.rs:60-97 | the printer writes exactly the specified text |
| `DurationText.WriteSecondsFraction` | crates/dae-config-util/src/duration.rs:222-228 | the loop that drops trailing zeros |
| `PacketParser.ParsedPacket.Parse` | crates/dae-ebpf-program/src/packet.rs:239-310 | every frame is read back to exactly its addresses, ports, protocol and tag stack with code 0, every later fragment gets its refusal code, ports are nonzero only with code 0, and the fields are what the value-level definition says |
| `PacketParser.ParsedPacket.RecordVlan` | crates/dae-ebpf-program/src/packet.rs:203-223 | records one tag at its depth, or refuses a third |
| `PacketParser.ParsedPacket.WalkTags` | crates/dae-ebpf-program/src/packet.rs:272-302 | the tag loop, which uses the port fields as scratch space and leaves them zero |
| `PacketParser.ParsedPacket.ReadIpv4` | crates/dae-ebpf-program/src/packet.rs:313-350 | IPv4 header in place: mapped addresses, DSCP, protocol, header length checked, later fragments refused, then the upper header |
| `PacketParser.ParsedPacket.ReadIpv6` | crates/dae-ebpf-program/src/packet.rs:353-419 | IPv6 header in place: addresses, DSCP, extension chain, then the upper header; more than eight extensions refused |
| `PacketParser.ParsedPacket.ReadL4` | crates/dae-ebpf-program/src/packet.rs:422-476 | ports and flags of TCP, ports of UDP, type of ICMPv6, in place; nothing else is touched |
| `PacketParser.WalkExtensions` | crates/dae-ebpf-program/src/packet.rs:378-411 | the extension header loop, at most eight headers |
| `PacketFrames.FrameParses` | crates/dae-ebpf-program/src/packet.rs:239-476 | every frame of an optional Ethernet header, at most two tags counting an accelerated one, IPv4 with any legal header length or IPv6 with up to eight extension headers, and TCP or UDP parses to exactly its addresses, ports, protocol and tag stack |
| `PacketFrames.ExtensionsWalked` | crates/dae-ebpf-program/src/packet.rs:378-411 | any legal chain of extension headers is walked to the upper header |
| `PacketFrames.TagsWalked` | crates/dae-ebpf-program/src/packet.rs:272-299 | any legal stack of in-frame tags is walked to the network header |
| `PacketFrames.TagsKept` | crates/dae-ebpf-program/src/packet.rs:203-223 | the recorded metadata and contents determine the tag stack |
| `PacketFrames.LaterFragmentHasNoPorts` | crates/dae-ebpf-program/src/packet.rs:332-410 | octets of an IPv4 header with a nonzero fragment offset, or of an IPv6 header with any number of extension headers before a fragment header with a nonzero offset, behind any link header and tags, are refused with the stated code and leave both ports zero |
| `PacketFrames.WalkedToFragment` | crates/dae-ebpf-program/src/packet.rs:378-411 | however long the chain before it, the extension walk notices a later fragment or gives up before it |
| `PacketFrames.ChainIsAt` | crates/dae-ebpf-program/src/packet.rs:378-411 | extension headers written one after the other are found one after the other, each naming the next |
| `PacketFrames.LinkParses` | crates/dae-ebpf-program/src/packet.rs:239-302 | link header and tags are read in full whatever they carry |
| `PacketFrames.ParseIsFaithful` | crates/dae-ebpf-program/src/packet.rs:239-476 | the value-level parse has the three properties stated of the parser |
| `PacketSpec.PortsOnlyOnSuccess` | crates/dae-ebpf-program/src/packet.rs:239-476 | ports are nonzero only when the parser returns 0 |

## Left out

- Error messages and error variants everywhere, except circular and duplicate includes.
- Lock poisoning, panics and weak memory ordering: critical sections and atomic accesses are single steps, a panicking callback is a failed refresh.
- Sockets, system calls, file permissions, directory walks and path canonicalisation: files, canonical paths and the expansion of an include pattern are given by the world the merge runs in, which does not change during a run.
- Domain matching and address prefixes: a pattern set is a set of names, a prefix a set of addresses, and the domain bitmap is whatever the matcher registered for.
- The compiler for response rules, which adds conditions on upstreams and addresses and narrows the index of an address set to 16 bits (crates/dae-resident-dns/src/runtime/routing.rs:448); the rules of the request compiler are given with their patterns, query types and outbounds looked up, each None where the lookup fails.
- Plain removals (`remove`, `discard`) and the two-call capacity eviction: they only add easy members; removals that are not counted are outside the balance by design.
- Building whole messages: of `parse_message` only the name reader is modelled, answer records are walked but their data is not decoded.
- Negative caching and cache plans: the TTL walks are modelled, the choice of TTL is not.
- Which buffer contents a recycled vector keeps, and container shrinking in the pool.
- The order of section names and of entries in the merge output, which follows from the ordered maps.
- The lexer, parser and schema of configuration files: a file is its sections, or does not parse.
- `redirect_vlan.rs`, cgroup programs and map definitions, which rest on kernel helpers.
- PayloadPool.UdpPayloadPool.Take: the capacity a fresh or grown vector really gets is only bounded from below, as the allocator may give more.
- Cycles.DependencyCycles: proved for every order in which nodes and targets are visited, of which the source takes the sorted one, so the order of the entries is not stated.
- Merger.MergeConfigFile: does not say which of several errors is reported first.
- Duration.Parse: the one addition the source does not check is modelled as it behaves in an optimised build, where it wraps.
- DnsKey.CanonicalNameLowercase: text is UTF-8 octets; lower-casing is ASCII only, as in the source.
- PacketSpec.ParseTransport: offsets do not wrap at 32 bits, since packets are far smaller.
- Upstream.NeverLost: replies that time out while waiting for a refresh may still be errors, as in the source.
