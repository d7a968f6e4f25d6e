# The `ham0` lookup engine, modelled and proved

`callbook` answers one question: given a callsign, which station records do the installed `ham0` files
hold? It answers through fast mechanisms: a position-keyed XOR stream decoded in chunks, sentinel scans
from arbitrary offsets, an FNV-hashed key index with collisions, a two-pass binary search, a parser that
rejects a record before parsing it, reusable scratch buffers, a deduplicating iterator and a streaming
scanner. Each of them has to agree with something simple. This project states the simple thing and proves
the agreement, and then proves what the pipeline as a whole guarantees about every report.

Files are byte sequences and text is ASCII bytes. Code that changes state is modelled as methods, loops and
classes (`CallSnapshot`, `ByteBuffer`, `TextIdxIter`, `LookupCountIter`, `InterestSearchScan`,
`LookupScratch`, `BatchLookup`, `EntryIter`). Each method is proved equal to a specification function, or
carries the property itself, and the lemmas are about those functions.

## Main results

- **A lookup is a scan of the DAT.** Unless something reads astray for the query, and when the indexes reach every record
  of it, the vintages of a report are exactly those of the query's records and catalog row, a reported field has a value
  exactly when one of those of its vintage has, and that value is one of theirs (`DatScan.LookupIsScan`).
- **From plain record to report, through both indexes.** A printed record that is encoded anywhere in the DAT is
  reported by a lookup of its call, in the record of its vintage, with its source named and its fields shown: when an
  HCI posting of its key family lies somewhere inside it (`Publication.PublishedRecordIsReported`), and when a printed
  index line that names the call points in front of it, behind its sentinel or at its colon, also as a `:YYYY` record
  whose call comes from the index key (`IndexPublication.IndexedRecordIsReported`).
- **Conservation.** A report is exactly the folds of what a full scan of the catalog and of what both indexes lead to
  gives for the query (`LookupTheorems.ReportIsFolds`, `ArrivalsComplete`, `VintageReported`, `CurrentReported`).
  Nothing is lost, and every text but the last name is the first non-empty one in the order of arrival
  (`NothingLost`, `ReportedTexts`), which is catalog, index, postings (`Order.PartsBySource`); last name, raw tags, jurisdiction, codes and interests follow their own rules
  (`ReportedRest`, `ReportedCodes`); every reported text is the text of one of those snapshots (`NothingInvented`).
- **Down to the records of the file.** What the indexes lead to is not always a record: a posting that misses the query
  is answered from windows over its neighbours, whose last record may be cut off, and an index slice may start or end
  inside a record. `Pieces.PostingWhole` and `Pieces.EntryWhole` say exactly when an answer is read from whole records
  only, `Pieces.PostingReadsRecords` and `Pieces.EntryReadsRecords` exactly when all it is read from parses as the
  records it lies in. A record cut off at its front parses as the whole one if and only if it reads the same call and
  vintage and the skipped fields do not matter (`Heads.HeadReads`); from its colon on, if and only if the index key has
  its call (`Heads.HeadAtColon`). `CutInputs` and `SliceInputs` give files for each way an answer goes astray, postings
  and slices, heads and tails; unless that happens every reported text and source comes from a whole DAT record or the
  catalog row (`Provenance.ReportedFromRecords`).
- **Whole lookup.** The shape of every report, whatever slices the index search finds, and so for index keys in no order
  too (`LookupTheorems.WholeLookup`).
- **Scratch is unobservable.** Whatever a batch left in its buffers, a lookup equals the specification function of the
  callsign alone, and the log of the scratch grows by each DAT offset of the key family once, in first-posting order
  (`Lookup.BatchLookup.Lookup`, `Lookup.LookupHciInto`, `LookupTheorems.OffsetsOnce`).
- **Hashed index = full scan** under any collisions, completeness over archive years, and a round trip through a
  written inverted file (`Hci.VisitPostingsForKey`, `HciKeys.LookupVisitsFamily`, `HciText.WrittenIndexAnswers`).
- **Chunked decoding = per-byte decoding** with the derived phase (`Cipher.ChunkedDecodeExact`), and no other phase works
  (`Cipher.OnlyDerivedPhaseDecodes`).
- **Filtered, windowed and framed parsing** all agree with the full parser (`Records.FilteredParser`,
  `Records.WindowGrows`, `Records.RecordIsOneSegment`, `LookupTheorems.WindowAnswer`).
- **Merging = group by callsign and vintage, then left fold** (`Merging.HistoryIsGroupedFold`).
- **Text index:** printing and parsing undo each other, both readers agree, the two-pass search is exact, and the raw
  slices tile the DAT.
- **Streaming interest search = batch definition** over framed records (`InterestSearch.ScanInterestCode`), and exactly
  when it agrees with the record parser (`InterestAgreement.SearchAgreesExactly`, `InterestAgreement.RefusedExactly`).
- **Entry iteration** looks up exactly the distinct candidates, once each, and ends (`Entries.CollectAll`,
  `Entries.CandidatesExact`).
- **Station records are read back.** A record typed field by field and printed under the documented tag bytes gives back
  every named field (`Stations.StationReadBack`), and whatever bytes stand between the tags, it is said which values are
  read (`AnyValues.AnyRecordParses`).
- **Country index = linear scan**, choosing the longest start (`Country.LookupInfo`, `Country.CountryChosen`),
  and **counts binary search** is exact on sorted tables, down to the slots of a printed file (`Counts.Lookup`,
  `CountsText.TableAnswers`).

Some expectations hold only under a condition, and the exact condition is proved:

- the chunked decoder is right if and only if the offset is at most 2^63 + 1 + the derived phase: below 2^63 the cast
  is exact, and just above it the 64-bit sum wraps back;
- an answer to a posting is read from whole records if and only if the posted record itself answers, or neither a cut
  record at the posting nor, when no early window answers, one at the end of the 8192-byte window does; an index slice
  is, if and only if neither of its ends is a cut record that answers;
- an index slice from the colon of one dated record to the colon of the next reads only what records say if and only if
  the first record has the call of the key and the next has another one: of the next the slice holds just its call,
  which reads as an undated record;
- reported interest codes are those of the reported interest text if and only if the first interest text that arrives
  has codes, or nothing that arrives has any;
- the reports of an entry run answer different queries if and only if no two candidates it shows normalise alike;
- on a record that parses under its own key, search and parser carry the same codes if and only if the last interest
  field is absent, cleans to non-empty text, or becomes text that spells the codes of the last one that does;
- the two-pass search is exact if and only if at most one bare entry exists;
- table and iterator agree if and only if every key length fits 16 bits;
- merging a record with itself is the identity if and only if its sources are sorted.

The one text that a merge may replace is the last name: `Snapshots.LastNameReplaced` says exactly when, and
`Folds.FoldLastName` which one is left in the end.

## Where code and documentation disagree

The model follows the code.

- `crates/callbook/src/idx_text.rs:26-31` describes a search through a sparse directory. The code searches the
  table of parsed entries; the directory is only built. `IdxText.BuildIndex` states both.
- `crates/callbook/src/db.rs:2263` calls the decoded slice the highest-scoring phase candidate. The code always
  decodes with the phase derived from the offset.

## Model

| member | source | states |
|---|---|---|
| DatScan.LookupIsScan | crates/callbook/src/db.rs:1389-1431 | unless something reads astray, and when the indexes reach every record of the query, the reported vintages are exactly those of the query's framed records and its catalog row, a reported field has a value exactly when one of those of its vintage has, and the value is one of theirs |
| DatScan.OwnRecordReads | crates/callbook/src/v2_record.rs:105-159 | a record under its own key parses alike through both indexes, whatever the index key, but for the source it names |
| Publication.PublishedRecordIsReported | crates/callbook/src/db.rs:1389-1431 | a record printed in the tagged layout, encoded in the DAT and posted anywhere inside itself under its call's key family, is reported by a lookup of its call: right vintage, HCI source named, every given field has a value, and the given value when nothing that arrives earlier has the field |
| IndexPublication.IndexedRecordIsReported | crates/callbook/src/db.rs:2283-2300 | a record encoded in the slice of a printed index line that names the call, under its own key or as a `:YYYY` suffix of the index key, is reported by a lookup of the call, wherever in front of it, behind its sentinel or at its colon the slice starts: right vintage, index source named, its fields shown |
| IndexPublication.SlicedRecordIsReported | crates/callbook/src/db.rs:2283-2300 | a piece of an entry's slice, whole record or not, that parses to the query is kept by a reported record |
| IndexPublication.SuffixRecordParses | crates/callbook/src/v2_record.rs:122-132 | a printed suffix record is read under the call of the index key, whatever year that key has |
| Provenance.ReportedFromRecords | crates/callbook/src/db.rs:1389-1431 | unless something reads astray for the query, every text of a reported record is, unchanged, what one whole DAT record or the catalog row has for its vintage, and every source it names has such a record |
| Provenance.HeldIsRead | crates/callbook/src/db.rs:2283-2353 | always, what is held for a query is the catalog row or read from a piece of the DAT that an index points to |
| Provenance.HeldIsRecorded | crates/callbook/src/db.rs:2283-2353 | unless something reads astray, it is the catalog row or what a whole record parses to, one near a posted offset or one that a piece of the entry's slice lies in |
| Pieces.PostingWhole | crates/callbook/src/db.rs:2483-2519 | the pieces a posting's answer is read from are whole records if and only if the posted record answers, or no cut record does at the posting, nor, when no early window answers, at the end of the last window |
| Pieces.SentinelPostingWhole | crates/callbook/src/db.rs:2497-2519 | for a posting at a record start they are if and only if the posted record answers, some record of the query from there on ends within 4096 bytes, the 8192-byte window reaches the end of the file or a sentinel, or the record it cuts does not answer |
| Pieces.SentinelPosting | crates/callbook/src/db.rs:2497-2519 | a posting at a record start is answered from its own record if that is of the query, otherwise from the query's records from there on that end within 1024 bytes, or else 2048, or else 4096, and from the pieces of 8192 bytes if there are none |
| Pieces.PostingPieces | crates/callbook/src/db.rs:2483-2553 | every such piece is a record around the offset or starting within 8192 bytes, the rest of the record the offset lies in, or the start of the record the last window cuts |
| Pieces.SpansAnswer | crates/callbook/src/db.rs:2483-2519 | the answer is what these pieces parse to, in order, and nothing beyond the end of the file |
| Pieces.EntryWhole | crates/callbook/src/db.rs:2576-2600 | the pieces an index entry's answer is read from are whole records if and only if neither end of its slice is a cut record that answers |
| Pieces.PostingReadsRecords | crates/callbook/src/db.rs:2483-2519 | all pieces of a posting's answer parse to what the records they lie in parse to if and only if the posted record answers, or the cut ends of what the windows see that answer do |
| Pieces.EntryReadsRecords | crates/callbook/src/db.rs:2576-2600 | all pieces of an entry's answer do if and only if the cut ends of its slice that answer do |
| Pieces.CutsExact | crates/callbook/src/v2_record.rs:10-37 | the pieces of a stretch are exactly the stretches between neighbouring sentinels or ends of it |
| Heads.HeadReads | crates/callbook/src/v2_record.rs:105-159 | the rest of a record from any byte on parses like the record if and only if it reads the same call and vintage and the skipped fields do not matter; cut inside the key they never do, cut behind the sentinel it always parses alike |
| Heads.HeadAtColon | crates/callbook/src/v2_record.rs:122-132 | from its colon on a record parses like the whole one if and only if the call of the index key is its own; otherwise it is read under that other call |
| Heads.TailToColon | crates/callbook/src/v2_record.rs:105-159 | up to its colon a record parses as its call, undated |
| Heads.ColonToColon | crates/callbook/src/db.rs:2576-2600 | a slice from the colon of a dated record to the colon of the next reads only what records say if and only if the first has the call of the key and the next has not |
| Pieces.CutsAreSegments | crates/callbook/src/v2_record.rs:49-53 | the parser's segments of a decoded stretch are the stretches between the file's sentinels |
| CutInputs.CutRecordAnswers | crates/callbook/src/db.rs:2517-2518 | a file of two records in which a posting at the first answers for the second with a city cut to 8181 letters, whatever its length, that no record of the file has |
| CutInputs.CutRecordReported | crates/callbook/src/db.rs:2517-2518 | with a suffix posting there, a lookup of the second call reports the cut city |
| CutInputs.CutHeadAnswers | crates/callbook/src/db.rs:2497-2519 | a file of one record in which a posting inside it answers for a call that has no record in the file |
| SliceInputs.OwnHeadIsScanned | crates/callbook/src/db.rs:2576-2600 | for every call, year and fields a file of one dated record whose index line points at its colon, behind the call: nothing reads astray and the record is reached, so that a lookup of the call is a scan |
| SliceInputs.TailReported | crates/callbook/src/db.rs:2283-2300 | for every call and year a file of two records, `CALL:YYYY` and one of a longer call, and a printed index of them: a lookup of the call reports it as current and undated, which no record of the file is |
| SliceInputs.HeadReported | crates/callbook/src/v2_record.rs:122-132 | for every two calls a file of one dated record of the first and an index line of the second that points at its colon: a lookup of the second reports the vintage and the fields of the first |
| Publication.EncodedRecordFramed | crates/callbook/src/db.rs:2637-2656 | a printed record encoded between arbitrary bytes and the next sentinel is exactly one framed record, and its slice decodes to the plain record |
| Publication.WrittenPosts | crates/callbook/src/db.rs:2729-2750 | in a written inverted file the offsets a lookup visits are exactly those written under a key of the query's family |
| Records.EnrichOnlyAdds | crates/callbook/src/v2_record.rs:232-261 | enrichment keeps every recorded text; the country table's match is taken over, name and jurisdiction, exactly when the record has no country, otherwise a known jurisdiction stays and an unknown one follows from the country's name, or from state and postal code; the codes are those of the recorded interest text |
| LookupTheorems.WholeLookup | crates/callbook/src/db.rs:1389-1431 | whatever slices of the DAT the index search finds: only invalid callsigns are refused; history records carry the normalised call and a vintage, strictly ascending; the current record is undated and names the query up to case; the status says exactly which of the two exist |
| LookupTheorems.LookupIsOn | crates/callbook/src/db.rs:2283-2300 | on ascending keys a lookup is the one whose search finds the slices of the first bare entry and of all suffixed entries |
| LookupTheorems.HistoryExact | crates/callbook/src/db.rs:3547-3569 | a record is in the history exactly when it is the left fold of all arrivals of one occurring vintage |
| LookupTheorems.CurrentIsTheFold | crates/callbook/src/db.rs:1395-1409 | the current record is the left fold of the catalog row and the undated arrivals, absent exactly when there are none |
| LookupTheorems.ReportIsFolds | crates/callbook/src/db.rs:1389-1431 | history and current together are exactly the folds of the non-empty parts, one per vintage and one undated |
| LookupTheorems.VintageReported | crates/callbook/src/db.rs:1395-1415 | a vintage is in the history if and only if an index leads to a snapshot of the query with that vintage |
| LookupTheorems.CurrentReported | crates/callbook/src/db.rs:1395-1423 | there is a current record if and only if the catalog has a row or an index leads to an undated snapshot of the query |
| LookupTheorems.NothingLost | crates/callbook/src/db.rs:3547-3569 | every snapshot held for the query is kept by a reported record: same vintage, its sources named, every one of its texts filled, and all but the last name with the first non-empty text in the order of arrival |
| LookupTheorems.ReportedRest | crates/callbook/src/modern.rs:221-280 | of a reported record, from the arrivals of its vintage in order: the first known jurisdiction, the first non-empty codes and interests, the last value of every raw tag, and the last name of the last arrival that brings one with a split name once there is a first name, else the first one |
| LookupTheorems.ReportedCodes | crates/callbook/src/modern.rs:269-275 | reported codes are those of the reported interest text if and only if the first interest text that arrives has codes, or nothing that arrives has any |
| LookupTheorems.NothingInvented | crates/callbook/src/modern.rs:221-280 | every text of a reported record is, unchanged, the text of one snapshot of that vintage that the catalog or the indexes' pieces of the DAT give, and its sources are exactly theirs, strictly ascending |
| LookupTheorems.ReportedTexts | crates/callbook/src/modern.rs:306-310 | every reported text but the last name is the first non-empty one in the order of arrival: catalog, index entries, postings |
| Order.PartsBySource | crates/callbook/src/db.rs:1389-1431 | what is folded into a reported record comes from the catalog first, then from the index, then from the postings |
| Order.EntryInOrder | crates/callbook/src/db.rs:2283-2300 | index entries give their snapshots one after the other, in the order in which the search finds them |
| Order.OffsetsInOrder | crates/callbook/src/db.rs:2333-2353 | offsets are decoded in the order in which the key family first posts them |
| Order.KeyInOrder | crates/callbook/src/db.rs:2729-2750 | the postings of a lookup are those of its keys one after the other, each in file order |
| LookupTheorems.ArrivalsComplete | crates/callbook/src/db.rs:1401-1409 | what is merged is exactly what a full scan of all index entries named by the call and all HCI records of its key family leads to |
| LookupTheorems.PostedRecordIsReported | crates/callbook/src/db.rs:2333-2353 | an HCI posting inside a framed DAT record that parses to the query puts that snapshot into the report, its texts subject only to what arrived earlier |
| LookupTheorems.PostingDecodesRecord | crates/callbook/src/db.rs:2483-2495 | when the record around a posting parses to the query, the posting yields that record's snapshot and nothing else |
| LookupTheorems.OffsetsOnce | crates/callbook/src/db.rs:2333-2353 | the offsets a lookup decodes are distinct, and exactly those posted by records of the key family |
| LookupTheorems.WindowAnswer | crates/callbook/src/db.rs:2497-2519 | whichever window stops the search, the answer is a prefix of the last window's full answer and is empty only when that is |
| LookupTheorems.HciArrivals | crates/callbook/src/db.rs:2333-2353 | the HCI part of a lookup holds a snapshot exactly when a record of the key family posts an offset that yields it |
| LookupTheorems.IdxArrivals | crates/callbook/src/db.rs:2283-2300 | the IDX part holds a snapshot exactly when some entry whose key names the call yields it |
| LookupTheorems.CatalogRowShown | crates/callbook/src/modern.rs:204-219 | the catalog gives a current record exactly for the callsigns it lists; that record shows class, name, address, city, state, postal code, county, issue date and transaction type of the row each under its own field, trimmed and absent when blank, in the United States, and nothing else |
| LookupTheorems.NoDatedRow | crates/callbook/src/us_csv.rs:65-109 | a callsign with a colon, and white space alone, have no row in the catalog |
| LookupTheorems.MatchedAnswer | crates/callbook/src/v2_record.rs:39-69 | for a normalised query every matching snapshot has the query itself as its call, and the reader's source |
| Lookup.BatchLookup.Lookup | crates/callbook/src/db.rs:281-291 | the answer is a function of database and callsign alone, whatever earlier lookups left in the scratch buffers, and the decode log grows by that lookup's offsets |
| Lookup.BatchLookup.constructor | crates/callbook/src/db.rs:106-111 | a batch owns its scratch buffers |
| Lookup.LookupReportWithScratch | crates/callbook/src/db.rs:1389-1431 | for any scratch contents the result is the specified report of the normalised callsign, or the invalid-callsign error, which decodes nothing |
| Lookup.LookupOnce | crates/callbook/src/db.rs:1384-1387 | a fresh lookup gives the same result as one through used buffers |
| Lookup.LookupHciInto | crates/callbook/src/db.rs:2333-2353 | after clearing, the buffer holds the snapshots of the family's offsets, and the decode log grows by each of them once, in order of first posting |
| Lookup.VisitOffsets | crates/callbook/src/db.rs:2339-2352 | over the postings of one key the callback keeps seen set, buffer and decode log those of the first occurrences visited |
| Lookup.VisitOffset | crates/callbook/src/db.rs:2339-2352 | one call of the posting callback: an offset seen before changes nothing, a new one is decoded, logged and its snapshots collected |
| Lookup.LookupDatIdx | crates/callbook/src/db.rs:2283-2300 | concatenates the matching snapshots of the slices of the first bare entry and of all suffixed entries |
| Lookup.DecodeAndParseHciOffset | crates/callbook/src/db.rs:2483-2495 | the record around the posting answers first, only an empty answer falls back to windows, and the call enters the decode log |
| Lookup.DecodeAndParseWithWindows | crates/callbook/src/db.rs:2497-2519 | the first of the windows 1024, 2048, 4096 with a complete match answers, else the last window of 8192 bytes |
| Lookup.DecodeHciPostingRecordInto | crates/callbook/src/db.rs:2521-2526 | the buffer holds the per-byte decoding of the record around the offset, or nothing |
| Lookup.DecodeFromOffsetInto | crates/callbook/src/db.rs:2543-2553 | the buffer holds the per-byte decoding of at most the given number of bytes, clamped to the file |
| Lookup.DecodeBoundsInto | crates/callbook/src/db.rs:2528-2532 | chunked decoding with the derived phase fills the buffer with the per-byte decoding |
| Lookup.MergeSnapshots | crates/callbook/src/db.rs:1401-1409 | merging a list in place, object by object, continues the specified fold |
| Merging.MergeSnapshot | crates/callbook/src/db.rs:3547-3569 | one in-place merge of separate objects is one step of the specified fold and keeps them separate |
| Merging.HistoryIsGroupedFold | crates/callbook/src/db.rs:3547-3569 | after any arrivals the history holds one record per callsign and vintage, in order of first arrival, equal to the left fold of that key's arrivals in order |
| Merging.HistoryKeysDistinct | crates/callbook/src/db.rs:3561-3568 | after any arrivals no two history records share callsign and vintage |
| Merging.CurrentIsFold | crates/callbook/src/db.rs:3552-3559 | the current record is the fold of the undated arrivals onto the record it started with |
| Merging.FoldSources | crates/callbook/src/modern.rs:222-227 | the sources of a fold are the strictly ascending union of its members' sources |
| Merging.FoldKeepsField | crates/callbook/src/modern.rs:306-310 | once a fold has a non-empty text other than the last name, later arrivals never change it |
| Merging.FoldFills | crates/callbook/src/modern.rs:221-280 | when no last name is empty, wherever a member has a non-empty text, so has the fold: a last name is only ever replaced by another one |
| Merging.FoldFirstText | crates/callbook/src/modern.rs:306-310 | the text a fold has for any field but the last name is the first non-empty one that arrived |
| Merging.FoldInventsNothing | crates/callbook/src/modern.rs:221-280 | each text of a fold is the text of one member |
| Merging.FoldKeepsKey | crates/callbook/src/modern.rs:221-280 | a fold keeps the callsign and vintage it started with |
| Folds.FoldFirsts | crates/callbook/src/modern.rs:229-275 | a fold has the first known jurisdiction, the first non-empty codes and the first non-empty interests of its members, each on its own |
| Folds.FoldRawTag | crates/callbook/src/modern.rs:279-279 | a fold has exactly the raw tags of its members, each with the last value given |
| Folds.FoldLastName | crates/callbook/src/modern.rs:235-243 | the last name of a fold is that of the last member that brings one with a split name when some member up to it has a first name; without such a member it is the first one |
| Folds.CodesFitExactly | crates/callbook/src/modern.rs:269-275 | the codes of a fold are those of its interest text if and only if the first interest text has codes or no member has any |
| Folds.CodesOfAnother | crates/callbook/src/modern.rs:269-275 | the text `abc`, merged with the code 0010, keeps the text and takes the code |
| Snapshots.CallSnapshot.MergeMissingFrom | crates/callbook/src/modern.rs:221-280 | the field-by-field update leaves in the receiver the specified merge of its old value and the argument |
| Snapshots.CallSnapshot.MergeSources | crates/callbook/src/modern.rs:222-227 | the receiver's sources become the sorted list with the missing ones added |
| Snapshots.FillText | crates/callbook/src/modern.rs:233-278 | filling the fields one after the other merges every field once, last name by its own rule |
| Snapshots.Fill | crates/callbook/src/modern.rs:306-310 | one field is replaced exactly when it is missing or empty, every other field is untouched |
| Snapshots.MergedSourcesUnion | crates/callbook/src/modern.rs:222-227 | merged sources are the sorted union, duplicate-free when the receiver's were |
| Snapshots.MergeKeeps | crates/callbook/src/modern.rs:306-310 | a merge keeps callsign, vintage and every non-empty text but the last name, takes the other's text where there was none, and lets the other's raw tags win |
| Snapshots.MergeFills | crates/callbook/src/modern.rs:221-280 | a text other than the last name stays if the receiver has it and it is not empty, and is otherwise what arrives |
| Snapshots.MergedLastName | crates/callbook/src/modern.rs:235-243 | with a first or middle name arriving and a first name after the merge, an arriving last name is taken over and none is filled otherwise; without them it is filled like other texts |
| Snapshots.MergedRest | crates/callbook/src/modern.rs:221-280 | sources come out in the order catalog, index, inverted file; jurisdiction, codes and interests stay unless there are none; the raw tags are those of both, with the arriving values |
| Snapshots.LastNameReplaced | crates/callbook/src/modern.rs:235-243 | a last name changes exactly when a different one arrives with a split name and the merged record has a first name |
| Snapshots.MergeAbsorbs | crates/callbook/src/modern.rs:221-280 | merging the same record a second time changes nothing |
| Snapshots.SelfMerge | crates/callbook/src/modern.rs:221-280 | merging a record with itself is the identity if and only if its sources are sorted |
| Cipher.ChunkedDecodeExact | crates/callbook/src/v2_dat.rs:23-48 | with the derived phase the chunked stream, on wrapping 64-bit arithmetic, equals the per-byte decoding of every non-empty slice if and only if the offset is at most 2^63 + 1 + the phase |
| Cipher.OnlyDerivedPhaseDecodes | crates/callbook/src/v2_dat.rs:40-48 | below 2^63 a phase decodes a non-empty slice correctly exactly when it is the derived one modulo 101 |
| Cipher.DecodePhaseInto | crates/callbook/src/v2_dat.rs:23-38 | the chunk loop clears the buffer and fills it with the stream whose key counts up modulo 101; `Cipher.SevenShowsKey` and `Cipher.DifferenceStays` fix the byte operation |
| Cipher.SevenShowsKey | crates/callbook/src/db.rs:3127-3130 | an encoded 7 decodes to the key of its position, the offset plus 4 modulo 101 |
| Cipher.DifferenceStays | crates/callbook/src/db.rs:3127-3130 | two bytes at one offset differ in the same bits before and after decoding |
| Cipher.DecodedBits | crates/callbook/src/db.rs:3127-3130 | every decoded bit is the encoded one, flipped by the bits of 7 and of the position's key |
| Samples.RayIsRead | crates/callbook/src/db.rs:3127-3130 | an encoded file of eleven given bytes is one record, and the parser reads `K1A`, first name AL and last name RAY in it |
| Cipher.KeyStreamInvolution | crates/callbook/src/v2_dat.rs:23-38 | decoding twice with one phase is the identity, so the decoder is the encoder |
| Cipher.DecodeAtInvolution | crates/callbook/src/db.rs:3127-3130 | per-byte decoding is its own inverse |
| Cipher.DecodeSlice | crates/callbook/src/db.rs:3127-3130 | decoding commutes with slicing |
| Framing.RecordBoundsContainingOffset | crates/callbook/src/db.rs:2608-2635 | fails exactly when the offset is out of range or no sentinel lies at or before it; otherwise returns the record around the offset and the lengths of both scans |
| Framing.RecordBoundsFromHciPostingStart | crates/callbook/src/db.rs:2637-2656 | succeeds exactly at a sentinel and returns the record that starts there |
| Framing.RecordBoundsForHciPosting | crates/callbook/src/db.rs:2534-2541 | the resolver and its fallback together find the record around the offset whenever there is one |
| Framing.RecordAtExact | crates/callbook/src/db.rs:2608-2656 | an interval is found if and only if it is a record containing the offset, and at a sentinel both resolvers give the same start and end |
| Framing.RecordUnique | crates/callbook/src/db.rs:2608-2656 | at most one record contains an offset |
| Framing.RecordsComplete | crates/callbook/src/db.rs:2608-2656 | the list of records of a file is exactly the set of record intervals |
| Framing.RecordsTile | crates/callbook/src/db.rs:2608-2656 | the records are non-empty and tile the file from the first sentinel on |
| Records.ParseSnapshots | crates/callbook/src/v2_record.rs:10-37 | the loop parses every segment in order and makes progress whether or not a segment starts with a sentinel |
| Records.ParseMatchingSnapshots | crates/callbook/src/v2_record.rs:39-69 | the loop parses exactly the segments that pass the raw-key test |
| Records.ParseCompleteMatchingSnapshots | crates/callbook/src/v2_record.rs:71-103 | the loop covers exactly the segments that a later sentinel closes |
| Records.ParseSegment | crates/callbook/src/v2_record.rs:105-159 | the staged parser returns the specified snapshot or nothing, suffix keys rebuilt from the default key included; `Stations.StationReadBack` and `AnyValues.AnyRecordParses` say which that is |
| Stations.StationReadBack | crates/callbook/src/v2_record.rs:191-261 | a record typed field by field, printed with each value under its documented tag byte, is read back: its call and vintage, each of the 33 named fields under its own name, the last non-empty one of three address lines, the unnamed tags as raw tags, and its country or the table's |
| Stations.StationRest | crates/callbook/src/v2_record.rs:232-261 | such a record has the jurisdiction of its country, of the table's match for its call, or of an address with state and postal code, the codes of its interest text in order, and the catalog's entries for them |
| AnyValues.AnyRecordParses | crates/callbook/src/v2_record.rs:105-159 | between tags 0xb6 to 0xdf any bytes other than 0xb5 to 0xdf may stand: each value counts, trimmed of blanks and NUL, if it is not empty and printable all through, and is passed over otherwise |
| Records.ParsedExactly | crates/callbook/src/v2_record.rs:263-279 | a segment is parsed exactly when its completed key names a call of 1 to 12 callsign bytes with nothing behind it or a colon and a 16-bit number, and then has that call and that number |
| Records.CleanByte | crates/callbook/src/v2_record.rs:281-301 | byte by byte, what counts as blank, as text, and as unreadable |
| Records.FilteredParser | crates/callbook/src/v2_record.rs:10-69 | for all byte strings, default keys and callsigns the matching parser is the full parser filtered by case-insensitive callsign equality |
| Records.MatchIsCallTest | crates/callbook/src/v2_record.rs:161-189 | on a segment that parses, the raw-key test decides exactly whether its call is the one asked for |
| Records.CompleteIsCut | crates/callbook/src/v2_record.rs:71-103 | the complete segments are the segments of the input cut at its last sentinel |
| Records.WindowGrows | crates/callbook/src/v2_record.rs:71-103 | what a window reports completely is a prefix of what every longer window reports, completely or in full |
| Records.SegmentsTile | crates/callbook/src/v2_record.rs:17-36 | cutting into segments loses no byte and reorders none |
| Records.RecordIsOneSegment | crates/callbook/src/db.rs:2521-2532 | a framed record, decoded, is exactly one parser segment |
| Records.ParsedShape | crates/callbook/src/v2_record.rs:105-159 | every parsed snapshot has a normalised call of 1 to 12 bytes, a 16-bit vintage, the reader's source alone, no empty text but perhaps a country name from a rule, and the codes of its own interest text |
| RecordText.PrintedRecordParses | crates/callbook/src/v2_record.rs:105-159 | a printed record of call, vintage and tagged values is read back as exactly these, then enriched; `Stations.StationReadBack` names the field of each tag |
| RecordText.PrintedRecordFollows | crates/callbook/src/v2_record.rs:10-37 | a printed record in front of others is read back and leaves the rest of the input as it was |
| RecordText.LastValueWins | crates/callbook/src/v2_record.rs:191-230 | of several values for one field, address lines included, the last one stays |
| RecordText.LastRawWins | crates/callbook/src/v2_record.rs:226-229 | tags without a field are kept with their last value, and no other raw tag appears |
| Hci.DecodeHeaderKey | crates/callbook/src/hci.rs:436-479 | one pass yields the printable key, its FNV hash equal to that of the finished key, and a year exactly when four digits and nothing else follow the last colon |
| Hci.DecodedHeaderMatches | crates/callbook/src/hci.rs:521-535 | succeeds exactly when the decoded header is the key followed by the terminator, within the first 100 bytes |
| Hci.HashOf | crates/callbook/src/hci.rs:553-560 | the loop computes FNV-1a with 64-bit wrap-around |
| Hci.HeaderIffMatch | crates/callbook/src/hci.rs:436-535 | for non-empty printable keys the index builder and the header matcher accept the same records |
| Hci.BuildKeyIndex | crates/callbook/src/hci.rs:363-399 | one pass over the offset table yields the sorted references of all records and the published years |
| Hci.PushHciKeyRef | crates/callbook/src/hci.rs:401-427 | a record adds its reference and year exactly when its bounds are in order and its header is printable |
| Hci.Open | crates/callbook/src/hci.rs:117-151 | a pair opens exactly when the offset table is a non-empty whole number of offsets |
| Hci.VisitPostings | crates/callbook/src/hci.rs:542-551 | visits every whole five-byte group in front of the last byte, big-endian |
| Hci.VisitPostingsForKey | crates/callbook/src/hci.rs:216-230 | for every non-empty printable key the hashed visit equals the full scan over all record headers, in ordinal order, under any hash collisions; the empty key visits nothing |
| Hci.CandidateRun | crates/callbook/src/hci.rs:216-222 | between the two partition points lie exactly the references with the key's hash, in ordinal order |
| Hci.IndexPartitions | crates/callbook/src/hci.rs:216-222 | the sorted references are partitioned by every hash, as the two binary searches need |
| Hci.PublicationYears | crates/callbook/src/hci.rs:395-398 | the published years are strictly ascending and are exactly the years of the indexed keys |
| Hci.PostingsRoundTrip | crates/callbook/src/hci.rs:542-551 | a printed posting list is read back whatever its closing byte |
| Hci.PostingAt | crates/callbook/src/hci.rs:542-551 | a record of n bytes has (n - 1) / 5 postings, and posting i is the big-endian number in its bytes 5i to 5i + 3 with byte 5i + 4 |
| Hci.HashSteps | crates/callbook/src/hci.rs:553-560 | the hash of the empty key is the 64-bit FNV basis, and one more byte is mixed in before multiplying by the prime modulo 2^64 |
| HciText.WrittenIndexAnswers | crates/callbook/src/hci.rs:180-230 | a file pair written from keys and posting lists answers every key with exactly the lists written for it, in order |
| HciText.RawReads | crates/callbook/src/hci.rs:172-200 | cutting the file at the big-endian offset table gives back the bytes of every record, the last one up to the end of the file |
| HciText.EntryReads | crates/callbook/src/hci.rs:436-479 | a written record has the written key as its header and the written postings behind it |
| HciKeys.LookupVisitsFamily | crates/callbook/src/db.rs:2729-2750 | a lookup visits a posting if and only if it belongs to a record keyed by the call, by what follows its first byte, or by either with any four digits behind a colon |
| HciKeys.HciArchiveKey | crates/callbook/src/db.rs:2773-2787 | the key is composed in the 32-byte buffer without touching the bytes behind it, and refused exactly when it would not fit |
| HciKeys.VisitHciLookupKeys | crates/callbook/src/db.rs:2729-2750 | visits call, suffix, and both per year in year order, skipping years whose key does not fit; `HciKeys.KeysInOrder` lists them |
| HciKeys.KeysInOrder | crates/callbook/src/db.rs:2729-2750 | key by key, what a lookup tries: the call, the call without its first byte, then both with every published year, in order |
| HciKeys.OneByteKeys | crates/callbook/src/db.rs:2729-2750 | a call of one byte has no suffix to try |
| HciKeys.YearDigitsValue | crates/callbook/src/db.rs:2773-2787 | the four digits of a key spell the year modulo 10000 |
| HciKeys.ArchiveTextUndoesYear | crates/callbook/src/db.rs:2773-2787 | composing an archive key undoes the year parse of the index for every four digits |
| HciKeys.KeyIsFamily | crates/callbook/src/db.rs:2729-2750 | every key a lookup tries is a non-empty printable member of the query's key family |
| HciKeys.FamilyIsKey | crates/callbook/src/db.rs:2729-2750 | every indexed record key of the family is among the keys tried |
| IdxText.ParseLine | crates/callbook/src/idx_text.rs:306-342 | the backward scan yields the specified split into key and 64-bit offset; `IdxText.LineIsEntry` says which lines those are |
| IdxText.LineIsEntry | crates/callbook/src/idx_text.rs:306-342 | a line is an entry if and only if it is a key that does not end in a space, at least one space, decimal digits worth at most 2^64 - 1, and spaces |
| IdxText.ParseIndexLine | crates/callbook/src/idx_text.rs:396-421 | the table's parser accepts the same lines except those whose start or key length does not fit |
| IdxText.ParseDecimalU64 | crates/callbook/src/idx_text.rs:423-432 | digit strings are read exactly, and anything above 64 bits is refused |
| IdxText.TextIdxIter.Next | crates/callbook/src/idx_text.rs:288-303 | yields the remaining entries one by one, skips lines that do not parse, and stays exhausted |
| IdxText.BuildIndex | crates/callbook/src/idx_text.rs:354-394 | refuses exactly empty files and files whose sampled lines start beyond 4 GiB; otherwise returns every stride-th line start, the line count and all parsed rows |
| IdxText.TableIsIterator | crates/callbook/src/idx_text.rs:288-394 | on any file up to 4 GiB the table rows are the iterator's entries with 16-bit key lengths |
| IdxText.ReadersAgree | crates/callbook/src/idx_text.rs:288-394 | table and iterator agree entry by entry if and only if every key length fits 16 bits |
| IdxText.PrintedRoundTrip | crates/callbook/src/idx_text.rs:8-23 | any list of keys and offsets printed in the documented format is returned by both readers |
| IdxSearch.FindCallsignAll | crates/callbook/src/idx_text.rs:204-234 | on ascending keys the two passes return the first bare entry and then every suffixed entry, in file order |
| Sorting.HalvingSearch | crates/callbook/src/idx_text.rs:142-154 | halving the range finds the partition point of every partitioned list |
| IdxSearch.BelowPartitions | crates/callbook/src/idx_text.rs:142-147 | ascending keys are partitioned by every target, as the binary search needs |
| IdxSearch.RawRecordFor | crates/callbook/src/db.rs:2576-2600 | with one more binary search, the DAT slice of an entry up to the next key's offset, clamped to the file |
| IdxSearch.FindCallsignExact | crates/callbook/src/idx_text.rs:204-234 | for a colon-free callsign the search returns exactly the entries whose key up to the first colon is the callsign, if and only if at most one bare entry exists |
| IdxSearch.FindCallsignStrict | crates/callbook/src/idx_text.rs:204-234 | on strictly ascending keys the search is exact |
| IdxSearch.SuffixedRun | crates/callbook/src/idx_text.rs:218-233 | the suffixed entries are one contiguous run that starts at the prefix's lower bound |
| IdxSearch.NextIsSuccessor | crates/callbook/src/idx_text.rs:149-154 | on strictly ascending keys the first entry above an entry's key is its successor |
| IdxSearch.SliceExact | crates/callbook/src/db.rs:2576-2605 | an entry inside the file has a non-empty slice that ends where the next entry starts or the file ends; an entry beyond it has none |
| IdxSearch.SlicesTile | crates/callbook/src/db.rs:2576-2605 | end to end, the slices from any entry on are the file from that entry's offset on, even with trailing entries past the end |
| Country.Build | crates/callbook/src/country.rs:133-139 | the parsed rules are all kept, from the longest start to the shortest, stably sorted by priority, and indexed by first byte |
| Country.BuildFirstByteIndex | crates/callbook/src/country.rs:215-229 | every first byte lists, in rule order, exactly the rules whose range contains it |
| Country.LookupInfo | crates/callbook/src/country.rs:172-198 | the indexed search answers what the linear scan answers for every callsign, empty and non-ASCII-leading ones included |
| Country.LookupLinear | crates/callbook/src/country.rs:200-213 | the linear scan answers with the first matching rule |
| Country.MatchFirstByte | crates/callbook/src/country.rs:225-240 | a matching call starts with a byte of the rule's bucket range |
| Country.RangeIsInterval | crates/callbook/src/country.rs:231-240 | a rule with bounds of equal length matches every call that starts with either bound, and every long enough call between two matching ones |
| Country.ChosenRule | crates/callbook/src/country.rs:133-139 | no matching rule has a longer start than the chosen one, none with a start of equal length sorts before it, and of those with the same start it is the first in file order |
| Country.CountryChosen | crates/callbook/src/country.rs:172-198 | a built table answers nothing exactly when no rule matches, and otherwise with the country of such a rule |
| Country.RangeExact | crates/callbook/src/country.rs:231-240 | which calls a rule with two different bounds matches, as a comparison of the call with each bound |
| Country.HawaiiFirst | crates/callbook/src/country.rs:133-139 | with rules for `K` and `KH6` the call `KH6AA` gets the latter's country |
| Counts.Lookup | crates/callbook/src/sidecar.rs:82-101 | ends on every file and returns only records in the searchable range with the queried key; on a sorted table whose slots parse it finds one exactly when some slot has the key |
| Counts.DecodedSlot | crates/callbook/src/sidecar.rs:124-135 | a slot is decoded by absolute offset, and refused exactly beyond the last one |
| Counts.DecodedKey | crates/callbook/src/sidecar.rs:137-141 | a slot's key is its trimmed key column; blank slots and slots beyond the end have none |
| Counts.LookupCountIter.Next | crates/callbook/src/sidecar.rs:189-202 | yields the remaining parseable records one by one and stays exhausted |
| Counts.SearchAndIterationAgree | crates/callbook/src/sidecar.rs:82-202 | iteration lists a record with a key exactly when binary search has one to find |
| CountsText.SlotReadBack | crates/callbook/src/sidecar.rs:630-653 | a slot printed as 15 bytes of key, 7 of count, 8 of day and a status is read back, the day if it lies between 19900101 and 21000101 and the status if it is graphic |
| CountsText.TableRead | crates/callbook/src/sidecar.rs:103-141 | of an encoded file of a blank slot, an unread one, exclamation marks, rows and small `z`, exactly the rows are searchable, and each is read back |
| CountsText.TableAnswers | crates/callbook/src/sidecar.rs:82-202 | on such a file with ascending keys the search can find no slot but the row of the call, and iteration lists all rows |
| InterestSearch.ScanInterestCode | crates/callbook/src/db.rs:2820-2824 | the result ascends by call, undated before dated and years upwards, without repetition, and holds exactly the call and vintage of every framed record with a valid key whose last 0xD5 field, trimmed and made text, has the code |
| InterestSearch.InterestSearchScan.ScanDat | crates/callbook/src/db.rs:2849-2872 | after the byte loop the matches are those of all records in file order; bytes before the first sentinel contribute nothing |
| InterestSearch.InterestSearchScan.Feed | crates/callbook/src/db.rs:2849-2872 | after every byte the fields describe the record read so far: key, last tag and last interest value |
| InterestSearch.InterestSearchScan.Sentinel | crates/callbook/src/db.rs:2853-2856 | a sentinel closes the open record, if any, with its match, and opens the next |
| InterestSearch.InterestSearchScan.OtherByte | crates/callbook/src/db.rs:2857-2870 | any other byte goes to the open record; outside of records it is skipped |
| InterestSearch.InterestSearchScan.FinishRecord | crates/callbook/src/db.rs:2892-2907 | closing a record adds a match exactly when the whole record is a hit |
| InterestSearch.InterestSearchScan.Finish | crates/callbook/src/db.rs:2874-2882 | the result ascends by call and then year, without repetition, and has the elements of the collected matches |
| InterestSearch.HitsAreRecordHits | crates/callbook/src/db.rs:2836-2907 | the collected matches are exactly those of the file's record intervals |
| InterestSearch.RecordKeyIsRaw | crates/callbook/src/db.rs:3132-3142 | for keys the lossy conversion makes no difference: what is not ASCII names no record before and after it |
| Utf8.LossyKeepsExactly | crates/callbook/src/db.rs:3144-3155 | exactly well-formed UTF-8 stays as it is |
| Utf8.LossyWellFormed | crates/callbook/src/db.rs:3144-3155 | the result of the conversion is always well-formed, so converting again changes nothing |
| Utf8.EncodedStays | crates/callbook/src/db.rs:3144-3155 | the UTF-8 encoding of any list of characters is left alone |
| Utf8.LossyIsEncoded | crates/callbook/src/db.rs:3144-3155 | the result of the conversion, for any bytes, is the encoding of some list of characters |
| Utf8.ReplacedStretch | crates/callbook/src/db.rs:3144-3155 | U+FFFD replaces one byte or the longest stretch that begins a character without finishing one |
| InterestAgreement.SearchAgreesWithParser | crates/callbook/src/db.rs:2892-2907 | printed records meet the condition: on them the scanner reports call and vintage for exactly the codes the parsed snapshot carries |
| InterestAgreement.SearchAgreesExactly | crates/callbook/src/db.rs:2892-2907 | over all framed records that parse under their own key, the scanner reports call and vintage for exactly the parsed codes if and only if the last interest field is absent, cleans to non-empty text, or becomes text that spells the codes of the last one that does |
| InterestAgreement.RefusedExactly | crates/callbook/src/db.rs:3132-3142 | of the records the scanner accepts the parser refuses exactly those whose call, as it stands, is not 1 to 12 upper-case callsign bytes |
| InterestAgreement.SuffixKeyUnsearched | crates/callbook/src/db.rs:3132-3142 | a record with a suffix key is never found by the search |
| InterestAgreement.EmptyLastDisagrees | crates/callbook/src/db.rs:2859-2865 | a record whose last interest field is empty: the parser keeps the code of the field before, the scanner reports nothing |
| InterestAgreement.LowerCallDisagrees | crates/callbook/src/v2_record.rs:272-279 | a record with a lower-case call: the scanner reports it as written, the parser refuses it |
| InterestAgreement.HighByteDisagrees | crates/callbook/src/db.rs:3144-3155 | the interest value `80 30 30 30 31 30`: lossy conversion moves the digits behind the first byte, so that the scanner reports the code 0010, while the parser refuses the field |
| InterestAgreement.ParserReads | crates/callbook/src/v2_record.rs:134-157 | the codes the parser attaches are those of the last interest field that cleans to non-empty text |
| InterestAgreement.EncodedRecordIsFound | crates/callbook/src/db.rs:2820-2824 | a printed record encoded anywhere in a file is among the matches of a scan of that file for each of its codes |
| InterestAgreement.ScannerReads | crates/callbook/src/db.rs:2849-2890 | on any record the scanner holds its key and the value of its last interest field, as they stand |
| Interests.CodesExact | crates/callbook/src/interest.rs:111-121 | a code is listed exactly when one of the aligned four-byte chunks is four digits spelling it |
| Interests.CodesRoundTrip | crates/callbook/src/interest.rs:111-121 | codes written one after the other are read back in order, whatever short tail follows |
| Interests.KnownInOrder | crates/callbook/src/interest.rs:123-129 | codes are resolved one by one, in order, and a code without an entry gives nothing |
| Entries.EntryIter.Next | crates/callbook/src/db.rs:333-356 | the results still to come are the one yielded followed by those left; the remaining candidates shrink; once done it stays done |
| Entries.EntryIter.Exhaust | crates/callbook/src/db.rs:302-311 | taking results until there are none left yields all that were to come, and ends in the done phase |
| Entries.EntryIter.NextCallsign | crates/callbook/src/db.rs:358-390 | yields the candidates of the index and then of the catalog, one by one, and ends in the done phase |
| Entries.EntryIter.constructor | crates/callbook/src/db.rs:313-331 | a new iterator has all candidates before it and has seen none |
| Entries.CollectAll | crates/callbook/src/db.rs:302-356 | running to the end yields the results of the distinct candidates, each looked up once, in order of first occurrence |
| Entries.RunIsDedup | crates/callbook/src/db.rs:336-355 | skipping what was seen is the same as removing repetitions first |
| Entries.CandidatesExact | crates/callbook/src/db.rs:358-390 | a string is looked up if and only if it is the call part of an index key, undated when history is left out, or a catalog callsign |
| Entries.HistoryRun | crates/callbook/src/db.rs:333-356 | with history every candidate is answered by its own lookup |
| Entries.CurrentRun | crates/callbook/src/db.rs:345-352 | without history a run shows exactly the candidates whose report is current, with the history removed |
| Entries.QueriesDistinct | crates/callbook/src/db.rs:336-355 | the reports of a run answer different queries if and only if no two candidates it shows normalise alike |
| Entries.SameReportTwice | crates/callbook/src/db.rs:2752-2771 | with the index keys `K1AA` and `k1aa` a run shows the same report twice |
| Entries.OnlyCatalogRefused | crates/callbook/src/db.rs:341-344 | only a catalog callsign can make the iterator yield an error |
| Entries.BareKeyIsEntry | crates/callbook/src/db.rs:2752-2771 | a normalised callsign is its own candidate, but for the closing key `ZZZZZZZZ` |
| Entries.ArchiveKeyIsEntry | crates/callbook/src/db.rs:2752-2771 | a key with anything behind a colon is a candidate of its call exactly for the four-digit years 1900 to 2099 |
| Callsigns.Parse | crates/callbook/src/callsign.rs:23-43 | accepts exactly the inputs that normalise, and returns the normalised text padded with spaces to 26 bytes |
| Callsigns.AsStrOfPadded | crates/callbook/src/callsign.rs:54-58 | rendering a key undoes its padding |
| Callsigns.NormalizeFixpoint | crates/callbook/src/callsign.rs:23-43 | a text normalises to itself exactly when it is 1 to 26 of the bytes A to Z, 0 to 9 and the slash |
| Callsigns.NormalizeExact | crates/callbook/src/callsign.rs:23-43 | white space around a text is dropped and its letters made capitals; the rest is the call if it has at most 26 callsign bytes and is refused otherwise, as is white space alone |
| Ascii.LeMeaning | crates/callbook/src/country.rs:133-139 | byte strings are compared as in a dictionary: a prefix comes first, otherwise the first different byte decides |
| Ascii.NumberRead | crates/callbook/src/v2_record.rs:263-270 | a printed number is read back up to the limit, with one plus sign in front too; a sign alone is no number |
| Ascii.TrimAround | crates/callbook/src/callsign.rs:23-43 | trimming removes exactly the white space around a text |
| Bits.XorBit | crates/callbook/src/v2_dat.rs:23-38 | a bit of `a ^ b` is set exactly when the two differ in it |
| Callsigns.NormalizeIgnoresCase | crates/callbook/src/callsign.rs:23-43 | letter case never decides a lookup |

## Left out

- Opening files: memory maps, ZIP archives, CSV rows, directory discovery and their error values. Files are byte
  sequences and the US catalog is a map with its sorted callsigns (`Lookup.Catalogued` says what loading gives).
- The C interface, the Python package and the command line: pointer plumbing and printing.
- Assets, photos, manifests, map boundaries, rendering and coordinates: file system and floating-point output.
- Lazily filled caches around I/O, and the trace, statistics and verify reports, which count what the search scan
  already characterises.
- Candidate ranking and scoring of decode phases: the lookup path never consults them.
- Parsing of the interest catalog and of country names and metadata tags: straight-line text handling. Rules and
  catalogs enter as parsed values.
- Integer widths other than those written out: offsets, lengths and counters are unbounded naturals. The 64-bit hash
  and the `i64` cast of the decoder, the 16-, 32- and 64-bit limits of the parsers, and the 32-bit ordinals of the
  key index are modelled.
- Text outside ASCII: Unicode white space in `trim`, slicing a country call in the middle of a character, and lossy UTF-8
  conversion in the count tables and the catalog; in the interest search it is modelled.
- Standard-library sorting is a stable insertion sort, which agrees with the library on total orders.
- Snapshots hold their 33 optional texts in a map from field to text; a field that is `None` is not in the map.
- Callbacks passed to visitors are modelled by the list of values visited.
- Entries.CollectAll: collects every result; that `run` stops at the first error of an entry or of its callback is not modelled.
- Cipher.DecodePhaseInto: models the wrapping arithmetic of the release profile; a build with overflow checks stops at the
  few offsets from 2^63 on where the sum behind the first key overflows.
- IdxSearch.FindCallsignAll: requires keys that never go backwards, because a binary search on other tables is unspecified.
- Lookup.LookupReportWithScratch: requires an opened database, whose index keys never go backwards and whose DAT is below 2^63
  bytes; opening does not check the order.
- LookupTheorems.ArrivalsComplete: requires strictly ascending index keys, because the search takes only the first of several equal
  bare entries (`IdxSearch.FindCallsignExact` gives the exact condition).
- LookupTheorems.NothingLost: a last name may be replaced by a later one; `LookupTheorems.ReportedRest` says which is left.
- LookupTheorems.NothingInvented: what is held may be read from a cut record; `Provenance.ReportedFromRecords` is the
  statement over whole records.
- DatScan.LookupIsScan: requires strictly ascending index keys, for the same reason as `LookupTheorems.ArrivalsComplete`; which of
  several texts is reported is said by `LookupTheorems.ReportedTexts`, in the order of arrival.
- Country.LookupInfo: requires ASCII rule bounds, because the index has 128 slots.
