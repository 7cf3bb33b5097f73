# freqm core, modelled in Dafny

freqm is a small Rust crate for radio frequency lists. It has two cores, and this project models both.

- **SparseMem** (`src/sparse_mem.rs`) is a sparse, byte-addressable memory image. It keeps a list of populated segments `(start, bytes)`. `insert(addr, data)` refuses a chunk that overlaps stored bytes. Otherwise it appends the chunk to a segment that ends at `addr`, or pushes the chunk as a new segment. It then absorbs the first segment that starts where the chunk ends. `get(lo..hi)` returns bytes only when a single segment holds the whole query. After every successful insert the store checks that no two segments overlap or touch.
- **The New England repeater list** (`src/ne_repeater.rs`) turns one CSV row into a typed record. It then turns that record into a `Repeater` with an output frequency and an optional input frequency. The input frequency comes from the offset direction: `+` or `-` shifts by the region's standard offset for the band, `*` reads the frequency from the comment, and `S` means simplex.

Layout:

- `wrappers.dfy`: `Option` and `Result`.
- `sparse_mem.dfy`: module `SparseMemory`. It holds the segment list and its invariant `Canonical`, the read function `Lookup`, and the insert as a function of the old list (`InsertResult`, `AfterInsert`). It also holds the lemmas about them and the class `SparseMem`. The class's `Insert` and `Get` are loops proved equal to those functions.
- `ne_repeater.dfy`: module `NeRepeater`. It holds the error kinds and the `Repeater` entity of `src/lib.rs`, the band table, the record conversion and the repeater conversion.

The code returns a bare `Err(())` and panics on address overflow (src/sparse_mem.rs:56). It can also extend a left neighbour before it finds the overlap (see Findings). The model follows the code, and the corrected insert is modelled beside it.

Addresses are unbounded naturals. The 64-bit limit appears only in the invariant, which requires every segment to end at or below 2^64 - 1, and in the insert's precondition. The source's 128-bit decimals are exact `real`s. Decimal parsing is a function parameter `parse: string -> Option<real>` that the model knows nothing about.

## Model

| member | source | states |
|---|---|---|
| SparseMemory.ContainsRangeIsInclusion | src/sparse_mem.rs:121-127 | For a non-empty query `b`, the endpoint comparison holds exactly when every address of `b` lies in `a`, in both directions. |
| SparseMemory.FirstIsEarliest | src/sparse_mem.rs:108-117 | The front-to-back scan returns the earliest matching segment: none before it matches, and it finds nothing only when no segment matches. |
| SparseMemory.Lookup | src/sparse_mem.rs:107-118 | A read yields bytes exactly when some segment holds all of `[lo, hi)`, and then it yields `hi - lo` bytes. |
| SparseMemory.LookupAt | src/sparse_mem.rs:107-118 | In a well-formed store a read returns the slice of whichever segment holds the query, so the first-match order of the scan never matters. |
| SparseMemory.LookupAcrossGap | src/sparse_mem.rs:107-118 | A read spanning the gap between two stored segments returns nothing: the store never joins bytes from two segments. |
| SparseMemory.InsertResult | src/sparse_mem.rs:58-65 | An insert fails exactly when `[addr, addr+len)` overlaps some stored segment. |
| SparseMemory.InsertPushes | src/sparse_mem.rs:77-85 | If no segment ends at `addr` and none starts at `addr+len`, the chunk becomes a new last segment and every other segment is unchanged. |
| SparseMemory.InsertExtendsLeft | src/sparse_mem.rs:67-73 | If segment `j` ends at `addr` and nothing follows, `data` is appended to segment `j` in place, no segment is created, and nothing else changes. |
| SparseMemory.InsertAbsorbsFollower | src/sparse_mem.rs:87-97 | If no segment ends at `addr` but segment `k` starts at `addr+len`, then `k` is removed, its bytes are appended to the new chunk at the end, and the others keep their values and order. |
| SparseMemory.InsertBridges | src/sparse_mem.rs:87-97 | If the chunk joins a left neighbour `j` and a follower `k`, then `j != k`, `j` receives `data` and then `k`'s bytes, `k` is removed (shifting `j` down when `k < j`), and the rest keep their order. |
| SparseMemory.InsertKeepsCanonical | src/sparse_mem.rs:29-52 | A successful insert into a list with no overlapping, adjacent or empty segments leaves such a list, so the check at line 99 never fires. |
| SparseMemory.InsertThenGet | src/sparse_mem.rs:54-101 | After a successful insert, reading `[addr, addr+len)` returns exactly `data`. |
| SparseMemory.InsertPreservesReads | src/sparse_mem.rs:54-101 | A successful insert changes no read that succeeded before it: every previously stored byte is still returned at its address. |
| SparseMemory.InsertGrowsTotal | src/sparse_mem.rs:54-101 | A successful insert adds exactly `len` bytes to the total stored, whichever merge it performs. |
| SparseMemory.RejectedInsertUnchanged | src/sparse_mem.rs:58-75 | An insert that meets an overlap at segment `k` fails, and it leaves the list unchanged when no earlier segment ends at `addr`. |
| SparseMemory.RejectedInsertCorrupts | src/sparse_mem.rs:58-75 | When a segment `j` ending at `addr` comes before the first overlapping segment, the insert fails but leaves `data` appended to `j`, and the list is no longer well-formed. |
| SparseMemory.RejectedInsertExample | src/sparse_mem.rs:58-75 | For segments `(0,[1,2])` and `(3,[5,6])`, `insert(2,[7,8])` fails, leaves `(0,[1,2,7,8])` beside `(3,[5,6])`, and these overlap. |
| SparseMemory.InsertExtendScenario | tests/sparse_mem.rs:3-13 | The calls insert(0,[1,2]), insert(10,[50,51]), insert(1,[8,9]) and insert(2,[3,4]) return Ok, Ok, Err and Ok, and leave `[(0,[1,2,3,4]), (10,[50,51])]`. |
| SparseMemory.InsertPrefixScenario | tests/sparse_mem.rs:15-24 | The calls insert(2,[3,4]), insert(1,[9,10]) and insert(0,[1,2]) return Ok, Err and Ok, and leave `[(0,[1,2,3,4])]`. |
| SparseMemory.AcceptedInsertsKeepCanonical | src/sparse_mem.rs:99 | From a well-formed list, such as the empty list of a new store, any run of inserts that all succeed leaves the list well-formed. |
| SparseMemory.CheckedInsertKeepsCanonical | src/sparse_mem.rs:54-101 | The corrected insert keeps the list well-formed whatever the outcome. It leaves the list unchanged on failure and acts as the original insert on success. |
| SparseMemory.CheckedInsertsKeepCanonical | src/sparse_mem.rs:54-101 | Any run of corrected inserts, successful or not, keeps a well-formed list well-formed. |
| SparseMemory.SparseMem.constructor | src/sparse_mem.rs:7-8 | A default store holds no segment and satisfies the invariant. |
| SparseMemory.SparseMem.Insert | src/sparse_mem.rs:54-101 | The two-loop insert returns `InsertResult` of the old list, leaves exactly `AfterInsert` of the old list, and keeps the invariant when it succeeds. Its one-left-neighbour assertion is proved from the invariant. |
| SparseMemory.SparseMem.CollectFollower | src/sparse_mem.rs:87-97 | The follower loop removes the first segment that starts at `end` and appends its bytes to the target segment, re-indexing the target when the removed segment came before it. |
| SparseMemory.SparseMem.InsertChecked | src/sparse_mem.rs:54-101 | The corrected insert scans for an overlap before changing anything. It returns the same result as the original and always keeps the invariant. |
| SparseMemory.SparseMem.Ranges | src/sparse_mem.rs:103-105 | Returns the stored segment list as it is. |
| SparseMemory.SparseMem.Get | src/sparse_mem.rs:107-118 | The scan returns `Lookup` of the stored list: the slice from the first segment holding the query, or nothing. |
| SparseMemory.SparseMem.Index | src/sparse_mem.rs:129-134 | Indexing succeeds only where `get` would. It returns `get`'s bytes, exactly `hi - lo` of them. |
| NeRepeater.StandardOffsetNewEngland | src/ne_repeater.rs:75-93 | An offset exists exactly for frequencies in the bands 28-29.7, 50-54, 144-148, 219-225, 420-450, 902-928 and 1240-1300 MHz, ends included. It is that band's offset (0.1, 1, 0.6, 1.6, 5, 25, 12) and is smaller than the frequency. |
| NeRepeater.BandsOrdered | src/ne_repeater.rs:75-93 | The bands are listed in increasing order with gaps between them, so the order of the tests does not matter. |
| NeRepeater.TwoMetreOffset | src/ne_repeater.rs:65-81 | Every frequency in the 2 m band gets 0.6 MHz; the 1 MHz and 1.5 MHz variants in the doc comment are never produced. |
| NeRepeater.GapHasNoOffset | src/ne_repeater.rs:75-93 | Frequencies strictly between the 2 m and 1.25 m bands have no standard offset. |
| NeRepeater.RecordFromFields | src/ne_repeater.rs:95-129 | A row fails with `FieldMissing` carrying its field count unless it has 13, 14 or 15 fields. Otherwise fields 0-12 are copied by position and the timestamp is field 13 when present. |
| NeRepeater.RecordRoundTrip | src/ne_repeater.rs:109-127 | Writing a record as its columns and converting them back gives the same record. |
| NeRepeater.TrailingFieldIgnored | src/ne_repeater.rs:98-107 | The empty 15th field produced by a trailing comma does not change the record. |
| NeRepeater.FirstToken | src/ne_repeater.rs:153-155 | The first item of a split on a space: a prefix of the text with no space, ending at the first space or at the end. |
| NeRepeater.FirstTokenOfSpaced | src/ne_repeater.rs:153-155 | For a token without spaces, followed by a space and anything else, the first item is exactly that token. |
| NeRepeater.RepeaterFromRecord | src/ne_repeater.rs:133-135 | A non-decimal output frequency is reported first, as `OutputFreqParseFailure` with the text. On success the output frequency is the parsed value, unchanged. |
| NeRepeater.UnknownDirectionRefused | src/ne_repeater.rs:167-169 | Once the output frequency parses, the conversion fails with `InvalidOffsetKind` exactly for directions other than `+`, `-`, `*` and `S`, and names the direction. |
| NeRepeater.ShiftedInput | src/ne_repeater.rs:137-147 | With `+` or `-`, the conversion fails exactly when the output frequency is in no band, with `FreqNotInAnyBand` naming it. Otherwise the input is one standard offset above (`+`) or below (`-`) the output, and it is positive. |
| NeRepeater.SimplexInput | src/ne_repeater.rs:163-166 | With `S`, the input frequency equals the output frequency. |
| NeRepeater.CustomInput | src/ne_repeater.rs:148-162 | With `*`, a comment without the `*Input: ` prefix, and only such a comment, gives no input frequency. Every failure is `CommentParse` naming the whole comment. |
| NeRepeater.CustomInputToken | src/ne_repeater.rs:150-157 | With `*` and a comment `*Input: <token>` followed by nothing or by a space and anything else, the input frequency is the token's parsed value, or the conversion fails with `CommentParse`: only the first space-separated item is read. |
| NeRepeater.OnlyThreeFieldsMatter | src/ne_repeater.rs:131-177 | Only the output frequency, the direction and the comment decide the repeater; the other columns are never consulted. |

## Left out

- SparseMemory.SparseMem.Insert: zero-length inserts are excluded by the precondition `0 < |data|`. The code does not treat them as a no-op. At a free address it pushes an empty segment and the follower loop then removes that same segment, so `self.ranges[appended]` indexes past the end. At a segment's start it moves that segment to the back.
- SparseMemory.SparseMem.Insert: address overflow is the precondition `addr + |data| <= 2^64 - 1`. The code's `checked_add(...).unwrap()` panics there.
- SparseMemory.SparseMem.Insert: the invariant is promised only after a successful insert. After a rejected insert the store can be malformed (see Findings). The code's panicking `ensure_well_formed` is the predicate `Canonical`, not a runtime check.
- SparseMemory.InsertResult and SparseMemory.AfterInsert follow the code only while at most one segment ends at `addr`, which `Canonical` guarantees. A store left malformed by a rejected insert can hold two such segments; the code's next insert that meets no overlap then panics at the assertion at src/sparse_mem.rs:68 or at `ensure_well_formed` at :99, where these functions return a result.
- SparseMemory.SparseMem.Get: a reversed range (`lo > hi`) is excluded by the precondition only when some segment would be chosen. Only then does the code slice and panic.
- SparseMemory.SparseMem.Get and SparseMemory.SparseMem.Index return a copy of the bytes, not a borrowed slice, so aliasing is not modelled. The `u64` to `usize` conversions in `get` cannot fail on a 64-bit target and are not modelled.
- SparseMemory.SparseMem.Index: the code panics when `get` finds nothing. That case is the precondition.
- NeRepeater.RepeaterFromRecord: 128-bit decimals are exact reals, so NaN, infinities and rounding to 34 digits are not modelled. Parsing text into a decimal is the parameter `parse`.
- NeRepeater.RepeaterFromRecord: in the code, the `CommentParse` error for an empty split iterator cannot happen, because splitting always yields a first item. The model has only the parse-failure case.
- NeRepeater.RecordFromFields: the CSV reader that splits a line into fields is not part of this model; a row is a sequence of strings. The code returns the field-count error boxed as a generic error, and the model returns the `FreqmError` value itself.
- The `Repeater` methods in `src/lib.rs` are all `todo!()`, and `Site` has no behaviour, so neither is modelled.
- `src/main.rs` (command line, printing) and `src/anytone_ht.rs` (serial-port I/O) are not part of this model. Neither is `hrb_to_chrip/src/main.rs` (file transcoding with floats).
- `src/csv.rs`, `src/icom_id51a.rs` and `src/radioid.rs` hold only data declarations with no logic. They are not part of this model.

## Findings

| source | as written | input that shows it | evidently intended | confidence | as-written member | corrected member |
|---|---|---|---|---|---|---|
| src/sparse_mem.rs:58-75 | The scan extends a segment that ends at `addr` as soon as it meets it. A segment later in the list can still overlap the chunk, and the insert then returns `Err(())` without undoing the extension. | Segments `(0,[1,2])` and `(3,[5,6])`, then `insert(2,[7,8])`: the call returns `Err(())` and leaves `(0,[1,2,7,8])`, which overlaps `(3,[5,6])`. | A rejected insert leaves the store unchanged and well-formed: in tests/sparse_mem.rs:9-12 and :20-23 the rejected calls leave no trace in the final `ranges()`, and `ensure_well_formed` at src/sparse_mem.rs:99 checks the invariant after every accepted insert. | not executed | SparseMemory.RejectedInsertCorrupts | SparseMemory.CheckedInsertKeepsCanonical |
