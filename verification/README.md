# Loglake in Dafny

A model of five parts of Loglake, with the properties they are there for.

**Group-count footers** (`Bytes`, `Utf8`, `Uvarint`, `FooterFormat`, `FooterCodec`, `FooterLaws`,
`FooterAgreement`, `FooterBlob`). A file's footer stores, column by column, how many rows hold each
distinct value: unsigned LEB128 integers (section 7.6 of DWARF 5), length-prefixed byte runs and
values front-coded against their predecessors. One writer is read by four decoders. `FooterFormat`
says what each of them reads at each byte; `FooterCodec` has the writer and the decoders as loops over
an output buffer and a cursor, each proved to compute what `FooterFormat` says. The laws: decoding
inverts encoding for every summary; no accepted body is a prefix of another; the three cheap walks
agree with the full decode on every accepted body, whoever wrote it; the work of every decoder is
bounded by the length of the body, whatever counts it claims. Text is validated as in section 4 of
RFC 3629.

**The trigram bloom index** (`TrigramIndex`, `TokenBloom`, `BloomCodec`, `Pruning`). From row text to
trigrams, to bits, to hexadecimal text and back to a probe, with the two hash functions arbitrary.
The law: no row group that holds a match is ever skipped.

**The Rust source masker** (`RustMask`, `MaskLaws`, `MaskForms`, `MaskTokens`, `NonTest`). A scanner
that blanks comments and literals in place, and the removal of `cfg(test)` items built on it. The laws:
the mask only blanks, leaves no opener behind and is idempotent; every source is a sequence of code
characters, comments and literals, the last perhaps cut off, and its mask is that sequence with exactly
the comments and literals blanked; what is removed is exactly the items of test attributes; and after
the removal the rest still scans as it did.

**Placing commits around an outage** (`OutageStamps`, `RecoveryDrain`, `DrainLaws`). A recorded time
stands for a half-open interval. The laws: a commit is placed on a side if and only if every course of
events that fits the record agrees; the drain bracket holds the time to drain of every history that
agrees with the scrapes and is clear at the last zero scrape, and no narrower one would. That it is
clear there follows from the record only if every pod is shown at zero at that very time.

**Core pieces** (`Attributes`, `Promotion`, `JwksCache`, `JwksRuns`, `JwksOrder`, `EventTime`,
`EventBatch`). Attribute promotion and backfill; the JWK Set cache (section 5 of RFC 7517) as an
interleaving of its callers' steps, with the order in which responses reach it; the columnar event
batch and its two time columns.

`dafny verify dfyconfig.toml` checks the whole project. `Wrappers`, `Sequences`
and `Numbers` are shared helpers.

## What does not hold

Seven things one might expect fail on some inputs. Each has a lemma that says exactly when it holds.

- A column name stored twice: the one-column read serves the first, the full decode keeps the last
  (`FooterAgreement.NamedAgreesIff`, `FooterAgreement.RepeatedNameDisagrees`).
- The char literal of an escaped single quote is masked one character short, so that code after it
  can be taken for a literal (`MaskForms.EscapedCharForm`, `MaskForms.EscapedQuoteSwallowsCode`).
- Removing test items is not idempotent: blanking an item can bring the parts of another attribute
  together, at any of its six gaps (`NonTest.StripIdempotentIff`, `NonTest.StripNotIdempotent`).
- With stamps of mixed precision a commit can be called ambiguous at the pause although it cannot have
  preceded it (`OutageStamps.PauseAmbiguousIff`, `OutageStamps.PauseNamedTooOften`).
- Backfill equals direct promotion only for a batch with none of the promoted names
  (`Promotion.BackfillIffFresh`, `Promotion.WideningIffFresh`).
- A drain bracket need not bracket a drain: with zero scrapes at different times a pod can have filled
  again in between, unseen (`DrainLaws.SurelyClearIff`, `DrainLaws.SurelyClearsIff`,
  `DrainLaws.RefillUnseen`).
- JWK Set responses need not be stored in the order received. They are in every run with never two of
  them pending at once, and from every reachable state with two pending the order can be lost
  (`JwksOrder.OneAtATimeKeepsOrder`, `JwksOrder.OrderCanInvert`).

Two things about the row-group bloom list are as the code has them and worth knowing: it accepts
anything after its last bloom (`BloomCodec.ListIgnoresTail`), and with a count or a length beyond 32
bits it can read as another list (`BloomCodec.CountCut`, `BloomCodec.LengthCut`).

Where comments and code disagree the model follows the code: the comments on `to_bytes` and on
`rowgroup_blooms_to_hex` leave out the magic and version bytes that both writers emit.

## Model

| member | source | states |
|---|---|---|
| `Uvarint.RoundTrip` | crates/loglake-bloom/src/group_counts.rs:364-402 | reading inverts writing for every u64, at any offset of any buffer, and stops just past the run |
| `Uvarint.AcceptsExactly` | crates/loglake-bloom/src/group_counts.rs:382-402 | a read succeeds if and only if the bytes there are a run that ends within ten bytes with a tenth byte of at most 1; it then yields the exact sum of the 7-bit groups |
| `Uvarint.GroupsBelow` | crates/loglake-bloom/src/group_counts.rs:387-398 | the sum of groups of an accepted run is below 2^64: no bit is lost |
| `Uvarint.EncodedShortest` | crates/loglake-bloom/src/group_counts.rs:364-370 | no run that denotes a number is shorter than the one the writer emits |
| `Uvarint.EncodedGroups` | crates/loglake-bloom/src/group_counts.rs:364-370 | the written run denotes the number and has a continuation bit on every byte but the last |
| `Uvarint.ReadExtends` | crates/loglake-bloom/src/group_counts.rs:383-402 | a successful read is not disturbed by bytes that follow |
| `FooterCodec.Sink.constructor` | crates/loglake-bloom/src/group_counts.rs:292-293 | the writer starts from an empty buffer |
| `FooterCodec.Sink.PutUvarint` | crates/loglake-bloom/src/group_counts.rs:364-370 | the shift loop appends exactly the shortest run |
| `FooterCodec.Sink.PutBytes` | crates/loglake-bloom/src/group_counts.rs:372-375 | appends the length and the bytes |
| `FooterFormat.CommonPrefix` | crates/loglake-bloom/src/group_counts.rs:356-362 | the longest common prefix: equal up to it, and different or ended after it |
| `FooterCodec.CommonPrefixLen` | crates/loglake-bloom/src/group_counts.rs:356-362 | the byte loop finds the longest common prefix |
| `FooterCodec.EncodeBody` | crates/loglake-bloom/src/group_counts.rs:292-312 | the writer emits the body of its summary, columns and values in bytewise order |
| `FooterCodec.PutColumn` | crates/loglake-bloom/src/group_counts.rs:296-310 | one column: name, nulls, number of values, then each value front-coded against the one before |
| `FooterCodec.PutTally` | crates/loglake-bloom/src/group_counts.rs:303-309 | one value: shared length, remaining suffix, count |
| `Bytes.BeforeIff` | crates/loglake-bloom/src/group_counts.rs:296-303 | the order of names and values is decided by the first byte that differs, the shorter first when none does |
| `FooterCodec.Cursor.constructor` | crates/loglake-bloom/src/group_counts.rs:377-380 | a cursor starts at the first byte |
| `FooterCodec.Cursor.TakeUvarint` | crates/loglake-bloom/src/group_counts.rs:383-402 | the shift-and-or loop on 64 bits reads what the format says, and refuses runs that are cut, overlong or too large |
| `FooterCodec.ShiftedGroup` | crates/loglake-bloom/src/group_counts.rs:392 | a group shifts in above every bit there is, so or-ing it in adds it, whole except that a tenth group above 1 loses bits |
| `FooterCodec.Cursor.TakeBytes` | crates/loglake-bloom/src/group_counts.rs:405-411 | a length-prefixed run, or nothing when it claims more than is left |
| `FooterCodec.NextValue` | crates/loglake-bloom/src/group_counts.rs:274-290 | the value rebuilt from its predecessor, or nothing when the prefix is longer than the predecessor or the result is not text |
| `FooterCodec.SkipValues` | crates/loglake-bloom/src/group_counts.rs:264-271 | passes exactly the entries claimed, and fails exactly when they run dry |
| `FooterCodec.DecodeBody` | crates/loglake-bloom/src/group_counts.rs:314-339 | the full decode yields the summary the whole body denotes; it handles at most a third as many columns and values as there are bytes, accepted or not |
| `FooterCodec.DecodeColumn` | crates/loglake-bloom/src/group_counts.rs:163-184 | the one-column read yields the first column of that name, within the same bound |
| `FooterCodec.DecodeColumnTotals` | crates/loglake-bloom/src/group_counts.rs:199-216 | the census of row totals, saturating, within the same bound |
| `FooterCodec.DecodeColumnNames` | crates/loglake-bloom/src/group_counts.rs:220-233 | the census of names in stored order, within the same bound |
| `FooterCodec.TakeTotal` | crates/loglake-bloom/src/group_counts.rs:207-213 | adding step by step with saturation gives the saturated sum of nulls and all stored counts |
| `Utf8.ValidIff` | crates/loglake-bloom/src/group_counts.rs:319 | text is exactly what sequences of Unicode scalar values encode to |
| `FooterLaws.TallyRoundTrip` | crates/loglake-bloom/src/group_counts.rs:274-309 | front coding over any predecessor rebuilds the value byte for byte, wherever the shared prefix ends |
| `FooterLaws.ColumnRoundTrip` | crates/loglake-bloom/src/group_counts.rs:297-333 | a written column reads back whole, at any offset |
| `FooterLaws.BodyRoundTrip` | crates/loglake-bloom/src/group_counts.rs:292-339 | the cursor stops on the last byte of a written body, having seen every column in order |
| `FooterLaws.DecodeInvertsEncode` | crates/loglake-bloom/src/group_counts.rs:292-339 | every summary, with arbitrary u64 counts, comes back exactly |
| `FooterLaws.ExtensionRejected` | crates/loglake-bloom/src/group_counts.rs:335-338 | an accepted body with anything appended is refused |
| `FooterLaws.TruncationRejected` | crates/loglake-bloom/src/group_counts.rs:314-339 | an accepted body cut short anywhere is refused |
| `FooterLaws.WalkIgnoresTail` | crates/loglake-bloom/src/group_counts.rs:199-233 | the censuses do not look past the last column |
| `FooterAgreement.SkipsLikeRebuild` | crates/loglake-bloom/src/group_counts.rs:264-290 | skipping values ends on the same byte as rebuilding them, over the same counts |
| `FooterAgreement.WalksAlike` | crates/loglake-bloom/src/group_counts.rs:163-233 | over any number of columns, the skipping walk and the full decode follow the same boundaries |
| `FooterAgreement.CensusesAgree` | crates/loglake-bloom/src/group_counts.rs:199-233 | on every body the full decode accepts, the names come in stored order and each total is min(2^64-1, nulls + sum of counts) |
| `FooterAgreement.NamedIsFirst` | crates/loglake-bloom/src/group_counts.rs:163-184 | on an accepted body the one-column read yields the first stored column of that name |
| `FooterAgreement.NamedAgreesWithDecode` | crates/loglake-bloom/src/group_counts.rs:163-184 | it succeeds exactly for the names the full decode lists, and when no name repeats it yields the same map and nulls |
| `FooterAgreement.DecodeKeepsLast` | crates/loglake-bloom/src/group_counts.rs:319-334 | the full decode keeps the last stored column of each name |
| `FooterAgreement.NamedAgreesIff` | crates/loglake-bloom/src/group_counts.rs:163-184 | for any stored name, repeated or not, the one-column read agrees with the full decode if and only if its first and last columns hold the same counts |
| `FooterAgreement.RepeatedNameDisagrees` | crates/loglake-bloom/src/group_counts.rs:163-184 | a family of bodies with a repeated name on which the two reads differ |
| `FooterAgreement.BodyBounds` | crates/loglake-bloom/src/group_counts.rs:259-290 | columns and values of an accepted body number less than a third of its bytes together, and no value is longer than the body despite prefix sharing |
| `FooterAgreement.FrontCodingCost` | crates/loglake-bloom/src/group_counts.rs:299-309 | front coding costs at most one byte for each value that shares no prefix, and nothing for the others |
| `FooterAgreement.BodyCost` | crates/loglake-bloom/src/group_counts.rs:292-312 | a written body is at most the plain length-prefixed encoding plus one byte per value that shares no prefix |
| `FooterBlob.Foreign.BlobAcceptsExactly` | crates/loglake-bloom/src/group_counts.rs:236-255 | a blob yields a body if and only if it has the header and carries that body raw, or carries a payload that inflates to it within 64 MiB |
| `FooterBlob.Foreign.WriterStoresShorter` | crates/loglake-bloom/src/group_counts.rs:119-138 | the compressed body is stored exactly when it is shorter, behind the header, and never more than the body |
| `FooterBlob.Foreign.BlobRoundTrip` | crates/loglake-bloom/src/group_counts.rs:236-255 | the body inside the blob comes back, unless it was compressed from more than 64 MiB |
| `FooterBlob.Foreign.FooterRoundTrip` | crates/loglake-bloom/src/group_counts.rs:119-148 | for any lossless compressor a written footer reads back exactly when it was kept raw or its body is at most 64 MiB, otherwise as absent, and never as another summary |
| `FooterBlob.WriterCensuses` | crates/loglake-bloom/src/group_counts.rs:199-233 | on a written body the censuses list the columns in ascending order with their row totals |
| `FooterBlob.WriterColumn` | crates/loglake-bloom/src/group_counts.rs:163-184 | on a written body the one-column read yields the values in ascending order, for exactly the columns there are |
| `FooterBlob.WrittenNamesAscend` | crates/loglake-bloom/src/group_counts.rs:292-312 | on a written body an earlier column name is smaller at the first byte that differs, or a prefix |
| `FooterBlob.WrittenValuesAscend` | crates/loglake-bloom/src/group_counts.rs:299-309 | and so are the values of each column, with the counts of the summary |
| `FooterBlob.StorableIff` | crates/loglake-bloom/src/group_counts.rs:292-312 | what the writer can store is exactly text throughout, with every length and count within 64 bits |
| `TrigramIndex.LowerIff` | crates/loglake-bloom/src/lib.rs:171 | lowering joins exactly the two cases of each ASCII letter and leaves no capital |
| `TrigramIndex.TrigramsAre` | crates/loglake-bloom/src/lib.rs:170-179 | the trigrams of a text are its windows of three characters in order, ASCII case aside, without capitals |
| `TrigramIndex.TrigramSet.constructor` | crates/loglake-bloom/src/lib.rs:206-212 | a new set is empty |
| `TrigramIndex.TrigramSet.Add` | crates/loglake-bloom/src/lib.rs:215-231 | contains-then-insert over reused buffers adds exactly the trigrams of the string |
| `TrigramIndex.Collect` | crates/loglake-bloom/src/lib.rs:198-244 | after any rows the set holds exactly the trigrams of all of them |
| `TrigramIndex.QueryTrigrams` | crates/loglake-bloom/src/lib.rs:250-261 | nothing for a query shorter than three characters, otherwise the first occurrence of each of its trigrams in order |
| `TrigramIndex.FirstsDistinct` | crates/loglake-bloom/src/lib.rs:255-260 | the seen-set filter keeps every trigram, once |
| `TrigramIndex.OccurrenceHasTrigrams` | crates/loglake-bloom/src/lib.rs:170-179 | a query that occurs in a row, ASCII case aside, has all its trigrams among the row's |
| `TokenBloom.ProbeIs` | crates/loglake-bloom/src/lib.rs:310-315 | wrapping at each step is wrapping once: probe i is h1 plus i times h2 modulo 2^64, reduced to a bit |
| `TokenBloom.Filter.constructor` | crates/loglake-bloom/src/lib.rs:300-303 | all bits clear |
| `TokenBloom.Filter.Insert` | crates/loglake-bloom/src/lib.rs:310-317 | sets the probe bits of the token and changes no other bit |
| `TokenBloom.Filter.Query` | crates/loglake-bloom/src/lib.rs:321-331 | answers whether every probe bit is set |
| `TokenBloom.Build` | crates/loglake-bloom/src/lib.rs:286-308 | the set bits are exactly the union of the probes of the tokens |
| `TokenBloom.NoFalseNegatives` | crates/loglake-bloom/src/lib.rs:319-331 | an inserted token is always reported present |
| `TokenBloom.PresentIff` | crates/loglake-bloom/src/lib.rs:319-331 | a token is reported absent exactly when one of its probes is a probe of no inserted token |
| `TokenBloom.BytesDependOnSet` | crates/loglake-bloom/src/lib.rs:286-317 | the bytes depend on the set of tokens alone, not on order or repetition |
| `BloomCodec.BytesRoundTrip` | crates/loglake-bloom/src/lib.rs:334-363 | the bytes of a bloom read back if and only if it has a nonzero k and some bits |
| `BloomCodec.BytesCanonical` | crates/loglake-bloom/src/lib.rs:344-363 | an accepted payload is the only one of its bloom |
| `BloomCodec.PayloadOpens` | crates/loglake-bloom/src/lib.rs:52-58 | a payload opens with the letters LKBF, a 1 and the number of probes, then the bits |
| `BloomCodec.HexAt` | crates/loglake-bloom/src/lib.rs:366-375 | each byte is two lower-case digits, the high half first |
| `BloomCodec.ToHexText` | crates/loglake-bloom/src/lib.rs:366-375 | the digit loop writes two lower-case digits a byte, high half first |
| `BloomCodec.FromHexText` | crates/loglake-bloom/src/lib.rs:378-396 | the pair loop reads the digits back; odd lengths and foreign characters are refused |
| `BloomCodec.HexRoundTrip` | crates/loglake-bloom/src/lib.rs:366-396 | hexadecimal text reads back byte for byte |
| `BloomCodec.OddIsRefused` | crates/loglake-bloom/src/lib.rs:378-382 | text of odd length is refused |
| `BloomCodec.HexCanonical` | crates/loglake-bloom/src/lib.rs:383-396 | accepted text is what the writer emits, up to the case of its digits |
| `BloomCodec.HexFormRoundTrip` | crates/loglake-bloom/src/lib.rs:366-397 | the hexadecimal form of a bloom reads back if and only if the bloom is well formed |
| `BloomCodec.HexFormCanonical` | crates/loglake-bloom/src/lib.rs:378-397 | an accepted hexadecimal form is the writer's, up to the case of its digits |
| `BloomCodec.ListOpens` | crates/loglake-bloom/src/lib.rs:54-58 | a list payload opens with the letters LKBL and a 1 |
| `BloomCodec.U32Is` | crates/loglake-bloom/src/lib.rs:406-410 | counts and lengths are written lowest byte first |
| `BloomCodec.RowgroupBloomsToHex` | crates/loglake-bloom/src/lib.rs:402-418 | the list writer emits magic, version, count and length-prefixed blooms, lengths cut to 32 bits |
| `BloomCodec.RowgroupBloomsFromHex` | crates/loglake-bloom/src/lib.rs:422-465 | the list reader yields the blooms in order, or nothing |
| `BloomCodec.ListRoundTrip` | crates/loglake-bloom/src/lib.rs:402-465 | a list of well-formed blooms comes back in order if and only if its count and every length fit 32 bits |
| `BloomCodec.CountCut` | crates/loglake-bloom/src/lib.rs:402-465 | a count beyond 32 bits: of blooms that fit, the reader gets as many as the cut count says |
| `BloomCodec.LengthCut` | crates/loglake-bloom/src/lib.rs:402-465 | a first bloom too long: the list reads as absent if less than a bloom is left of its length or the bytes after do not read as the blooms still due, otherwise as a different list with the start of that bloom in its place |
| `BloomCodec.ListCanonical` | crates/loglake-bloom/src/lib.rs:422-465 | an accepted list payload is what the writer emits for its blooms, then whatever follows |
| `BloomCodec.ListIgnoresTail` | crates/loglake-bloom/src/lib.rs:452-465 | bytes after the last bloom change nothing |
| `Pruning.IndexRowGroup` | crates/loglake-bloom/src/lib.rs:198-308 | collecting and building at any size gives a filter of exactly the trigrams of the rows |
| `Pruning.PruningLosesNoRow` | crates/loglake-bloom/src/lib.rs:160-465 | through trigrams, bits, hexadecimal list and back: every trigram of a query that occurs in a row of group i is present in bloom i |
| `Pruning.SetGivesReferenceBytes` | crates/loglake-bloom/src/lib.rs:181-244 | a bloom from the deduplicating set is byte-identical to one from all trigrams |
| `RustMask.RustCodeMask` | scripts/check-chart.py:552-633 | the scan in place ends and yields the mask of the source |
| `RustMask.BlankRange` | scripts/check-chart.py:556-559 | overwrites everything but newlines in the range, and nothing else |
| `RustMask.ScanAt` | scripts/check-chart.py:562-632 | which form starts at a position and where it ends, form by form in the source's order |
| `RustMask.ScanBlock` | scripts/check-chart.py:569-580 | the depth loop finds the end of a nested comment |
| `RustMask.ScanRaw` | scripts/check-chart.py:587-603 | the end of a raw literal, with the hashes that opened it |
| `RustMask.ScanString` | scripts/check-chart.py:605-614 | the end of a string literal, past escapes |
| `RustMask.ScanChar` | scripts/check-chart.py:621-631 | the end of a compact char literal, or none for a lifetime |
| `MaskLaws.MaskOnlyBlanks` | scripts/check-chart.py:552-633 | the mask keeps the length and exactly the newlines, and maps each character to itself or a space |
| `MaskLaws.MaskHasNoOpeners` | scripts/check-chart.py:563-616 | no double quote and no comment opener is left |
| `MaskLaws.KeptIsScanned` | scripts/check-chart.py:561-633 | a character that survives was itself scanned and kept, and the mask from there on is its own mask |
| `MaskLaws.BlankingCommutes` | scripts/check-chart.py:552-633 | blanking whole masked forms and kept characters before masking gives the mask with those blanked |
| `MaskLaws.MaskIdempotent` | scripts/check-chart.py:552-633 | masking a mask changes nothing |
| `MaskForms.LineCommentForm` | scripts/check-chart.py:563-568 | a line comment is blanked to its newline or the end |
| `MaskForms.BlockCommentForm` | scripts/check-chart.py:569-582 | a block comment is blanked exactly to its own closer, however deeply comments nest in it |
| `MaskForms.StringForm` | scripts/check-chart.py:605-616 | a string literal is blanked exactly to its closing quote, past every escape |
| `MaskForms.RawForm` | scripts/check-chart.py:585-603 | a raw literal ends at the first quote followed by as many hashes as opened it |
| `MaskForms.PlainCharForm` | scripts/check-chart.py:618-624 | a one-character literal is blanked whole and a lifetime is left alone |
| `MaskForms.EscapedCharForm` | scripts/check-chart.py:621-631 | an escaped char literal is blanked whole if and only if the escaped character is not a quote |
| `MaskForms.EscapedQuoteSwallowsCode` | scripts/check-chart.py:621-631 | an input whose code is blanked because of it |
| `MaskTokens.CodeKept` | scripts/check-chart.py:561-632 | the scanner keeps a character if and only if, with what follows, it opens no comment and no literal |
| `MaskTokens.TokenStep` | scripts/check-chart.py:561-632 | every well-formed comment and literal is blanked exactly to its own end, and one cut off by the end of the source to that end |
| `MaskTokens.MaskOfTokens` | scripts/check-chart.py:552-633 | a source written as code characters, comments and literals masks to the same sequence with exactly the comments and literals blanked |
| `MaskTokens.EverySourceHasTokens` | scripts/check-chart.py:552-633 | every source can be written so |
| `NonTest.NonTestRustSource` | scripts/check-chart.py:636-681 | the loop over attributes yields the source with the items blanked |
| `NonTest.AttributeIff` | scripts/check-chart.py:165 | an attribute stands at a position exactly when its seven parts stand from there on with only white space between |
| `NonTest.SpaceIs` | scripts/check-chart.py:165 | which characters are white space |
| `NonTest.SearchCfg` | scripts/check-chart.py:165 | the first test attribute at or after a position, white space allowed between its parts |
| `NonTest.FindItemEnd` | scripts/check-chart.py:643-676 | the delimiter loop finds the end of the item |
| `NonTest.SemicolonItemIff` | scripts/check-chart.py:650-654 | an item ends only at a semicolon exactly when a word before its first delimiter is use, static or type, or one is const and none is fn |
| `NonTest.ItemEndIsFirst` | scripts/check-chart.py:643-676 | an item ends just past the first balanced semicolon, or the first balanced closing brace unless the words before its first delimiter forbid it, or with the source |
| `NonTest.SpansAreItems` | scripts/check-chart.py:641-680 | what is removed is a sequence of items, in order and apart |
| `NonTest.SpansCover` | scripts/check-chart.py:641-680 | every attribute of the mask is inside one of them |
| `NonTest.StripsExactlyItems` | scripts/check-chart.py:636-681 | exactly those spans are blanked, everything else stays, and every attribute of the mask is inside one |
| `NonTest.RestReadsTheSame` | scripts/check-chart.py:636-681 | the mask of the result is the mask of the source with the same spans blanked |
| `NonTest.StripIdempotentIff` | scripts/check-chart.py:636-681 | removing twice is removing once if and only if no further attribute stands scattered in the mask: its seven parts outside the removed spans, with only white space and whole spans between them |
| `NonTest.StripNotIdempotent` | scripts/check-chart.py:636-681 | for each of the six gaps, a source whose attribute comes together there when an item is removed |
| `OutageStamps.RecordedStamp` | scripts/grade-kind-postgres-outage.py:55-66 | there is a stamp exactly for a text that parsed; it starts at the parsed time and lasts a positive time |
| `OutageStamps.StampOfText` | scripts/grade-kind-postgres-outage.py:40-66 | the stamp lasts one unit of the last digit of the fraction after the first time of day in the text |
| `OutageStamps.WholeSecondOfText` | scripts/grade-kind-postgres-outage.py:40-66 | without a time of day, or without a fraction after it, the stamp lasts a second |
| `OutageStamps.ResolutionIsLastDigit` | scripts/grade-kind-postgres-outage.py:59-65 | a stamp lasts one unit of its last written digit, down to a microsecond |
| `OutageStamps.StampCoversItsInstants` | scripts/grade-kind-postgres-outage.py:43-66 | a stamp covers exactly the instants whose reading, cut to its digits, it is |
| `OutageStamps.PlacementSound` | scripts/grade-kind-postgres-outage.py:370-393 | a placement is the side of every course of events that fits the record |
| `OutageStamps.PlacementExact` | scripts/grade-kind-postgres-outage.py:370-393 | for ordered bounds a side is given if and only if every fitting course of events is on it |
| `OutageStamps.UnplaceableIff` | scripts/grade-kind-postgres-outage.py:389-392 | which transition comes back with an unplaceable commit, and with which two stamps, from what its interval overlaps |
| `OutageStamps.SignalBoundaryUnreachable` | scripts/grade-kind-postgres-outage.py:393 | the last return is unreachable for all inputs |
| `OutageStamps.RestorationAmbiguous` | scripts/grade-kind-postgres-outage.py:391-392 | named after the restoration, a commit can be on either side of it |
| `OutageStamps.PauseAmbiguousIff` | scripts/grade-kind-postgres-outage.py:389-390 | named after the pause, a commit can be on either side of it if and only if it starts before both restoration readings end |
| `OutageStamps.PauseNamedTooOften` | scripts/grade-kind-postgres-outage.py:389-390 | ordered bounds on which it cannot |
| `RecoveryDrain.RecoveryDrainInterval` | scripts/grade-kind-postgres-outage.py:166-227 | the result is the bracket of the first usable recovery poll with every expected pod at zero, scraped after every positive scrape so far and not before restoration was applied; none exactly when there is no such poll |
| `RecoveryDrain.SupportsIff` | scripts/grade-kind-postgres-outage.py:184-207 | a poll supports a drain exactly when it is a recovery poll with every expected pod at zero, a backlog was seen up to it, and each of its scrapes is later than every such scrape and not before restoration was surely applied |
| `RecoveryDrain.BracketsIff` | scripts/grade-kind-postgres-outage.py:208-224 | the bracket runs from the latest positive scrape to the latest zero scrape, around restoration |
| `RecoveryDrain.RaisedBy` | scripts/grade-kind-postgres-outage.py:189-193 | the inner loop keeps the latest positive scrape |
| `DrainLaws.BracketOrdered` | scripts/grade-kind-postgres-outage.py:208-216 | 0 <= lower < upper |
| `DrainLaws.BracketSound` | scripts/grade-kind-postgres-outage.py:208-224 | for every history of the backlogs that agrees with the scrapes and is clear at the last zero scrape, the drain is no earlier than the last positive scrape and the time to it is inside the bracket, whenever restoration was really applied |
| `DrainLaws.BracketTight` | scripts/grade-kind-postgres-outage.py:208-224 | no narrower bracket would do: one such history drains within any margin of the lower end, and one at the upper end |
| `DrainLaws.DrainsOnce` | scripts/grade-kind-postgres-outage.py:171-179 | a history drains at one instant only |
| `DrainLaws.FitsIffConsistent` | scripts/grade-kind-postgres-outage.py:186-193 | some history agrees with the record if and only if no scrape is shown both positive and zero |
| `DrainLaws.SurelyClearIff` | scripts/grade-kind-postgres-outage.py:202-207 | all is clear at a time in every history that agrees with the record if and only if the record shows every expected pod at zero in a scrape at that time |
| `DrainLaws.SurelyClearsIff` | scripts/grade-kind-postgres-outage.py:202-207 | the same for an interval: clear at some instant of it if and only if one instant of it is shown clear |
| `DrainLaws.ClearAtLastZero` | scripts/grade-kind-postgres-outage.py:202-208 | at the last zero scrape all is clear without a refill, or when the zero scrapes of the poll carry one time |
| `DrainLaws.RefillUnseen` | scripts/grade-kind-postgres-outage.py:202-224 | a record with a bracket and a history that agrees with it and is never clear |
| `DrainLaws.RepollChangesNothing` | scripts/grade-kind-postgres-outage.py:171-179 | polling a scrape generation again at any later place, before polls go back to older scrapes, neither invents a drain, nor moves it, nor changes its bracket |
| `Attributes.AttrLookup` | crates/loglake-core/src/promote.rs:112-125 | a literal key wins, otherwise the segments walk into nested objects |
| `Attributes.SegmentsOfJoined` | crates/loglake-core/src/promote.rs:119-123 | splitting at dots undoes joining with dots |
| `Attributes.WalkIff` | crates/loglake-core/src/promote.rs:120-124 | a walk ends at a value exactly when a chain of nested objects leads to it |
| `Attributes.LookupResolvesPaths` | crates/loglake-core/src/promote.rs:109-125 | a path of names resolves through the objects unless its spelling is itself a key |
| `Promotion.PromoteAttributes` | crates/loglake-core/src/promote.rs:159-228 | the row-by-row builders yield the batch with the declared columns appended |
| `Promotion.PromotedColumnIs` | crates/loglake-core/src/promote.rs:135-149 | each declared column has its name, its type, an id of nine plus its place, and is nullable |
| `Promotion.CellIs` | crates/loglake-core/src/promote.rs:187-204 | a promoted cell holds the value coerced to its type, text as it is and other values rendered in a text column, and is null where the key is absent or the value is null or does not coerce |
| `Promotion.CellNullIff` | crates/loglake-core/src/promote.rs:155-158 | so it is null exactly in those cases |
| `Promotion.CellWithout` | crates/loglake-core/src/promote.rs:184-188 | and null in every row without readable attributes |
| `Promotion.PromoteKeeps` | crates/loglake-core/src/promote.rs:206-227 | the columns that were there stay, and a valid batch stays valid |
| `Promotion.RepromoteIdempotent` | crates/loglake-core/src/promote.rs:262-291 | re-extraction twice is re-extraction once |
| `Promotion.BackfillFrom` | crates/loglake-core/src/promote.rs:262-291 | any batch that strips to b re-extracts to what promoting b gives, wherever its extra columns stand |
| `Promotion.BackfillIffFresh` | crates/loglake-core/src/promote.rs:262-291 | backfill of the null-padded batch equals direct promotion if and only if the batch had none of the promoted names |
| `Promotion.WideningIffFresh` | crates/loglake-core/src/promote.rs:262-291 | re-extraction under p then q of a batch promoted with p is promotion with both, under the same condition |
| `Promotion.WideningKeepsFields` | crates/loglake-core/src/promote.rs:135-149 | the fields of p keep their places and ids under p then q |
| `Promotion.PromoteStacks` | crates/loglake-core/src/promote.rs:159-228 | promoting batches one after the other is promoting them together |
| `JwksCache.JwksToKeys` | crates/loglake-core/src/oidc.rs:194-217 | the loop yields the converted keys, or the first error |
| `JwksCache.ConvertedExactly` | crates/loglake-core/src/oidc.rs:194-217 | a set converts exactly when it has a named RSA or elliptic-curve key and every such key converts; one that does not is the error, before there being none |
| `JwksCache.ConvertedNames` | crates/loglake-core/src/oidc.rs:194-217 | the result has a name exactly when an RSA or elliptic-curve key of that name is in the set |
| `JwksCache.ConvertedLast` | crates/loglake-core/src/oidc.rs:194-217 | under each name stands the conversion of the last such key |
| `JwksCache.IrrelevantSkipped` | crates/loglake-core/src/oidc.rs:197-209 | unnamed and symmetric entries make no difference |
| `JwksCache.Cache.constructor` | crates/loglake-core/src/oidc.rs:79-97 | empty and already expired |
| `JwksCache.Cache.Refresh` | crates/loglake-core/src/oidc.rs:173-191 | all keys and the expiry are replaced together, or nothing changes and the error is returned |
| `JwksCache.Cache.GetOrRefresh` | crates/loglake-core/src/oidc.rs:153-171 | alone, a call serves an unexpired hit without a fetch, and otherwise refreshes once and reads again |
| `JwksRuns.NextKeeps` | crates/loglake-core/src/oidc.rs:153-191 | every step of every caller keeps the invariant, cancelled calls included |
| `JwksRuns.RunSafety` | crates/loglake-core/src/oidc.rs:153-191 | at every point of every interleaving: the cache is the initial one or the whole non-empty conversion of one response, expiring 900 s after its store; a call fetches at most once; a fast-path key was stored less than 900 s before it was read; a slow-path key is from a store no older than the call's own |
| `JwksRuns.FreshIsServed` | crates/loglake-core/src/oidc.rs:153-162 | in every run the first read serves a key stored less than 900 s ago without a fetch, and misses exactly otherwise |
| `JwksRuns.RereadServes` | crates/loglake-core/src/oidc.rs:163-171 | in every run the read after a store serves the key of the latest store, whatever its age, or the name is unknown |
| `JwksRuns.ResponseTaken` | crates/loglake-core/src/oidc.rs:173-186 | a response that fails or does not convert ends the call with that error and leaves the cache |
| `JwksRuns.LoneCallEnds` | crates/loglake-core/src/oidc.rs:153-191 | from any state a new call can run to its end: a hit, an error with the cache as it was, or the whole response stored for 900 s |
| `JwksRuns.OnlyInstallWrites` | crates/loglake-core/src/oidc.rs:187-190 | no step but a store changes the cache, so a failed refresh leaves it as it was |
| `JwksRuns.LogGrows` | crates/loglake-core/src/oidc.rs:187-190 | stores are never lost or reordered along a run |
| `JwksRuns.CallAdvances` | crates/loglake-core/src/oidc.rs:153-171 | each step of a call moves it forward, so it ends within four of its own steps |
| `JwksOrder.OneAtATimeKeepsOrder` | crates/loglake-core/src/oidc.rs:173-191 | in every run with never two responses pending at once, stores are in the order of receipt |
| `JwksOrder.LatestIsCached` | crates/loglake-core/src/oidc.rs:173-191 | if besides none is lost to a dropped call, whenever none is pending the cache holds the response received last |
| `JwksOrder.OrderCanInvert` | crates/loglake-core/src/oidc.rs:173-191 | from every reachable state with two responses pending, two steps store the one received first over the other |
| `JwksOrder.OlderResponseCanWin` | crates/loglake-core/src/oidc.rs:173-191 | for any two convertible responses such a run exists |
| `EventTime.StoredOrderIsTimeOrder` | crates/loglake-core/src/lib.rs:251-260 | ordering by (micros, nanos) is ordering by nanos, also before the epoch |
| `EventTime.StoredColumnReadsBack` | crates/loglake-core/src/lib.rs:202-260 | a stored column reads back, null for null, as the start of each instant's microsecond, or the least i64 where that is out of range |
| `EventTime.ScaledByUnit` | crates/loglake-core/src/lib.rs:202-249 | each unit scales by its own factor, clamped to the i64 range; nulls stay and other types are refused |
| `EventTime.ScalingStrictIff` | crates/loglake-core/src/lib.rs:208-218 | saturating scaling keeps two instants apart if and only if neither end of the range swallows both |
| `EventBatch.BuildEventsSchema` | crates/loglake-core/src/lib.rs:282-310 | the field loop yields the core fields, then the declared ones |
| `EventBatch.SchemaTypes` | crates/loglake-core/src/lib.rs:282-310 | the names and types of the core fields, with only attributes and the declared columns nullable |
| `EventBatch.IdsFollowFieldOrder` | crates/loglake-core/src/lib.rs:279-310 | every declared id is its position plus one |
| `EventBatch.PromotedSchema` | crates/loglake-core/src/promote.rs:220-222 | promoting a canonical batch gives exactly the declared schema |
| `EventBatch.Builder.constructor` | crates/loglake-core/src/lib.rs:334-348 | an empty builder |
| `EventBatch.Builder.Append` | crates/loglake-core/src/lib.rs:351-380 | one cell to every column, or, for a time out of range, no change at all |
| `EventBatch.Builder.Finish` | crates/loglake-core/src/lib.rs:390-405 | after any appends, accepted and refused, every column has exactly one entry for each accepted event |
| `EventBatch.EventsToRecordBatch` | crates/loglake-core/src/lib.rs:410-424 | a batch of all events exactly when every time is in range |
| `EventBatch.BatchReadsBack` | crates/loglake-core/src/lib.rs:351-405 | read by column name, the batch gives back every field of every event |
| `EventBatch.BatchTimeOrder` | crates/loglake-core/src/lib.rs:251-260 | ordering the rows by the two time columns orders them by time |

## Left out

- Compression and base64 are parameters, with the hypothesis that they are lossless; `ZSTD_LEVEL` has no part in the model.
- `prealloc` and every other reserved capacity: memory use is not modelled.
- `usize` is taken to be 64 bits wide, so a u64 length always converts.
- The bloom sizing formula is floating point: the model takes any size of at least eight bytes and any k from 1 to 16, which is what it is clamped to.
- `fnv1a` and `double_hash` are an arbitrary pair of functions; the false-positive rate is not modelled.
- The tokenizers, which split text into lower-cased words, the stemmer, which strips English suffixes, and `normalize_query_term`, which accepts one word of a query: none of them feeds the trigram index.
- JSON parsing, rendering and number coercion are parameters of promotion.
- `RecordBatch::try_new` errors: promotion and the batch builder always produce columns of the right lengths, and nullability is not enforced.
- Builds with the `experimental-schema-rollback-probe` feature, which declare one more column.
- `parse_spec` and the promoted-columns property: field-by-field parsing.
- HTTP, discovery, token decoding and signature checks in `oidc.rs`: a response is arbitrary, or an error.
- RecordedStamp: digits are the ten ASCII ones; the calendar arithmetic that turns text into a time is not modelled.
- Clock time in the drain interval is kept in whole microseconds where the source reports seconds as floats.
- The rest of the outage evidence script and of `check-chart.py`, and the other CI scripts: dictionary and subprocess plumbing.
- Source files that `check-chart.py` reads are sequences of characters; decoding them from bytes is not modelled.
- The write-ahead log, compaction, the catalog and distributed queries are not part of this model.
