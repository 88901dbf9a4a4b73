# auto_mail_prep — a verified model of the mail pre-processing core

`src/auto_mail_prep.py` turns a plain-text dump of an e-mail thread into a table with one row per
message. The file's lines are stripped. Lines matching `^\s*From:` open a message and lines
mentioning "regards"/"Regards" close one. A forward-only cursor pairs each opening line with the
first closing line after it; an opening line with no closing line after it is dropped, and so is
every later one. Each delimited block is then parsed into sender, recipient, date,
subject and body. The rows are concatenated, and finally each "Name <address>" cell is split
into a display name and an address.

This project models that core in Dafny:

| file | module(s) | source | form |
|---|---|---|---|
| `wrappers.dfy` | `Wrappers` | (support) | `Option`, `Result`, and `MapAll`, a map over a sequence where the first failure wins, with its lemmas |
| `pystr.dfy` | `PyStr` | Python `str` | `find`, `split`, `join`, `replace`, `strip`, `isspace` as functions, with lemmas about them |
| `range_matcher.dfy` | `RangeMatcher`, `RangeMatcherProperties` | `extract_text_ranges` | the cursor loop as a method, proved against a reference pairing function |
| `field_extractor.dfy` | `FieldExtractor`, `FieldExtractorProperties` | `extract_email_info` | a pure function on a block, with lemmas |
| `address_splitter.dfy` | `AddressSplitter`, `AddressSplitterProperties` | `extract_email_account` | an in-place method over `array<Row>`, proved against `SplitAccounts` |
| `record_assembler.dfy` | `RecordAssembler`, `RecordAssemblerProperties` | `read_mail_text` (line stripping), `generate_email_dataframe`, `apply_fuc_email_dataframe` | the pipeline as a method, proved against the function `Pipeline` |

Every Python exception the core can raise is an explicit error value:

- `ExtractError`: the `IndexError`s of `extract_email_info`;
- `AccountError`: the `IndexError` of `split('<')[1]`;
- `PipelineError.NothingToConcatenate`: the `ValueError` of `pd.concat([])`.

Blocks are handled block-relative. The section `lines[s..e+1]` stands for the pandas slice
`loc[s:e]`. "Two lines past the subject line" is the same offset under either indexing.

Some consequences of the code as written:

- Closing lines are not consumed. After a start is paired, the cursor stays on that closing line, so
  two "From:" lines before one "regards" both pair with it (`RangeMatcherProperties.SharedEnd`,
  `RangeMatcherProperties.PairsOrdered`). The comment at line 61 calls the used set a record of
  end values, but only start indices are added to it (line 75).
- `split(':')[1]` keeps the leading space, so sender and recipient are " Name <addr>" until the
  account split strips the name.
- The message runs from two lines past the subject line to the end of the block. It therefore
  includes the closing "regards" line.
- The subject is `" ".join(line.split(':')[1:])`. "Subject: Re: Budget" gives " Re  Budget"
  (`FieldExtractorProperties.SubjectSecondColon`).
- The recipient line is the first line that contains "To" anywhere. A "From:" line such as
  "From: Tom <tom@x.com>" is therefore also taken as the recipient line
  (`FieldExtractorProperties.SenderLineTakenAsRecipient`).
- A file with no block does not give an empty table. `pd.concat` raises on the empty list
  (`RecordAssemblerProperties.NoBlocksRaises`).

## Model

| member | source | states |
|---|---|---|
| PyStr.Find | src/auto_mail_prep.py:93-94 | the leftmost occurrence of the separator, or none; no earlier position holds one |
| PyStr.SplitCount | src/auto_mail_prep.py:124-126 | `split(sep)` has a second piece (so `[1]` does not raise) exactly when `sep` occurs |
| PyStr.SplitJoinRoundTrip | src/auto_mail_prep.py:124-130 | joining the pieces of `split(sep)` with `sep` gives back the line |
| PyStr.PiecesAvoidSeparator | src/auto_mail_prep.py:124-127 | no piece of a split contains the separator |
| PyStr.SecondField | src/auto_mail_prep.py:124-126 | where `sep` occurs, `split(sep)[1]` exists and is the text after the first `sep` up to the next one or the end (the converse is `SplitCount`) |
| PyStr.ReplaceCharIsSubstitute | src/auto_mail_prep.py:127-130 | `replace` of one character by another substitutes it at every position |
| PyStr.ReplaceCharByNothing | src/auto_mail_prep.py:101-102 | `replace('>', '')` deletes every '>' and nothing else |
| PyStr.Split | src/auto_mail_prep.py:93-94 | `str.split(sep)`: at least one piece; its pieces and second field are given by `SplitCount`, `SplitJoinRoundTrip`, `PiecesAvoidSeparator` and `SecondField` |
| PyStr.Join | src/auto_mail_prep.py:130 | `sep.join(parts)`; `SplitJoinRoundTrip` shows it undoes `Split`, and `SubjectJoin` describes the joined subject |
| PyStr.Replace | src/auto_mail_prep.py:101-102 | `str.replace`; `ReplaceCharByNothing` and `ReplaceCharIsSubstitute` state what it does for one character |
| PyStr.Strip | src/auto_mail_prep.py:26 | the stripped line has whitespace at neither end |
| PyStr.StripInfix | src/auto_mail_prep.py:97-98 | `strip()` keeps an infix of the cell and removes only whitespace around it |
| PyStr.StripPadded | src/auto_mail_prep.py:97-98 | whitespace padding around an already stripped string is exactly what `strip()` removes |
| RangeMatcher.IsStart | src/auto_mail_prep.py:49 | the `^[\s]*From:` mask: optional leading whitespace, then "From:"; `PairedStarts` and `TextRangesAreBlocks` state its role |
| RangeMatcher.IsEnd | src/auto_mail_prep.py:50 | the "regards"/"Regards" mask; `TextRangesAreBlocks` shows each pair ends on the nearest such line |
| RangeMatcher.TextRanges | src/auto_mail_prep.py:35-77 | the pairs of a file; `TextRangesAreBlocks`, `PairedStarts` and `PairsOrdered` state what they are |
| RangeMatcher.Where | src/auto_mail_prep.py:49-50 | the index of a boolean mask: ascending, and holding exactly the positions whose line matches |
| RangeMatcher.FirstAbove | src/auto_mail_prep.py:69-73 | the closing index the cursor stops on is in the list and above the start, and the least such for ascending indices; none only when all are at or below it |
| RangeMatcher.ExtractTextRanges | src/auto_mail_prep.py:35-77 | the pairs are the reference pairing of the start indices with the closing indices |
| RangeMatcher.PairByCursor | src/auto_mail_prep.py:53-77 | the forward-only cursor loop computes the reference pairing, where each start takes the first closing index above it and nothing is consumed |
| RangeMatcher.TextRangesAreBlocks | src/auto_mail_prep.py:49-75 | every pair opens on a "From:" line and closes on the nearest closing line strictly after it |
| RangeMatcherProperties.PairingStartsIff | src/auto_mail_prep.py:64-75 | a start appears in the pairing iff it is one of the starts and some closing index lies above it |
| RangeMatcherProperties.ClosingLineAfter | src/auto_mail_prep.py:69-73 | the cursor finds a closing line for a start iff some closing line follows it, iff the start lies below the last closing index |
| RangeMatcherProperties.PairedStarts | src/auto_mail_prep.py:64-75 | a "From:" line is paired iff a closing line follows it; other lines never open a pair |
| RangeMatcherProperties.DroppedStaysDropped | src/auto_mail_prep.py:69-75 | once a start is dropped for lack of a closing line, every later start is dropped too |
| RangeMatcherProperties.FirstAboveMonotone | src/auto_mail_prep.py:69-73 | a later start never finds an earlier closing index, which is why the cursor need not move back |
| RangeMatcherProperties.PairingOrdered | src/auto_mail_prep.py:64-75 | for ascending inputs the pairs have strictly increasing starts and non-decreasing ends |
| RangeMatcherProperties.PairsOrdered | src/auto_mail_prep.py:64-75 | the pairs of a file have strictly increasing starts, and ends that never decrease but may repeat |
| RangeMatcherProperties.SharedEnd | src/auto_mail_prep.py:69-75 | two starts before a single closing index both pair with it |
| FieldExtractor.ExtractEmailInfo | src/auto_mail_prep.py:106-138 | extraction of one block; when it raises is `ExtractFailsIff`, and what it returns is `ExtractedFields` |
| FieldExtractor.FirstMatch | src/auto_mail_prep.py:118-121 | `mask.index[0]`: a matching position with no match before it, or none exactly when no line matches |
| FieldExtractor.StartLineHasColon | src/auto_mail_prep.py:118-124 | a line matching `^\s*From:` contains ':', so the sender's `split(':')[1]` never raises |
| FieldExtractorProperties.FirstMatchIsFirst | src/auto_mail_prep.py:118-121 | the position `index[0]` gives is exactly the first line satisfying the mask |
| FieldExtractorProperties.SubjectJoin | src/auto_mail_prep.py:127-130 | the joined subject is the text after the first ':' with every later ':' turned into a space, or empty |
| FieldExtractorProperties.ExtractFailsIff | src/auto_mail_prep.py:118-126 | extraction raises iff a header kind is missing, the first "To" line has no ':' or the first "Sent"/"Date" line has no ": " |
| FieldExtractorProperties.ExtractedFields | src/auto_mail_prep.py:118-135 | sender, recipient and date are the second fields of the first matching lines; the subject follows SubjectJoin; the message is the lines from two past the subject line to the end joined by spaces |
| FieldExtractorProperties.SubjectSecondColon | src/auto_mail_prep.py:127-130 | a second ':' in the subject line becomes a space in the subject |
| FieldExtractorProperties.SenderLineTakenAsRecipient | src/auto_mail_prep.py:118-125 | when the opening "From:" line itself contains "To", the recipient equals the sender |
| AddressSplitter.SplitAddress | src/auto_mail_prep.py:93-102 | one cell split at '<'; `SplitAddressSpec` and `AddressRoundTrip` state its result |
| AddressSplitter.SplitAccount | src/auto_mail_prep.py:90-102 | one row split, sender cell first; `SplitAccountSpec` states its result |
| AddressSplitter.SplitAccounts | src/auto_mail_prep.py:90-104 | every row split in order, the first failure ending the run; `SplitAccountsRows` and `SplitAccountsError` state its result |
| AddressSplitter.ExtractEmailAccount | src/auto_mail_prep.py:79-104 | the in-place row loop leaves the table equal to `SplitAccounts` of its old rows, or returns the error of the first row that raises |
| AddressSplitter.SplitRowInPlace | src/auto_mail_prep.py:90-102 | one loop iteration changes only row `i`, into `SplitAccount` of it, or reports that row's error |
| AddressSplitterProperties.SplitAddressSpec | src/auto_mail_prep.py:93-102 | a cell splits iff it contains '<'; the name is the stripped text before the first '<'; the address is the next field with every '>' deleted |
| AddressSplitterProperties.AddressRoundTrip | src/auto_mail_prep.py:93-102 | a cell written as padding, a name, " <", an address and ">" splits back into that name and that address |
| AddressSplitterProperties.JaneDoe | src/auto_mail_prep.py:93-102 | "Jane Doe <jane@x.com>" splits into "Jane Doe" and "jane@x.com" |
| AddressSplitterProperties.SplitAccountSpec | src/auto_mail_prep.py:90-102 | a row splits iff both cells have '<'; date, subject and message are kept; a failure names the sender column first |
| AddressSplitterProperties.SplitAccountsRows | src/auto_mail_prep.py:90-104 | the table splits iff every row has both angles; then each row keeps its place and other columns and takes its names and addresses from SplitAddress |
| AddressSplitterProperties.SplitAccountsError | src/auto_mail_prep.py:90-102 | on failure the error is that of the first row lacking an angle, with every earlier row splittable |
| Wrappers.MapAllSuccess | src/auto_mail_prep.py:188-194 | a loop where the first raise wins succeeds iff every step does, with every step's value in order |
| Wrappers.MapAllFailure | src/auto_mail_prep.py:188-194 | such a loop fails with the error of its first failing step, all earlier steps succeeding |
| RecordAssembler.LoadLines | src/auto_mail_prep.py:22-26 | one stripped line per line of the file |
| RecordAssembler.Section | src/auto_mail_prep.py:190 | `loc[s:e]` on the default index: the lines from `s` to `e` inclusive, clipped to the file when `e` lies past its end, and empty when `e < s` or `s` lies past the end |
| RecordAssembler.GenerateEmailRecord | src/auto_mail_prep.py:142-172 | the one-row table of a block; `RecordOfBlock` states its fields in terms of the block's lines |
| RecordAssembler.Records | src/auto_mail_prep.py:185-194 | the records of the blocks in pair order, the first raise ending the run; `RecordsSpec` and `RecordsFailure` state its result |
| RecordAssembler.Pipeline | src/auto_mail_prep.py:176-201 | the run without date parsing; `PipelineSucceedsIff`, `PipelineRecords`, `NoBlocksRaises` and `ExtractionErrorIsFirst` state its result |
| RecordAssembler.CollectRecords | src/auto_mail_prep.py:185-194 | the loop over the pairs yields `Records`: one record per block in pair order, or the first block's error |
| RecordAssembler.ApplyEmailPipeline | src/auto_mail_prep.py:176-201 | stripping, pairing, record collection, concatenation and the in-place account split yield `Pipeline(raw)` |
| RecordAssemblerProperties.LoadedLinesStripped | src/auto_mail_prep.py:22-26 | every loaded line is its raw line with only the surrounding whitespace removed (it occurs there with only whitespace before and after it), and has whitespace at neither end |
| RecordAssemblerProperties.SectionsAreBlocks | src/auto_mail_prep.py:182-190 | every section handed to the extractor is a whole block, from its "From:" line to the nearest closing line |
| RecordAssemblerProperties.RecordOfBlock | src/auto_mail_prep.py:142-172 | a block's one-row table exists iff extraction does not raise (with the same error otherwise); its sender and recipient are the second ':'-fields of the first "From:" and first "To" lines, its date the second ": "-field of the first "Sent"/"Date" line, its subject SubjectText of the first subject line, its message the lines from two past the subject line joined by spaces, and both address cells are empty |
| RecordAssemblerProperties.RecordsSpec | src/auto_mail_prep.py:185-194 | the records succeed iff every block extracts; then there is one per pair, holding that block's fields |
| RecordAssemblerProperties.RecordsFailure | src/auto_mail_prep.py:185-194 | a failing record collection reports the error of the first block that does not extract |
| RecordAssemblerProperties.NoBlocksRaises | src/auto_mail_prep.py:196 | a file without a block raises at the concatenation |
| RecordAssemblerProperties.PipelineSucceedsIff | src/auto_mail_prep.py:176-201 | a run succeeds iff there is a block, every block extracts, and every sender and recipient has a '<' |
| RecordAssemblerProperties.PipelineRecords | src/auto_mail_prep.py:176-201 | on success there is one row per block in pair order, with that block's date, subject and message and the SplitAddress of its sender and recipient |
| RecordAssemblerProperties.ExtractionErrorIsFirst | src/auto_mail_prep.py:185-194 | an extraction error is that of the first block that does not extract; all earlier blocks extract |

## Left out

- Reading the file (`open`, `readlines`, cp949 decoding) is not modelled. The model starts from the sequence of raw lines.
- Date parsing (`dateutil.parser.parse`, `pd.to_datetime`, lines 204-205) is not modelled. `Date` stays the extracted string, and a date the parser rejects is not an error here.
- pandas containers are not modelled. A DataFrame is a `seq` of `Row`s or lines, the boolean-mask index is `RangeMatcher.Where`, and the index labels are positions. After `reset_index` the rows are numbered 0..n-1, so the table is an `array<Row>`.
- The regular expression engine is not modelled. `^[\s]*From:` is written out as "leading whitespace, then From:", with `\s` as Python's `str.isspace` set. The other patterns are plain substring tests.
- `Sender_Email`/`Recipient_Email` start as 0 (lines 87-88), and that is not modelled. A fresh record holds "" in those cells. The split overwrites both on success, and the table is discarded on failure.
- AddressSplitter.SplitRowInPlace does not state the table contents after a failing row. The source has already written that row's names (and possibly its sender address) when it raises, but the exception abandons the table.
- AddressSplitter.ExtractEmailAccount states only the error on failure, not the partly rewritten table, for the same reason.
- RangeMatcher.ExtractTextRanges states its pairs as the reference pairing. That every pair delimits a block is stated separately, in `RangeMatcher.TextRangesAreBlocks`.
- RecordAssembler.LoadLines states only the line count in its own contract. That each line is its raw line with only the surrounding whitespace removed is proved in `RecordAssemblerProperties.LoadedLinesStripped`.
- The unused `warnings` import and the logging comment in the account loop have no behaviour and are not modelled.
