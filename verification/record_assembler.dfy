/**
 * The record assembly of apply_fuc_email_dataframe: the text lines are stripped, paired into
 * blocks, every block becomes one record (generate_email_dataframe), the records are
 * concatenated in pair order and the address columns are split. Reading the file and parsing
 * the dates are outside this model.
 */
module RecordAssembler {
  import opened Wrappers
  import opened PyStr
  import opened RangeMatcher
  import opened FieldExtractor
  import opened AddressSplitter

  /** Why a run stops: a block's extraction raised, there was no block to concatenate
      (`pd.concat([])` raises ValueError), or an address cell has no '<'. */
  datatype PipelineError =
    | Extraction(cause: ExtractError)
    | NothingToConcatenate
    | Account(column: AccountError)

  /** The lines of the file, each stripped of surrounding whitespace (read_mail_text). */
  function LoadLines(raw: seq<string>): (lines: seq<string>)
    ensures |lines| == |raw|
  {
    seq(|raw|, k requires 0 <= k < |raw| => Strip(raw[k]))
  }

  /** `data.loc[s:e]` on the default index 0, 1, ..., |lines| - 1: the lines whose position lies
      between `s` and `e`, both included. */
  function Section(lines: seq<string>, s: nat, e: nat): (r: seq<string>)
    ensures forall k :: 0 <= k < |r| ==> s + k <= e && s + k < |lines| && r[k] == lines[s + k]
    ensures s <= e < |lines| ==> r == lines[s..e + 1]
    ensures s <= e && s < |lines| <= e ==> r == lines[s..]
    ensures e < s || |lines| <= s ==> r == []
  {
    if e < s || |lines| <= s then []
    else if e < |lines| then lines[s..e + 1]
    else lines[s..]
  }

  /** generate_email_dataframe: the one-row table built from a block's extracted fields; the two
      address columns do not exist yet and are left empty. */
  function GenerateEmailRecord(block: seq<string>): Result<Row, ExtractError> {
    match ExtractEmailInfo(block)
    case Failure(e) => Failure(e)
    case Success(info) => Success(Row(info.sender, info.recipient, info.date, info.subject, info.message, "", ""))
  }

  /** The record of the block a pair delimits. */
  function RecordOf(lines: seq<string>): ((nat, nat)) -> Result<Row, ExtractError> {
    (p: (nat, nat)) => GenerateEmailRecord(Section(lines, p.0, p.1))
  }

  /** The records of the blocks, in pair order; the first block that raises stops the run. */
  function Records(lines: seq<string>, pairs: seq<(nat, nat)>): Result<seq<Row>, ExtractError> {
    MapAll(pairs, RecordOf(lines))
  }

  /** apply_fuc_email_dataframe on the lines of a file, without the date parsing. */
  function Pipeline(raw: seq<string>): Result<seq<Row>, PipelineError> {
    var lines := LoadLines(raw);
    match Records(lines, TextRanges(lines))
    case Failure(e) => Failure(Extraction(e))
    case Success(rows) =>
      if rows == [] then Failure(NothingToConcatenate)
      else
        match SplitAccounts(rows)
        case Failure(e) => Failure(Account(e))
        case Success(table) => Success(table)
  }

  /** apply_fuc_email_dataframe: the lines are paired, the records of the blocks are collected
      and concatenated into a table, and the address columns of the table are split in place. */
  method ApplyEmailPipeline(raw: seq<string>) returns (r: Result<seq<Row>, PipelineError>)
    ensures r == Pipeline(raw)
  {
    var lines := LoadLines(raw);
    var pairs := ExtractTextRanges(lines);
    var records := CollectRecords(lines, pairs);
    if records.Failure? {
      return Failure(Extraction(records.error));
    }
    var bowl := records.value;
    if bowl == [] {
      return Failure(NothingToConcatenate);
    }
    var table := new Row[|bowl|](i requires 0 <= i < |bowl| => bowl[i]);
    assert table[..] == bowl;
    var err := ExtractEmailAccount(table);
    if err.Some? {
      return Failure(Account(err.value));
    }
    r := Success(table[..]);
  }

  /** The loop over the pairs in apply_fuc_email_dataframe: the record of each block is appended
      to `bowl` in pair order, and the first block that raises ends the run. */
  method CollectRecords(lines: seq<string>, pairs: seq<(nat, nat)>) returns (r: Result<seq<Row>, ExtractError>)
    ensures r == Records(lines, pairs)
  {
    var bowl: seq<Row> := [];
    var k := 0;
    while k < |pairs|
      invariant 0 <= k <= |pairs|
      invariant Records(lines, pairs[..k]) == Success(bowl)
    {
      var (start, end) := pairs[k];
      var record := GenerateEmailRecord(Section(lines, start, end));
      MapAllStep(pairs, RecordOf(lines), k);
      if record.Failure? {
        MapAllStopsAt(pairs, RecordOf(lines), k + 1);
        return Failure(record.error);
      }
      bowl := bowl + [record.value];
      k := k + 1;
    }
    assert pairs[..k] == pairs;
    r := Success(bowl);
  }
}

module RecordAssemblerProperties {
  import opened Wrappers
  import opened PyStr
  import opened RangeMatcher
  import opened FieldExtractor
  import opened AddressSplitter
  import opened AddressSplitterProperties
  import opened FieldExtractorProperties
  import opened RecordAssembler

  /** `l` is `s` with whitespace removed around it and nothing else: it occurs in `s` with only
      whitespace before and after it. */
  predicate TrimmedFrom(l: string, s: string) {
    exists i :: 0 <= i <= |s| - |l| && s[i..i + |l|] == l && AllSpace(s[..i]) && AllSpace(s[i + |l|..])
  }

  /** Every loaded line is its raw line with the surrounding whitespace removed and nothing else,
      and has no whitespace at either end. */
  lemma LoadedLinesStripped(raw: seq<string>)
    ensures forall k :: 0 <= k < |raw| ==> IsStripped(LoadLines(raw)[k])
    ensures forall k :: 0 <= k < |raw| ==> TrimmedFrom(LoadLines(raw)[k], raw[k])
  {
    forall k | 0 <= k < |raw|
      ensures TrimmedFrom(LoadLines(raw)[k], raw[k])
    {
      StripInfix(raw[k]);
    }
  }

  /** The block of the `k`-th pair, as its section of the stripped lines. */
  function Block(raw: seq<string>, k: nat): seq<string>
    requires k < |TextRanges(LoadLines(raw))|
  {
    var p := TextRanges(LoadLines(raw))[k];
    Section(LoadLines(raw), p.0, p.1)
  }

  /** Every section the pipeline extracts from is a whole block: its "From:" line, the lines after
      it and the nearest closing line. */
  lemma SectionsAreBlocks(raw: seq<string>)
    ensures forall k :: 0 <= k < |TextRanges(LoadLines(raw))| ==>
      var (s, e) := TextRanges(LoadLines(raw))[k];
      && IsBlock(LoadLines(raw), s, e)
      && Block(raw, k) == LoadLines(raw)[s..e + 1]
  {
    TextRangesAreBlocks(LoadLines(raw));
  }

  /** A block's one-row table exists exactly when extraction does not raise, and then holds the
      fields read off the block's own lines: sender and recipient are the second ':'-fields of the
      first "From:" line and the first line containing "To", the date is the second ": "-field of
      the first "Sent"/"Date" line, the subject is SubjectText of the first subject line, the
      message joins the lines from two past the subject line, and both address cells are empty. */
  lemma RecordOfBlock(block: seq<string>)
    ensures GenerateEmailRecord(block).Failure? <==> ExtractEmailInfo(block).Failure?
    ensures GenerateEmailRecord(block).Failure? ==> GenerateEmailRecord(block).error == ExtractEmailInfo(block).error
    ensures GenerateEmailRecord(block).Success? ==>
      var row := GenerateEmailRecord(block).value;
      && (exists f: nat :: IsFirst(block, IsStart, f) && IsSecondField(block[f], ":", row.sender))
      && (exists t: nat :: IsFirst(block, IsRecipientLine, t) && IsSecondField(block[t], ":", row.recipient))
      && (exists d: nat :: IsFirst(block, IsDateLine, d) && IsSecondField(block[d], ": ", row.date))
      && (exists s: nat :: IsFirst(block, IsSubjectLine, s)
            && row.subject == SubjectText(block[s])
            && (s + 2 >= |block| ==> row.message == "")
            && (s + 2 < |block| ==> row.message == Join(block[s + 2..], " ")))
      && row.senderEmail == "" && row.recipientEmail == ""
  {
    if ExtractEmailInfo(block).Success? {
      ExtractedFields(block);
    }
  }

  /** The records succeed exactly when every block extracts, and then there is one record per
      block, in pair order, holding that block's fields. */
  lemma RecordsSpec(raw: seq<string>)
    ensures var pairs := TextRanges(LoadLines(raw));
      && (Records(LoadLines(raw), pairs).Success? <==>
           forall k :: 0 <= k < |pairs| ==> ExtractEmailInfo(Block(raw, k)).Success?)
      && (Records(LoadLines(raw), pairs).Success? ==>
           var rows := Records(LoadLines(raw), pairs).value;
           && |rows| == |pairs|
           && forall k :: 0 <= k < |pairs| ==>
             && ExtractEmailInfo(Block(raw, k)).Success?
             && var info := ExtractEmailInfo(Block(raw, k)).value;
             rows[k] == Row(info.sender, info.recipient, info.date, info.subject, info.message, "", ""))
  {
    var lines := LoadLines(raw);
    var pairs := TextRanges(lines);
    MapAllSuccess(pairs, RecordOf(lines));
    forall k | 0 <= k < |pairs|
      ensures RecordOf(lines)(pairs[k]) == GenerateEmailRecord(Block(raw, k))
    {
    }
  }

  /** A file with no "From:" line followed by a closing line has nothing to concatenate. */
  lemma NoBlocksRaises(raw: seq<string>)
    requires TextRanges(LoadLines(raw)) == []
    ensures Pipeline(raw) == Failure(NothingToConcatenate)
  {
  }

  /** Block `k` extracts, and its sender and recipient both have a '<'. */
  predicate BlockSplits(raw: seq<string>, k: nat)
    requires k < |TextRanges(LoadLines(raw))|
  {
    && ExtractEmailInfo(Block(raw, k)).Success?
    && '<' in ExtractEmailInfo(Block(raw, k)).value.sender
    && '<' in ExtractEmailInfo(Block(raw, k)).value.recipient
  }

  /** A run succeeds exactly when there is at least one block, every block extracts, and every
      extracted sender and recipient has a '<'. */
  lemma PipelineSucceedsIff(raw: seq<string>)
    ensures Pipeline(raw).Success? <==>
      && TextRanges(LoadLines(raw)) != []
      && forall k :: 0 <= k < |TextRanges(LoadLines(raw))| ==> BlockSplits(raw, k)
  {
    var lines := LoadLines(raw);
    var pairs := TextRanges(lines);
    RecordsSpec(raw);
    if Records(lines, pairs).Failure? {
      var k :| 0 <= k < |pairs| && !ExtractEmailInfo(Block(raw, k)).Success?;
      assert !BlockSplits(raw, k);
    } else {
      var rows := Records(lines, pairs).value;
      if rows != [] {
        assert Pipeline(raw).Success? <==> SplitAccounts(rows).Success?;
        SplitAccountsRows(rows);
        forall k | 0 <= k < |rows|
          ensures HasAngles(rows[k]) <==> BlockSplits(raw, k)
        {
        }
      }
    }
  }

  /** On success there is one record per block, in pair order: the date, subject and message are
      the block's own, and the names and addresses are the block's sender and recipient split
      at '<'. */
  lemma PipelineRecords(raw: seq<string>)
    requires Pipeline(raw).Success?
    ensures var table := Pipeline(raw).value;
      && |table| == |TextRanges(LoadLines(raw))|
      && forall k :: 0 <= k < |table| ==>
        && ExtractEmailInfo(Block(raw, k)).Success?
        && var info := ExtractEmailInfo(Block(raw, k)).value;
        && table[k].date == info.date && table[k].subject == info.subject && table[k].message == info.message
        && SplitAddress(info.sender) == Some((table[k].sender, table[k].senderEmail))
        && SplitAddress(info.recipient) == Some((table[k].recipient, table[k].recipientEmail))
  {
    var lines := LoadLines(raw);
    var pairs := TextRanges(lines);
    RecordsSpec(raw);
    SplitAccountsRows(Records(lines, pairs).value);
  }

  /** When the records fail, the error is that of the first block that cannot be extracted. */
  lemma RecordsFailure(raw: seq<string>)
    requires Records(LoadLines(raw), TextRanges(LoadLines(raw))).Failure?
    ensures exists k ::
      && 0 <= k < |TextRanges(LoadLines(raw))|
      && (forall j :: 0 <= j < k ==> ExtractEmailInfo(Block(raw, j)).Success?)
      && ExtractEmailInfo(Block(raw, k)) == Failure(Records(LoadLines(raw), TextRanges(LoadLines(raw))).error)
  {
    var lines := LoadLines(raw);
    var pairs := TextRanges(lines);
    var f := RecordOf(lines);
    MapAllFailure(pairs, f);
    var k :| 0 <= k < |pairs| && (forall j :: 0 <= j < k ==> f(pairs[j]).Success?)
      && f(pairs[k]).Failure? && MapAll(pairs, f).error == f(pairs[k]).error;
    forall j | 0 <= j <= k
      ensures f(pairs[j]).Success? <==> ExtractEmailInfo(Block(raw, j)).Success?
      ensures f(pairs[j]).Failure? ==> f(pairs[j]).error == ExtractEmailInfo(Block(raw, j)).error
    {
      assert f(pairs[j]) == GenerateEmailRecord(Block(raw, j));
    }
    assert ExtractEmailInfo(Block(raw, k)) == Failure(MapAll(pairs, f).error);
  }

  /** An extraction error is that of the first block that cannot be extracted; the blocks before
      it all extract. */
  lemma ExtractionErrorIsFirst(raw: seq<string>)
    requires Pipeline(raw).Failure? && Pipeline(raw).error.Extraction?
    ensures exists k ::
      && 0 <= k < |TextRanges(LoadLines(raw))|
      && (forall j :: 0 <= j < k ==> ExtractEmailInfo(Block(raw, j)).Success?)
      && ExtractEmailInfo(Block(raw, k)) == Failure(Pipeline(raw).error.cause)
  {
    var records := Records(LoadLines(raw), TextRanges(LoadLines(raw)));
    assert records.Failure? && Pipeline(raw).error.cause == records.error;
    RecordsFailure(raw);
  }
}
