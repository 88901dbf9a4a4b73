/**
 * The field extractor (extract_email_info): within one block of lines, the first line of each
 * header kind is located, and each field is cut out of it with Python's `split`.
 */
module FieldExtractor {
  import opened Wrappers
  import opened PyStr
  import RangeMatcher

  datatype EmailInfo = EmailInfo(sender: string, recipient: string, date: string, subject: string, message: string)

  /** Each way extraction raises IndexError, named after its cause. */
  datatype ExtractError =
    | NoSenderLine
    | NoRecipientLine
    | NoDateLine
    | NoSubjectLine
    | RecipientWithoutColon
    | DateWithoutColonSpace

  predicate IsRecipientLine(line: string) {
    Contains(line, "To")
  }

  predicate IsDateLine(line: string) {
    Contains(line, "Sent") || Contains(line, "Date")
  }

  predicate IsSubjectLine(line: string) {
    Contains(line, "Subject") || Contains(line, "subject")
  }

  function FirstMatchFrom(block: seq<string>, p: string -> bool, from: nat): (r: Option<nat>)
    requires from <= |block|
    ensures r.Some? ==> from <= r.value < |block| && p(block[r.value])
    ensures r.Some? ==> forall k :: from <= k < r.value ==> !p(block[k])
    ensures r.None? ==> forall k :: from <= k < |block| ==> !p(block[k])
    decreases |block| - from
  {
    if from == |block| then None
    else if p(block[from]) then Some(from)
    else FirstMatchFrom(block, p, from + 1)
  }

  /** `data[mask].index[0]`: the position of the first line satisfying `p`, or None where
      pandas raises IndexError on an empty index. */
  function FirstMatch(block: seq<string>, p: string -> bool): (r: Option<nat>)
    ensures r.Some? ==> r.value < |block| && p(block[r.value])
    ensures r.Some? ==> forall k :: 0 <= k < r.value ==> !p(block[k])
    ensures r.None? ==> forall k :: 0 <= k < |block| ==> !p(block[k])
  {
    FirstMatchFrom(block, p, 0)
  }

  /** A line that matches the "From:" pattern has a colon, so its `split(':')[1]` exists. */
  lemma StartLineHasColon(line: string)
    requires RangeMatcher.IsStart(line)
    ensures Contains(line, ":") && |Split(line, ":")| >= 2
  {
    var t := StripLeft(line);
    StripLeftShape(line);
    var off := |line| - |t|;
    assert t[4] == ':';
    assert line[off + 4..off + 5] == [':'];
    assert OccursAt(line, ":", off + 4);
    SplitCount(line, ":");
  }

  /** The lines from position `m` to the end of the block (`data.loc[m:]`), empty when `m`
      lies past the block. */
  function LinesFrom(block: seq<string>, m: nat): seq<string> {
    if m <= |block| then block[m..] else []
  }

  /** extract_email_info on one block: the first "From:" line, the first line containing "To",
      the first containing "Sent" or "Date" and the first containing "Subject" or "subject" are
      located in that order; then the sender and recipient are `split(':')[1]` of their lines,
      the date is `split(': ')[1]` of its line, the subject is the pieces after the first ':'
      joined with spaces, and the message is the lines from two after the subject line to the end
      of the block joined with spaces. */
  function ExtractEmailInfo(block: seq<string>): (r: Result<EmailInfo, ExtractError>)
  {
    match FirstMatch(block, RangeMatcher.IsStart)
    case None => Failure(NoSenderLine)
    case Some(f) =>
      match FirstMatch(block, IsRecipientLine)
      case None => Failure(NoRecipientLine)
      case Some(t) =>
        match FirstMatch(block, IsDateLine)
        case None => Failure(NoDateLine)
        case Some(d) =>
          match FirstMatch(block, IsSubjectLine)
          case None => Failure(NoSubjectLine)
          case Some(s) =>
            var senderPieces := Split(block[f], ":");
            var recipientPieces := Split(block[t], ":");
            var datePieces := Split(block[d], ": ");
            if |recipientPieces| < 2 then Failure(RecipientWithoutColon)
            else if |datePieces| < 2 then Failure(DateWithoutColonSpace)
            else
              StartLineHasColon(block[f]);
              Success(EmailInfo(
                senderPieces[1],
                recipientPieces[1],
                datePieces[1],
                Join(Split(block[s], ":")[1..], " "),
                Join(LinesFrom(block, s + 2), " ")))
  }
}

module FieldExtractorProperties {
  import opened Wrappers
  import opened PyStr
  import opened FieldExtractor
  import RangeMatcher

  /** Position `i` holds the first line of the block satisfying `p`. */
  predicate IsFirst(block: seq<string>, p: string -> bool, i: nat) {
    i < |block| && p(block[i]) && forall k :: 0 <= k < i ==> !p(block[k])
  }

  lemma FirstMatchIsFirst(block: seq<string>, p: string -> bool)
    ensures forall i: nat :: IsFirst(block, p, i) <==> FirstMatch(block, p) == Some(i)
  {
    forall i: nat | IsFirst(block, p, i) ensures FirstMatch(block, p) == Some(i) {
      assert FirstMatch(block, p).Some?;
    }
  }

  /** The subject described without split: the text after the first ':' with every further ':'
      turned into a space, or nothing when the line has no ':'. */
  function SubjectText(line: string): string {
    match Find(line, ":")
    case None => ""
    case Some(i) => Substitute(line[i + 1..], ':', ' ')
  }

  /** `" ".join(line.split(':')[1:])` keeps everything after the first colon and turns every
      later colon into a single space; a line without a colon gives the empty subject. */
  lemma SubjectJoin(line: string)
    ensures Join(Split(line, ":")[1..], " ") == SubjectText(line)
  {
    match Find(line, ":")
    case None =>
      SplitAbsent(line, ":");
    case Some(i) =>
      var rest := line[i + 1..];
      SplitAtFirst(line, ":", i);
      assert Split(line, ":")[1..] == Split(rest, ":");
      ReplaceCharIsSubstitute(rest, ':', ' ');
  }

  /** Extraction fails (an IndexError aborting the run) exactly when the block lacks a "From:"
      line, a line containing "To", a line containing "Sent" or "Date", or a line containing
      "Subject" or "subject"; or when the first "To" line has no ':'; or when the first
      "Sent"/"Date" line has no ": ". */
  lemma ExtractFailsIff(block: seq<string>)
    ensures ExtractEmailInfo(block).Failure? <==>
      || (forall k :: 0 <= k < |block| ==> !RangeMatcher.IsStart(block[k]))
      || (forall k :: 0 <= k < |block| ==> !IsRecipientLine(block[k]))
      || (forall k :: 0 <= k < |block| ==> !IsDateLine(block[k]))
      || (forall k :: 0 <= k < |block| ==> !IsSubjectLine(block[k]))
      || (exists t: nat :: IsFirst(block, IsRecipientLine, t) && !Contains(block[t], ":"))
      || (exists d: nat :: IsFirst(block, IsDateLine, d) && !Contains(block[d], ": "))
  {
    FirstMatchIsFirst(block, IsRecipientLine);
    FirstMatchIsFirst(block, IsDateLine);
    var t := FirstMatch(block, IsRecipientLine);
    var d := FirstMatch(block, IsDateLine);
    if t.Some? {
      assert IsFirst(block, IsRecipientLine, t.value);
    }
    if d.Some? {
      assert IsFirst(block, IsDateLine, d.value);
    }
  }

  /** What a successful extraction holds. The sender is the text between the first and second
      ':' of the first "From:" line, which is the block's own first line when it opens with one;
      the recipient is the same for the first line containing "To" (possibly the "From:" line
      itself); the date is the text after the first ": " of the first "Sent"/"Date" line up to the
      next ": "; the subject follows SubjectText; the message is the lines from two past the
      subject line to the end joined by single spaces, and empty when that is past the block. */
  lemma ExtractedFields(block: seq<string>)
    requires ExtractEmailInfo(block).Success?
    ensures var info := ExtractEmailInfo(block).value;
      && (exists f: nat :: IsFirst(block, RangeMatcher.IsStart, f) && IsSecondField(block[f], ":", info.sender))
      && (RangeMatcher.IsStart(block[0]) ==> IsSecondField(block[0], ":", info.sender))
      && (exists t: nat :: IsFirst(block, IsRecipientLine, t) && IsSecondField(block[t], ":", info.recipient))
      && (exists d: nat :: IsFirst(block, IsDateLine, d) && IsSecondField(block[d], ": ", info.date))
      && (exists s: nat :: IsFirst(block, IsSubjectLine, s)
            && info.subject == SubjectText(block[s])
            && (s + 2 >= |block| ==> info.message == "")
            && (s + 2 < |block| ==> info.message == Join(block[s + 2..], " ")))
  {
    var info := ExtractEmailInfo(block).value;
    var f := FirstMatch(block, RangeMatcher.IsStart).value;
    var t := FirstMatch(block, IsRecipientLine).value;
    var d := FirstMatch(block, IsDateLine).value;
    var s := FirstMatch(block, IsSubjectLine).value;
    assert IsFirst(block, RangeMatcher.IsStart, f);
    assert IsFirst(block, IsRecipientLine, t);
    assert IsFirst(block, IsDateLine, d);
    assert IsFirst(block, IsSubjectLine, s);
    StartLineHasColon(block[f]);
    SecondField(block[f], ":");
    SecondField(block[t], ":");
    SecondField(block[d], ": ");
    SubjectJoin(block[s]);
    if RangeMatcher.IsStart(block[0]) {
      assert f == 0;
    }
  }

  /** A subject line with a second colon, such as "Subject: Re: Budget", gives the text after the
      first colon with the second colon turned into a space (" Re  Budget"): the leading space
      stays and the reply marker is not recognised. */
  lemma SubjectSecondColon(head: string, a: string, b: string)
    requires ':' !in head && ':' !in a && ':' !in b
    ensures Join(Split(head + ":" + a + ":" + b, ":")[1..], " ") == a + " " + b
  {
    var line := head + ":" + a + ":" + b;
    assert forall k :: 0 <= k < |head| ==> line[k] == head[k];
    assert line[|head|..|head| + 1] == ":";
    FindAt(line, ":", |head|);
    SubjectJoin(line);
    var rest := a + ":" + b;
    assert line[|head| + 1..] == rest;
    assert rest[..|a|] == a && rest[|a| + 1..] == b;
    SubstituteAround(rest, |a|, ':', ' ');
    SubstituteAbsent(b, ':', ' ');
  }

  /** The recipient line is the first line containing "To" anywhere, so when the "From:" line opens
      the block and itself contains "To" (a sender named "Tom", say), that line is taken as the
      recipient line as well and the recipient equals the sender. */
  lemma SenderLineTakenAsRecipient(block: seq<string>)
    requires ExtractEmailInfo(block).Success?
    requires 0 < |block| && RangeMatcher.IsStart(block[0]) && IsRecipientLine(block[0])
    ensures ExtractEmailInfo(block).value.recipient == ExtractEmailInfo(block).value.sender
  {
    FirstMatchIsFirst(block, RangeMatcher.IsStart);
    FirstMatchIsFirst(block, IsRecipientLine);
    assert IsFirst(block, RangeMatcher.IsStart, 0);
    assert IsFirst(block, IsRecipientLine, 0);
  }
}
