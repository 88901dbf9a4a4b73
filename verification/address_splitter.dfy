/**
 * The address splitter (extract_email_account): every row's Sender and Recipient cell, of the
 * form "Display Name <user@host>", is split at '<' into the stripped display name and the
 * address with its '>' removed, row by row and in place.
 */
module AddressSplitter {
  import opened Wrappers
  import opened PyStr

  /** One row of the email table; the two address columns are filled in by the split. */
  datatype Row = Row(
    sender: string,
    recipient: string,
    date: string,
    subject: string,
    message: string,
    senderEmail: string,
    recipientEmail: string)

  /** The IndexError of `split('<')[1]` on a cell without '<', by the column it comes from. */
  datatype AccountError = SenderWithoutAngle | RecipientWithoutAngle

  /** One cell: `(cell.split('<')[0].strip(), cell.split('<')[1].replace('>', ''))`, or None
      where Python raises IndexError. */
  function SplitAddress(cell: string): Option<(string, string)> {
    var pieces := Split(cell, "<");
    if |pieces| < 2 then None
    else Some((Strip(pieces[0]), Replace(pieces[1], ">", "")))
  }

  /** One row as the loop body rewrites it; the sender cell is examined before the recipient cell. */
  function SplitAccount(row: Row): Result<Row, AccountError> {
    match SplitAddress(row.sender)
    case None => Failure(SenderWithoutAngle)
    case Some((senderName, senderEmail)) =>
      match SplitAddress(row.recipient)
      case None => Failure(RecipientWithoutAngle)
      case Some((recipientName, recipientEmail)) =>
        Success(row.(sender := senderName, recipient := recipientName,
                     senderEmail := senderEmail, recipientEmail := recipientEmail))
  }

  /** Every row split in order; the first row that cannot be split stops the run. */
  function SplitAccounts(rows: seq<Row>): Result<seq<Row>, AccountError> {
    MapAll(rows, SplitAccount)
  }

  /** extract_email_account: the rows are rewritten one after the other, and the first row that
      cannot be split ends the run. On success the table holds SplitAccounts of its old rows; on
      failure the error is the one SplitAccounts reports. */
  method ExtractEmailAccount(table: array<Row>) returns (err: Option<AccountError>)
    modifies table
    ensures SplitAccounts(old(table[..])).Success? ==> err == None && table[..] == SplitAccounts(old(table[..])).value
    ensures SplitAccounts(old(table[..])).Failure? ==> err == Some(SplitAccounts(old(table[..])).error)
  {
    ghost var rows := table[..];
    var i := 0;
    while i < table.Length
      invariant 0 <= i <= table.Length
      invariant SplitAccounts(rows[..i]).Success?
      invariant table[..] == SplitAccounts(rows[..i]).value + rows[i..]
    {
      ghost var done := SplitAccounts(rows[..i]).value;
      assert table[i] == rows[i];
      var rowErr := SplitRowInPlace(table, i);
      if rowErr.Some? {
        SplitStopsAt(rows, i);
        return rowErr;
      }
      SplitExtends(rows, i);
      UpdateAtBoundary(done, rows[i..], SplitAccount(rows[i]).value);
      assert rows[i..][1..] == rows[i + 1..];
      i := i + 1;
    }
    assert rows[..i] == rows;
    err := None;
  }

  lemma UpdateAtBoundary<T>(a: seq<T>, b: seq<T>, v: T)
    requires b != []
    ensures (a + b)[|a| := v] == a + [v] + b[1..]
  {
  }

  lemma SplitExtends(rows: seq<Row>, i: nat)
    requires i < |rows| && SplitAccounts(rows[..i]).Success? && SplitAccount(rows[i]).Success?
    ensures SplitAccounts(rows[..i + 1]) == Success(SplitAccounts(rows[..i]).value + [SplitAccount(rows[i]).value])
  {
    MapAllStep(rows, SplitAccount, i);
  }

  lemma SplitStopsAt(rows: seq<Row>, i: nat)
    requires i < |rows| && SplitAccounts(rows[..i]).Success? && SplitAccount(rows[i]).Failure?
    ensures SplitAccounts(rows) == Failure(SplitAccount(rows[i]).error)
  {
    MapAllStep(rows, SplitAccount, i);
    MapAllStopsAt(rows, SplitAccount, i + 1);
  }

  /** The loop body for row `i`: both names are written first, then the sender address and then
      the recipient address, each of which raises when its cell has no '<'. */
  method SplitRowInPlace(table: array<Row>, i: nat) returns (err: Option<AccountError>)
    requires i < table.Length
    modifies table
    ensures forall j :: 0 <= j < table.Length && j != i ==> table[j] == old(table[j])
    ensures SplitAccount(old(table[i])).Success? ==>
      err == None && table[..] == old(table[..])[i := SplitAccount(old(table[i])).value]
    ensures SplitAccount(old(table[i])).Failure? ==> err == Some(SplitAccount(old(table[i])).error)
  {
    var row := table[i];
    var senderPieces := Split(row.sender, "<");
    var recipientPieces := Split(row.recipient, "<");
    table[i] := row.(sender := Strip(senderPieces[0]), recipient := Strip(recipientPieces[0]));
    if |senderPieces| < 2 {
      return Some(SenderWithoutAngle);
    }
    table[i] := table[i].(senderEmail := Replace(senderPieces[1], ">", ""));
    if |recipientPieces| < 2 {
      return Some(RecipientWithoutAngle);
    }
    table[i] := table[i].(recipientEmail := Replace(recipientPieces[1], ">", ""));
    err := None;
  }
}

module AddressSplitterProperties {
  import opened Wrappers
  import opened PyStr
  import opened AddressSplitter

  /** A cell splits exactly when it contains '<'. The name is the stripped text before the first
      '<'; the address is the text between the first '<' and the next one (or the end), with
      every '>' deleted and nothing else trimmed. */
  lemma SplitAddressSpec(cell: string)
    ensures SplitAddress(cell).None? <==> '<' !in cell
    ensures SplitAddress(cell).Some? ==>
      var (name, email) := SplitAddress(cell).value;
      && name == Strip(cell[..Find(cell, "<").value])
      && '<' !in email && '>' !in email
      && exists segment :: IsSecondField(cell, "<", segment) && email == Without(segment, '>')
  {
    ContainsChar(cell, '<');
    if '<' in cell {
      var pieces := Split(cell, "<");
      var i := Find(cell, "<").value;
      assert pieces[0] == cell[..i];
      SecondField(cell, "<");
      PiecesAvoidSeparator(cell, "<");
      ContainsChar(pieces[1], '<');
      ReplaceCharByNothing(pieces[1], '>');
    }
  }

  /** A cell written as optional whitespace, the display name, a space and the address in angle
      brackets splits back into that name and that address. */
  lemma AddressRoundTrip(pad: string, name: string, email: string)
    requires AllSpace(pad) && IsStripped(name) && '<' !in name
    requires '<' !in email && '>' !in email
    ensures SplitAddress(pad + name + " <" + email + ">") == Some((name, email))
  {
    var head := pad + name + " ";
    var tail := email + ">";
    assert pad + name + " <" + email + ">" == head + ['<'] + tail;
    SplitAtOnly(head, '<', tail);
    StripPadded(pad, name, " ");
    DropClosingBracket(email);
  }

  lemma DropClosingBracket(email: string)
    requires '>' !in email
    ensures Replace(email + ">", ">", "") == email
  {
    ReplaceCharByNothing(email + ">", '>');
    WithoutAppend(email, ">", '>');
    WithoutAbsent(email, '>');
  }

  /** "Jane Doe <jane@x.com>" splits into "Jane Doe" and "jane@x.com". */
  lemma JaneDoe(cell: string)
    requires cell == "Jane Doe <jane@x.com>"
    ensures SplitAddress(cell) == Some(("Jane Doe", "jane@x.com"))
  {
    assert cell == "" + "Jane Doe" + " <" + "jane@x.com" + ">";
    AddressRoundTrip("", "Jane Doe", "jane@x.com");
  }

  /** Both cells of the row have a '<'. */
  predicate HasAngles(row: Row) {
    '<' in row.sender && '<' in row.recipient
  }

  /** One row splits exactly when both of its cells have a '<'; the sender cell is looked at first. */
  lemma SplitAccountSpec(row: Row)
    ensures SplitAccount(row).Success? <==> HasAngles(row)
    ensures SplitAccount(row).Success? ==>
      var out := SplitAccount(row).value;
      && out.date == row.date && out.subject == row.subject && out.message == row.message
      && SplitAddress(row.sender) == Some((out.sender, out.senderEmail))
      && SplitAddress(row.recipient) == Some((out.recipient, out.recipientEmail))
    ensures SplitAccount(row).Failure? ==>
      SplitAccount(row).error == if '<' !in row.sender then SenderWithoutAngle else RecipientWithoutAngle
  {
    SplitAddressSpec(row.sender);
    SplitAddressSpec(row.recipient);
  }

  /** The rows split exactly when every sender and recipient cell has a '<'. On success every
      row keeps its position and its date, subject and message, and takes its names and
      addresses from SplitAddress. */
  lemma SplitAccountsRows(rows: seq<Row>)
    ensures SplitAccounts(rows).Success? <==> forall k :: 0 <= k < |rows| ==> HasAngles(rows[k])
    ensures SplitAccounts(rows).Success? ==>
      var out := SplitAccounts(rows).value;
      && |out| == |rows|
      && forall k :: 0 <= k < |rows| ==>
        && out[k].date == rows[k].date && out[k].subject == rows[k].subject && out[k].message == rows[k].message
        && SplitAddress(rows[k].sender) == Some((out[k].sender, out[k].senderEmail))
        && SplitAddress(rows[k].recipient) == Some((out[k].recipient, out[k].recipientEmail))
  {
    MapAllSuccess(rows, SplitAccount);
    forall k | 0 <= k < |rows| {
      SplitAccountSpec(rows[k]);
    }
  }

  /** On failure the error names the column of the first row that cannot be split. */
  lemma SplitAccountsError(rows: seq<Row>)
    requires SplitAccounts(rows).Failure?
    ensures exists k ::
      && 0 <= k < |rows|
      && (forall j :: 0 <= j < k ==> HasAngles(rows[j]))
      && !HasAngles(rows[k])
      && SplitAccounts(rows).error == (if '<' !in rows[k].sender then SenderWithoutAngle else RecipientWithoutAngle)
  {
    MapAllFailure(rows, SplitAccount);
    var k :| 0 <= k < |rows| && (forall j :: 0 <= j < k ==> SplitAccount(rows[j]).Success?)
      && SplitAccount(rows[k]).Failure? && SplitAccounts(rows).error == SplitAccount(rows[k]).error;
    forall j | 0 <= j <= k {
      SplitAccountSpec(rows[j]);
    }
  }
}
