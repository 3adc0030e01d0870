/**
 * Callers of the waitlist endpoint: what a client can conclude from the
 * handler's contract alone.
 */
module WaitlistScenarios {
  import opened Wrappers
  import opened JsText
  import opened EmailValidation
  import opened RecordStore
  import opened Welcome
  import opened WaitlistRoute

  /** The same request sent `n` times in a row while the database and the
      mail service behave: at most the first is accepted, every later one is
      a duplicate, and the table ends with exactly one row for the address. */
  method SubmitRepeatedly(table: WaitlistTable, mailer: Mailer?, req: Request, n: nat)
    returns (answers: seq<Response>)
    requires table.Valid()
    requires req.email.Some? && MatchesEmailRegex(req.email.value)
    modifies table, mailer
    ensures table.Valid()
    ensures |answers| == n
    ensures forall k :: 1 <= k < n ==> answers[k] == AlreadyOnWaitlistError
    ensures n > 0 ==>
              answers[0] == if StoredRow(req).email in Emails(old(table.rows)) then AlreadyOnWaitlistError else Joined
    ensures table.rows == if n > 0 && StoredRow(req).email !in Emails(old(table.rows))
                          then old(table.rows) + [StoredRow(req)] else old(table.rows)
    ensures n > 0 ==> RowsWithEmail(table.rows, StoredRow(req).email) == 1
  {
    ghost var row := StoredRow(req);
    answers := [];
    while |answers| < n
      invariant |answers| <= n
      invariant table.Valid()
      invariant forall k :: 1 <= k < |answers| ==> answers[k] == AlreadyOnWaitlistError
      invariant |answers| > 0 ==>
                  answers[0] == if row.email in Emails(old(table.rows)) then AlreadyOnWaitlistError else Joined
      invariant table.rows == if |answers| > 0 && row.email !in Emails(old(table.rows))
                              then old(table.rows) + [row] else old(table.rows)
      invariant |answers| > 0 ==> row.email in Emails(table.rows)
    {
      var answer := Post(table, mailer, Some(req), None, false, false);
      if |answers| > 0 {
        assert answer == AlreadyOnWaitlistError;
      } else if row.email !in Emails(old(table.rows)) {
        assert Emails(table.rows)[|table.rows| - 1] == row.email;
      }
      answers := answers + [answer];
    }
    if n > 0 {
      UniqueMeansAtMostOne(table.rows, row.email);
    }
  }

  /** A signup, then the same address in lower case with a trailing
      whitespace character (say "User@Example.com", then
      "user@example.com "): the second is refused as malformed, since the
      pattern admits no whitespace, not as a duplicate, and the table holds
      one row with the lower-cased address. */
  method TrailingSpaceVariant(typed: string, space: char) returns (first: Response, second: Response, rows: seq<Row>)
    requires MatchesEmailRegex(typed) && IsWhitespace(space)
    ensures first == Joined
    ensures second == InvalidFormatError
    ensures rows == [Row(None, ToLower(typed), None)]
  {
    var variant := ToLower(typed) + [space];
    assert HasEmailWithAt(Some(variant)) && !MatchesEmailRegex(variant) by {
      LowerKeepsRegex(typed);
      RegexImpliesPresence(ToLower(typed));
      TrailingWhitespaceFailsRegex(ToLower(typed), space);
    }
    var table := new WaitlistTable();
    first := Post(table, null, Some(Request(None, Some(typed), None)), None, false, false);
    second := Post(table, null, Some(Request(None, Some(variant), None)), None, false, false);
    rows := table.rows;
  }
}
