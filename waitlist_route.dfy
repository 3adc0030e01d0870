/**
 * The waitlist endpoint: `POST` validates the address, inserts a
 * normalised row, derives the signup's position from the row count,
 * hands a welcome email to the mail service when one is configured, and
 * answers with a fixed acknowledgement; `GET` is refused.
 */
module WaitlistRoute {
  import opened Wrappers
  import opened JsText
  import opened EmailValidation
  import opened Welcome
  import opened RecordStore

  /** The parsed JSON body `{ name?, email, message? }`. */
  datatype Request = Request(name: Option<string>, email: Option<string>, message: Option<string>)

  /** The JSON payload of an answer. */
  datatype JsonBody = SuccessBody(success: bool, message: string) | ErrorBody(error: string)

  const JoinedMessage: string := "Successfully joined the waitlist!"
  const EmailRequiredMessage: string := "Valid email is required"
  const InvalidFormatMessage: string := "Invalid email format"
  const DuplicateMessage: string := "This email is already on the waitlist!"
  const ServerErrorMessage: string := "Failed to process request. Please try again."
  const MethodNotAllowedMessage: string := "Method not allowed. Use POST to join the waitlist."

  /** Every answer the endpoint gives. */
  datatype Response =
    | Joined
    | EmailRequiredError
    | InvalidFormatError
    | AlreadyOnWaitlistError
    | ServerError
    | MethodNotAllowed
  {
    function Status(): int {
      match this
      case Joined => 200
      case EmailRequiredError => 400
      case InvalidFormatError => 400
      case AlreadyOnWaitlistError => 400
      case ServerError => 500
      case MethodNotAllowed => 405
    }

    function Payload(): JsonBody {
      match this
      case Joined => SuccessBody(true, JoinedMessage)
      case EmailRequiredError => ErrorBody(EmailRequiredMessage)
      case InvalidFormatError => ErrorBody(InvalidFormatMessage)
      case AlreadyOnWaitlistError => ErrorBody(DuplicateMessage)
      case ServerError => ErrorBody(ServerErrorMessage)
      case MethodNotAllowed => ErrorBody(MethodNotAllowedMessage)
    }
  }

  /** `toLowerCase().trim()`: the form in which an address is stored and
      compared for uniqueness. */
  function NormalizeEmail(email: string): string {
    Trim(ToLower(email))
  }

  /** For an address that passed validation the trim changes nothing: the
      stored form is the lower-cased address. */
  lemma NormalizeAccepted(email: string)
    requires MatchesEmailRegex(email)
    ensures NormalizeEmail(email) == ToLower(email)
  {
    var lower := ToLower(email);
    AcceptedEmailShape(email);
    forall i | 0 <= i < |email| ensures !IsWhitespace(lower[i]) {
      LowerCharKeepsClasses(email[i]);
    }
    TrimOfUnspaced(lower);
  }

  /** Normalising twice is normalising once. */
  lemma NormalizeIdempotent(email: string)
    ensures NormalizeEmail(NormalizeEmail(email)) == NormalizeEmail(email)
  {
    var lower := ToLower(email);
    var trimmed := Trim(lower);
    calc {
      NormalizeEmail(trimmed);
      Trim(ToLower(trimmed));
      { TrimLowerCommute(trimmed); }
      ToLower(Trim(trimmed));
      { TrimIdempotent(lower); }
      ToLower(trimmed);
      { TrimLowerCommute(lower); }
      Trim(ToLower(lower));
      { ToLowerIsLowerCase(email); ToLowerIsLowerCase(lower); }
      trimmed;
    }
  }

  /** `value || null`: an absent or empty field is stored as null. */
  function OrNull(value: Option<string>): (r: Option<string>)
    ensures r.None? <==> value.None? || value.value == []
    ensures r.Some? ==> r == value
  {
    match value
    case Some(v) => if v != [] then value else None
    case None => None
  }

  /** The row an admissible request is stored as: name and message as
      `|| null` leaves them, and the address lower-cased. */
  ghost function StoredRow(req: Request): Row
    requires req.email.Some?
  {
    Row(OrNull(req.name), ToLower(req.email.value), OrNull(req.message))
  }

  /** Builds the insert payload `{ name: name || null, email:
      email.toLowerCase().trim(), message: message || null }`; for an
      address that passed validation this is the stored row above. A method,
      so that callers reason from this contract alone and never unfold `trim`. */
  method InsertPayload(req: Request, email: string) returns (row: Row)
    requires req.email == Some(email) && MatchesEmailRegex(email)
    ensures row == StoredRow(req)
  {
    row := Row(OrNull(req.name), NormalizeEmail(email), OrNull(req.message));
    NormalizeAccepted(email);
  }

  /** The welcome email greets the name that was stored, or "there" when
      null was stored. */
  lemma GreetingUsesStoredName(name: Option<string>)
    ensures GreetingName(name) == match OrNull(name) case Some(n) => n case None => DefaultGreeting
  {
  }

  /** Every stored address is lower-case and matches the pattern. */
  ghost predicate AllNormalized(rows: seq<Row>) {
    forall i :: 0 <= i < |rows| ==> IsLowerCase(rows[i].email) && MatchesEmailRegex(rows[i].email)
  }

  lemma AppendNormalized(rows: seq<Row>, row: Row)
    requires AllNormalized(rows)
    requires IsLowerCase(row.email) && MatchesEmailRegex(row.email)
    ensures AllNormalized(rows + [row])
  {
    forall i | 0 <= i < |rows| + 1
      ensures IsLowerCase((rows + [row])[i].email) && MatchesEmailRegex((rows + [row])[i].email)
    {
      if i < |rows| {
        assert (rows + [row])[i] == rows[i];
      }
    }
  }

  /** Appending the row built from an accepted request keeps every stored
      address lower-case and matching the pattern. */
  lemma InsertKeepsNormalized(rows: seq<Row>, req: Request)
    requires AllNormalized(rows)
    requires req.email.Some? && MatchesEmailRegex(req.email.value)
    ensures AllNormalized(rows + [StoredRow(req)])
  {
    var email := req.email.value;
    ToLowerIsLowerCase(email);
    LowerKeepsRegex(email);
    AppendNormalized(rows, StoredRow(req));
  }

  /** Such an address is its own normal form, so a later submission of the
      same address in any letter case normalises to exactly the stored text. */
  lemma NormalizedRowsAreFixed(rows: seq<Row>, i: nat)
    requires AllNormalized(rows) && i < |rows|
    ensures NormalizeEmail(rows[i].email) == rows[i].email
  {
    NormalizeAccepted(rows[i].email);
    ToLowerIsLowerCase(rows[i].email);
  }

  /** The body was read and its address passed both checks. */
  ghost predicate Admissible(body: Option<Request>) {
    body.Some? && body.value.email.Some? && MatchesEmailRegex(body.value.email.value)
  }

  function Rejected(why: EmailRejection): Response {
    match why
    case EmailRequired => EmailRequiredError
    case InvalidEmailFormat => InvalidFormatError
  }

  /**
   * The `POST` handler. `body` is None when the request body could not be
   * read as JSON (or is JSON null); `storeFault`, `countFails` and
   * `sendFails` stand for the database and the mail service misbehaving;
   * `mailer` is null when no mail service is configured.
   */
  method Post(table: WaitlistTable, mailer: Mailer?, body: Option<Request>,
              storeFault: Option<StoreError>, countFails: bool, sendFails: bool)
    returns (resp: Response)
    requires table.Valid()
    modifies table, mailer
    ensures table.Valid()
    ensures AllNormalized(old(table.rows)) ==> AllNormalized(table.rows)
    // every answer but success leaves the table and the outbox alone
    ensures resp != Joined ==> table.rows == old(table.rows)
    ensures resp != Joined && mailer != null ==> mailer.outbox == old(mailer.outbox)
    ensures body.None? ==> resp == ServerError
    ensures body.Some? && !HasEmailWithAt(body.value.email) ==> resp == EmailRequiredError
    ensures body.Some? && HasEmailWithAt(body.value.email) && !MatchesEmailRegex(body.value.email.value) ==>
              resp == InvalidFormatError
    ensures Admissible(body) && storeFault.Some? ==>
              resp == if storeFault.value.code == UniqueViolation then AlreadyOnWaitlistError else ServerError
    ensures Admissible(body) && storeFault.None? && StoredRow(body.value).email in Emails(old(table.rows)) ==>
              resp == AlreadyOnWaitlistError
    ensures Admissible(body) && storeFault.None? && StoredRow(body.value).email !in Emails(old(table.rows)) ==>
              resp == Joined && table.rows == old(table.rows) + [StoredRow(body.value)]
    // the welcome email goes to the address as typed, with the position read after the insert
    ensures resp == Joined && mailer != null ==>
              var position := if countFails then 0 else |old(table.rows)| + 1;
              mailer.outbox == old(mailer.outbox)
                + if sendFails then [] else [WelcomeFor(body.value.email.value, body.value.name, position)]
  {
    if body.None? {
      return ServerError;
    }
    var req := body.value;
    var checked := CheckEmail(req.email);
    if checked.Err? {
      return Rejected(checked.error);
    }
    resp := Enroll(table, mailer, req, checked.value, storeFault, countFails, sendFails);
  }

  /** The handler from the insert on, for a request whose address passed
      both checks: insert, count, welcome email, acknowledgement. */
  method Enroll(table: WaitlistTable, mailer: Mailer?, req: Request, email: string,
                storeFault: Option<StoreError>, countFails: bool, sendFails: bool)
    returns (resp: Response)
    requires table.Valid()
    requires req.email == Some(email) && MatchesEmailRegex(email)
    modifies table, mailer
    ensures table.Valid()
    ensures AllNormalized(old(table.rows)) ==> AllNormalized(table.rows)
    ensures resp != Joined ==> table.rows == old(table.rows)
    ensures resp != Joined && mailer != null ==> mailer.outbox == old(mailer.outbox)
    ensures storeFault.Some? ==>
              resp == if storeFault.value.code == UniqueViolation then AlreadyOnWaitlistError else ServerError
    ensures storeFault.None? && StoredRow(req).email in Emails(old(table.rows)) ==> resp == AlreadyOnWaitlistError
    ensures storeFault.None? && StoredRow(req).email !in Emails(old(table.rows)) ==>
              resp == Joined && table.rows == old(table.rows) + [StoredRow(req)]
    ensures resp == Joined && mailer != null ==>
              var position := if countFails then 0 else |old(table.rows)| + 1;
              mailer.outbox == old(mailer.outbox)
                + if sendFails then [] else [WelcomeFor(email, req.name, position)]
  {
    var row := InsertPayload(req, email);
    var err := table.Insert(row, storeFault);
    if err.Some? {
      if err.value.code == UniqueViolation {
        return AlreadyOnWaitlistError;
      }
      return ServerError;
    }
    if AllNormalized(old(table.rows)) {
      InsertKeepsNormalized(old(table.rows), req);
    }
    var count := table.Count(countFails);
    var position := Position(count);
    assert position == if countFails then 0 else |old(table.rows)| + 1;
    if mailer != null {
      var mail := WelcomeFor(email, req.name, position);
      // a failed send is deliberately ignored: the answer does not depend on it
      var _ := mailer.Send(mail, sendFails);
    }
    return Joined;
  }

  /** The `GET` handler: the method is refused, and nothing is read or written. */
  function Get(): (resp: Response)
    ensures resp.Status() == 405
    ensures resp.Payload() == ErrorBody(MethodNotAllowedMessage)
  {
    MethodNotAllowed
  }
}
