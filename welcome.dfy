/**
 * The values the waitlist handler derives from the row count after an
 * insert, and the parameters of the welcome email built from them.
 */
module Welcome {
  import opened Wrappers
  import opened JsText

  /** The number of signups that get the early-bird offer. */
  const EarlyBirdSeats: nat := 100

  /** `count || 0`: the count the store reported, or 0 when it reported none. */
  function Position(count: Option<nat>): nat {
    match count
    case Some(n) => n
    case None => 0
  }

  /** `Math.max` on two integers. */
  function Max(a: int, b: int): int {
    if a >= b then a else b
  }

  /** `Math.max(0, 100 - position)`. */
  function SpotsLeft(position: nat): (spots: nat)
    ensures spots <= EarlyBirdSeats
    ensures spots == 0 <==> position >= EarlyBirdSeats
    ensures position <= EarlyBirdSeats ==> position + spots == EarlyBirdSeats
  {
    Max(0, EarlyBirdSeats - position)
  }

  /** `position <= 100`: the position is one of the first hundred. */
  predicate IsEarlyBird(position: nat) {
    position <= EarlyBirdSeats
  }

  /** Spots remain only for early birds, and the hundredth signup is an
      early bird for whom no spot is left. */
  lemma EarlyBirdAndSpotsLeft(position: nat)
    ensures !IsEarlyBird(position) ==> SpotsLeft(position) == 0
    ensures SpotsLeft(position) > 0 ==> IsEarlyBird(position)
    ensures position == EarlyBirdSeats ==> IsEarlyBird(position) && SpotsLeft(position) == 0
  {
  }

  const SubjectStart: string := "\U{1F389} You're #"
  const SubjectEnd: string := " on the TaxMate Waitlist!"
  const GeneralSubject: string := "\U{1F389} Welcome to TaxMate Waitlist!"

  /** The welcome email's subject: it names the position for an early bird
      and is the general welcome otherwise. */
  function Subject(position: nat): string {
    if IsEarlyBird(position) then SubjectStart + Decimal(position) + SubjectEnd
    else GeneralSubject
  }

  /** The position a subject line names, if it names one. */
  function PositionInSubject(subject: string): Option<nat> {
    if |subject| > |SubjectStart| + |SubjectEnd|
       && subject[..|SubjectStart|] == SubjectStart
       && subject[|subject| - |SubjectEnd|..] == SubjectEnd
    then
      var digits := subject[|SubjectStart|..|subject| - |SubjectEnd|];
      if AllDigits(digits) then Some(DecimalValue(digits)) else None
    else None
  }

  /** The subject names the position exactly when the signup is an early bird. */
  lemma SubjectNamesPosition(position: nat)
    ensures PositionInSubject(Subject(position))
            == if IsEarlyBird(position) then Some(position) else None
    ensures Subject(position) == GeneralSubject <==> !IsEarlyBird(position)
  {
    var s := Subject(position);
    if IsEarlyBird(position) {
      var d := Decimal(position);
      assert s[..|SubjectStart|] == SubjectStart;
      assert s[|s| - |SubjectEnd|..] == SubjectEnd;
      assert s[|SubjectStart|..|s| - |SubjectEnd|] == d;
      DecimalRoundTrip(position);
      assert s[2] != GeneralSubject[2];
    } else {
      assert s[..|SubjectStart|][2] != SubjectStart[2];
    }
  }

  const DefaultGreeting: string := "there"

  /** `body.name || "there"`: whom the welcome email greets. */
  function GreetingName(name: Option<string>): (g: string)
    ensures g != []
    ensures g == DefaultGreeting <==> name.None? || name.value == [] || name.value == DefaultGreeting
  {
    match name
    case Some(n) => if n != [] then n else DefaultGreeting
    case None => DefaultGreeting
  }

  const Sender: string := "TaxMate <hello@updates.dtrue.online>"

  /** What the handler asks the mail service to send. The HTML body is
      reduced to the branch it takes (early-bird or general) and the numbers
      it shows. */
  datatype WelcomeEmail = WelcomeEmail(
    from: string,
    to: string,
    subject: string,
    greetingName: string,
    earlyBird: bool,
    position: nat,
    spotsLeft: nat)

  function WelcomeFor(to: string, name: Option<string>, position: nat): WelcomeEmail {
    WelcomeEmail(Sender, to, Subject(position), GreetingName(name),
                 IsEarlyBird(position), position, SpotsLeft(position))
  }

  /** The message goes to the given address; it takes the early-bird branch
      exactly for the first hundred positions, names the position in its
      subject exactly then, and offers the seats that remain. */
  lemma WelcomeEmailParameters(to: string, name: Option<string>, position: nat)
    ensures var m := WelcomeFor(to, name, position);
      && m.from == Sender && m.to == to && m.position == position
      && (m.earlyBird <==> position <= EarlyBirdSeats)
      && PositionInSubject(m.subject) == (if m.earlyBird then Some(position) else None)
      && (m.earlyBird ==> m.position + m.spotsLeft == EarlyBirdSeats)
      && (!m.earlyBird ==> m.spotsLeft == 0 && m.subject == GeneralSubject)
  {
    SubjectNamesPosition(position);
  }

  /** The mail service. `outbox` holds every message it accepted. */
  class Mailer {
    var outbox: seq<WelcomeEmail>

    constructor ()
      ensures outbox == []
    {
      outbox := [];
    }

    /** Hands one message to the service; `fails` stands for the service
        rejecting it (the call throws), in which case nothing is sent. */
    method Send(mail: WelcomeEmail, fails: bool) returns (sent: bool)
      modifies this
      ensures sent == !fails
      ensures outbox == if fails then old(outbox) else old(outbox) + [mail]
    {
      if fails {
        return false;
      }
      outbox := outbox + [mail];
      return true;
    }
  }
}
