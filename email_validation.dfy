/**
 * The two-stage email check of the waitlist handler: a presence test
 * (a non-empty value that contains '@'), then the pattern
 * `^[^\s@]+@[^\s@]+\.[^\s@]+$`.
 */
module EmailValidation {
  import opened Wrappers
  import opened JsText

  /** `[^\s@]`: any character except whitespace and '@'. */
  predicate IsAddressChar(c: char) {
    !IsWhitespace(c) && c != '@'
  }

  predicate AllAddressChars(s: string) {
    forall i :: 0 <= i < |s| ==> IsAddressChar(s[i])
  }

  /** The pattern's three groups: `s[..at]`, `s[at + 1..dot]` and `s[dot + 1..]`,
      each non-empty and made of address characters, joined by '@' and '.'. */
  ghost predicate SplitsAt(s: string, at: nat, dot: nat) {
    0 < at && at + 1 < dot && dot + 1 < |s|
    && s[at] == '@' && s[dot] == '.'
    && AllAddressChars(s[..at]) && AllAddressChars(s[at + 1..dot]) && AllAddressChars(s[dot + 1..])
  }

  /** The language of `^[^\s@]+@[^\s@]+\.[^\s@]+$` (no multiline flag, so the
      anchors are the ends of the whole string). */
  ghost predicate MatchesEmailRegex(s: string) {
    exists at: nat, dot: nat :: SplitsAt(s, at, dot)
  }

  /** The first index of `c` in `s`, if any. */
  function IndexOf(s: string, c: char): (r: Option<nat>)
    ensures r.None? ==> c !in s
    ensures r.Some? ==> r.value < |s| && s[r.value] == c && c !in s[..r.value]
  {
    if s == [] then None
    else if s[0] == c then Some(0)
    else match IndexOf(s[1..], c)
      case None => None
      case Some(i) =>
        assert s[..i + 1] == [s[0]] + s[1..][..i];
        Some(i + 1)
  }

  /** A direct decision procedure for the pattern's language: split at the
      first '@', then look for a '.' strictly inside the part after it. */
  predicate EmailPatternTest(s: string) {
    match IndexOf(s, '@')
    case None => false
    case Some(at) =>
      var local, domain := s[..at], s[at + 1..];
      |local| > 0 && AllAddressChars(local) && AllAddressChars(domain)
      && |domain| >= 3 && '.' in domain[1..|domain| - 1]
  }

  /** The test accepts exactly the language of the pattern. */
  lemma EmailPatternTestIsRegex(s: string)
    ensures EmailPatternTest(s) <==> MatchesEmailRegex(s)
  {
    if EmailPatternTest(s) {
      var at := IndexOf(s, '@').value;
      var domain := s[at + 1..];
      var inner := domain[1..|domain| - 1];
      var j :| 0 <= j < |inner| && inner[j] == '.';
      var dot := at + 2 + j;
      assert s[dot] == '.';
      assert s[at + 1..dot] == domain[..j + 1];
      assert s[dot + 1..] == domain[j + 2..];
      assert SplitsAt(s, at, dot);
    }
    if MatchesEmailRegex(s) {
      var at: nat, dot: nat :| SplitsAt(s, at, dot);
      var first := IndexOf(s, '@');
      forall i | 0 <= i < at ensures s[i] != '@' {
        assert s[..at][i] == s[i];
      }
      assert first.Some? && first.value == at;
      var domain := s[at + 1..];
      forall i | 0 <= i < |domain| ensures IsAddressChar(domain[i]) {
        if at + 1 + i < dot {
          assert domain[i] == s[at + 1..dot][i];
        } else if at + 1 + i > dot {
          assert domain[i] == s[dot + 1..][at + i - dot];
        }
      }
      assert domain[1..|domain| - 1][dot - at - 2] == '.';
    }
  }

  /** Facts about an address the pattern accepts: it contains no whitespace,
      exactly one '@', and the part after the '@' holds a '.' that is
      neither its first nor its last character. */
  lemma AcceptedEmailShape(s: string)
    requires MatchesEmailRegex(s)
    ensures NoWhitespace(s)
    ensures '@' in s
    ensures forall i, j :: 0 <= i < |s| && 0 <= j < |s| && s[i] == '@' && s[j] == '@' ==> i == j
    ensures exists at: nat, dot: nat :: at < dot < |s| - 1 && at + 1 < dot && s[at] == '@' && s[dot] == '.'
  {
    var at: nat, dot: nat :| SplitsAt(s, at, dot);
    forall i | 0 <= i < |s| && i != at ensures IsAddressChar(s[i]) {
      if i < at {
        assert s[i] == s[..at][i];
      } else if i < dot {
        assert s[i] == s[at + 1..dot][i - at - 1];
      } else if i > dot {
        assert s[i] == s[dot + 1..][i - dot - 1];
      }
    }
  }

  /** Presence is implied by the pattern, so the presence test only decides
      which of the two rejections an input gets. */
  lemma RegexImpliesPresence(s: string)
    requires MatchesEmailRegex(s)
    ensures s != [] && '@' in s
  {
    var at: nat, dot: nat :| SplitsAt(s, at, dot);
  }

  /** An address followed by any whitespace character fails the pattern. */
  lemma TrailingWhitespaceFailsRegex(s: string, c: char)
    requires IsWhitespace(c)
    ensures !MatchesEmailRegex(s + [c])
  {
    var t := s + [c];
    assert !NoWhitespace(t) by {
      assert t[|s|] == c;
    }
    if MatchesEmailRegex(t) {
      AcceptedEmailShape(t);
    }
  }

  lemma LowerKeepsAddressChars(s: string)
    requires AllAddressChars(s)
    ensures AllAddressChars(ToLower(s))
  {
    forall i | 0 <= i < |s| ensures IsAddressChar(ToLower(s)[i]) {
      LowerCharKeepsClasses(s[i]);
    }
  }

  /** Lower-casing an accepted address keeps it accepted, at the same split. */
  lemma LowerKeepsRegex(s: string)
    requires MatchesEmailRegex(s)
    ensures MatchesEmailRegex(ToLower(s))
  {
    var at: nat, dot: nat :| SplitsAt(s, at, dot);
    var t := ToLower(s);
    LowerCharKeepsClasses(s[at]);
    LowerCharKeepsClasses(s[dot]);
    ToLowerSlice(s, 0, at);
    ToLowerSlice(s, at + 1, dot);
    ToLowerSlice(s, dot + 1, |s|);
    assert s[..at] == s[0..at] && t[..at] == t[0..at];
    assert s[dot + 1..] == s[dot + 1..|s|] && t[dot + 1..] == t[dot + 1..|s|];
    LowerKeepsAddressChars(s[..at]);
    LowerKeepsAddressChars(s[at + 1..dot]);
    LowerKeepsAddressChars(s[dot + 1..]);
    assert SplitsAt(t, at, dot);
  }

  /** Sample inputs: a mixed-case address passes; an address without a dot
      after the '@', one with nothing before the '@', and one with a space
      inside all fail. */
  lemma AcceptedExample()
    ensures MatchesEmailRegex("User@Example.com")
  {
    assert SplitsAt("User@Example.com", 4, 12);
  }

  lemma RejectedExamples()
    ensures !MatchesEmailRegex("foo@bar")
    ensures !MatchesEmailRegex("@x.com")
    ensures !MatchesEmailRegex("a b@c.com")
  {
    var noDot, noLocal, spaced := "foo@bar", "@x.com", "a b@c.com";
    assert forall i :: 0 <= i < |noDot| ==> noDot[i] != '.';
    forall at: nat | 0 < at <= |noLocal| ensures !AllAddressChars(noLocal[..at]) {
      assert noLocal[..at][0] == '@';
    }
    forall at: nat | 1 < at <= |spaced| ensures !AllAddressChars(spaced[..at]) {
      assert spaced[..at][1] == ' ';
    }
  }

  /** Why an address was turned away. */
  datatype EmailRejection =
    | EmailRequired       // missing, empty or without '@'
    | InvalidEmailFormat  // has an '@' but does not match the pattern

  /** `!body.email || !body.email.includes("@")`: the value is present,
      non-empty and contains '@'. */
  predicate HasEmailWithAt(email: Option<string>) {
    email.Some? && email.value != "" && '@' in email.value
  }

  /** Both stages in order: the presence test first, then the pattern. */
  function CheckEmail(email: Option<string>): (r: Result<string, EmailRejection>)
    ensures r.Ok? <==> email.Some? && MatchesEmailRegex(email.value)
    ensures r.Ok? ==> r.value == email.value && NoWhitespace(r.value)
    ensures r == Err(EmailRequired) <==> !HasEmailWithAt(email)
    ensures r == Err(InvalidEmailFormat) <==> HasEmailWithAt(email) && !MatchesEmailRegex(email.value)
  {
    if !HasEmailWithAt(email) then
      assert email.Some? ==> !MatchesEmailRegex(email.value) by {
        if email.Some? && MatchesEmailRegex(email.value) {
          RegexImpliesPresence(email.value);
        }
      }
      Err(EmailRequired)
    else
      EmailPatternTestIsRegex(email.value);
      if !EmailPatternTest(email.value) then
        Err(InvalidEmailFormat)
      else
        AcceptedEmailShape(email.value);
        Ok(email.value)
  }
}
