/**
 * The demo-request form's field validator (`validateField` in
 * src/components/ui/DemoModal.tsx): a pure map from a field name and its
 * value to an error message, the empty string meaning "valid".
 *
 * The two regular expressions of the source are written out as explicit
 * character predicates; each is paired with a reference definition (the
 * split the pattern describes) and a lemma that the two agree.
 */
module Validation {
  import opened JsText

  const NameRequired := "Full Name is required"
  const EmailRequired := "Email is required"
  const EmailInvalid := "Enter a valid email address"
  const PhoneRequired := "Phone number is required"
  const PhoneInvalid := "Enter a valid 10-digit phone number"
  const MessageTooLong := "Message should not exceed 300 characters"

  /** Longest accepted message, in UTF-16 code units. */
  const MaxMessageLength := 300
  /** Number of digits of an accepted phone number. */
  const PhoneDigits := 10

  /** The form's fields, named after the `name` attribute of their inputs
      ("name", "email", "phone", "service", "message"). */
  datatype Field = Name | Email | Phone | Service | Message

  /** The fields `validateField` has a rule for; the plan selection has none. */
  const ValidatedFields: set<Field> := {Name, Email, Phone, Message}

  // ---------------------------------------------------------------------------
  // Email: ^[^\s@]+@[^\s@]+\.[^\s@]+$

  /** One character of the class `[^\s@]`. */
  predicate IsSegmentChar(c: char) {
    !IsWhitespace(c) && c != '@'
  }

  /** A run `[^\s@]+`. */
  predicate IsSegment(s: string) {
    |s| > 0 && forall i :: 0 <= i < |s| ==> IsSegmentChar(s[i])
  }

  /** `v` is local part, '@', domain, '.', top-level part, each a run `[^\s@]+`. */
  predicate EmailParts(v: string, local: string, domain: string, tld: string) {
    IsSegment(local) && IsSegment(domain) && IsSegment(tld) && v == local + "@" + domain + "." + tld
  }

  /** The language of the email pattern: reference definition. */
  ghost predicate EmailPattern(v: string) {
    exists local, domain, tld :: EmailParts(v, local, domain, tld)
  }

  /** Position of the first `c` in `s`, or `|s|` when there is none. */
  function IndexOf(s: string, c: char): nat {
    if s == [] || s[0] == c then 0 else 1 + IndexOf(s[1..], c)
  }

  /** IndexOf finds the first occurrence: no `c` before it, `c` at it unless
      it is `|s|`, and `|s|` exactly when `c` does not occur. */
  lemma {:induction false} IndexOfSpec(s: string, c: char)
    ensures IndexOf(s, c) <= |s|
    ensures forall j :: 0 <= j < IndexOf(s, c) ==> s[j] != c
    ensures IndexOf(s, c) < |s| ==> s[IndexOf(s, c)] == c
    ensures IndexOf(s, c) == |s| <==> c !in s
  {
    if s != [] && s[0] != c {
      IndexOfSpec(s[1..], c);
      forall j | 0 <= j < IndexOf(s, c) ensures s[j] != c {
        if j > 0 { assert s[j] == s[1..][j - 1]; }
      }
      if c in s {
        var j :| 0 <= j < |s| && s[j] == c;
        assert s[1..][j - 1] == c;
      }
    }
  }

  /** The email pattern checked character by character: no whitespace,
      exactly one '@' and it is not first, and after it a '.' that is
      neither right after the '@' nor last. */
  predicate MatchesEmail(v: string) {
    && (forall i :: 0 <= i < |v| ==> !IsWhitespace(v[i]))
    && multiset(v)['@'] == 1
    && var at := IndexOf(v, '@');
       0 < at && exists k :: at + 1 < k < |v| - 1 && v[k] == '.'
  }

  /** The character-level check accepts exactly the language of the pattern. */
  lemma EmailMatcherCorrect(v: string)
    ensures MatchesEmail(v) <==> EmailPattern(v)
  {
    if MatchesEmail(v) {
      EmailMatcherSound(v);
    }
    if EmailPattern(v) {
      var local, domain, tld :| EmailParts(v, local, domain, tld);
      EmailMatcherComplete(v, local, domain, tld);
    }
  }

  /** With exactly one '@' in `v`, nothing after the first '@' is an '@'. */
  lemma SingleAt(v: string)
    requires multiset(v)['@'] == 1
    ensures IndexOf(v, '@') < |v|
    ensures '@' !in v[IndexOf(v, '@') + 1..]
  {
    assert '@' in multiset(v);
    IndexOfSpec(v, '@');
    var at := IndexOf(v, '@');
    assert v == v[..at] + [v[at]] + v[at + 1..];
    assert multiset(v) == multiset(v[..at]) + multiset([v[at]]) + multiset(v[at + 1..]);
  }

  /** A non-empty slice free of whitespace and '@' is a run `[^\s@]+`. */
  lemma SliceIsSegment(v: string, lo: int, hi: int)
    requires 0 <= lo < hi <= |v|
    requires forall i :: 0 <= i < |v| ==> !IsWhitespace(v[i])
    requires '@' !in v[lo..hi]
    ensures IsSegment(v[lo..hi])
  {
    forall i | 0 <= i < hi - lo ensures IsSegmentChar(v[lo..hi][i]) {
      assert v[lo..hi][i] == v[lo + i];
    }
  }

  /** Cutting `v` at an '@' and a later '.' and gluing the pieces back
      gives `v`. */
  lemma Recompose(v: string, at: int, k: int)
    requires 0 <= at < k < |v| && v[at] == '@' && v[k] == '.'
    ensures v == v[..at] + "@" + v[at + 1..k] + "." + v[k + 1..]
  {
    assert v == v[..at] + [v[at]] + v[at + 1..k] + [v[k]] + v[k + 1..];
  }

  /** Whatever the character-level check accepts splits as the pattern says. */
  lemma EmailMatcherSound(v: string)
    requires MatchesEmail(v)
    ensures EmailPattern(v)
  {
    SingleAt(v);
    IndexOfSpec(v, '@');
    var at := IndexOf(v, '@');
    var k :| at + 1 < k < |v| - 1 && v[k] == '.';
    assert '@' !in v[..at];
    SliceIsSegment(v, 0, at);
    assert v[at + 1..][..k - at - 1] == v[at + 1..k];
    SliceIsSegment(v, at + 1, k);
    assert v[at + 1..][k - at..] == v[k + 1..];
    SliceIsSegment(v, k + 1, |v|);
    Recompose(v, at, k);
    assert EmailParts(v, v[..at], v[at + 1..k], v[k + 1..]);
  }

  /** Every split the pattern describes passes the character-level check. */
  lemma EmailMatcherComplete(v: string, local: string, domain: string, tld: string)
    requires EmailParts(v, local, domain, tld)
    ensures MatchesEmail(v)
  {
    var dot := |local| + 1 + |domain|;
    forall i | 0 <= i < |v| ensures !IsWhitespace(v[i]) {
      if i < |local| {
        assert v[i] == local[i];
      } else if |local| < i < dot {
        assert v[i] == domain[i - |local| - 1];
      } else if dot < i {
        assert v[i] == tld[i - dot - 1];
      }
    }
    assert '@' !in local && '@' !in domain && '@' !in tld;
    assert v == local + ['@'] + domain + ['.'] + tld;
    assert multiset(v) == multiset(local) + multiset{'@'} + multiset(domain) + multiset{'.'} + multiset(tld);
    assert v[|local|] == '@';
    IndexOfSpec(v, '@');
    assert IndexOf(v, '@') == |local|;
    assert v[dot] == '.';
  }

  // ---------------------------------------------------------------------------
  // Phone: ^\d{10}$

  /** The language of the phone pattern: reference definition. */
  predicate PhonePattern(v: string) {
    |v| == PhoneDigits && forall i :: 0 <= i < |v| ==> IsAsciiDigit(v[i])
  }

  /** `^\d{n}$` matched one character at a time. */
  predicate MatchesDigits(v: string, n: nat) {
    if n == 0 then v == [] else v != [] && IsAsciiDigit(v[0]) && MatchesDigits(v[1..], n - 1)
  }

  lemma {:induction false} DigitsMatcherCorrect(v: string, n: nat)
    ensures MatchesDigits(v, n) <==> |v| == n && forall i :: 0 <= i < |v| ==> IsAsciiDigit(v[i])
  {
    if n > 0 && v != [] {
      DigitsMatcherCorrect(v[1..], n - 1);
      if |v| == n && forall i :: 0 <= i < |v| ==> IsAsciiDigit(v[i]) {
        assert forall i :: 0 <= i < |v[1..]| ==> IsAsciiDigit(v[1..][i]) by {
          forall i | 0 <= i < |v[1..]| ensures IsAsciiDigit(v[1..][i]) {
            assert v[1..][i] == v[i + 1];
          }
        }
      }
    }
  }

  // ---------------------------------------------------------------------------
  // The validator

  /** The `name` rule: required, checked on the trimmed value. */
  function NameError(value: string): string {
    if Trim(value) == "" then NameRequired else ""
  }

  /** The `email` rule: required (on the trimmed value) before the pattern
      (on the value as typed). */
  function EmailError(value: string): string {
    if Trim(value) == "" then EmailRequired
    else if !MatchesEmail(value) then EmailInvalid
    else ""
  }

  /** The `phone` rule: required (on the trimmed value) before the pattern
      (on the value as typed). */
  function PhoneError(value: string): string {
    if Trim(value) == "" then PhoneRequired
    else if !MatchesDigits(value, PhoneDigits) then PhoneInvalid
    else ""
  }

  /** The `message` rule: optional, at most 300 UTF-16 code units. */
  function MessageError(value: string): string {
    if Utf16Length(value) > MaxMessageLength then MessageTooLong else ""
  }

  /** `validateField(name, value)`: "" when the value is acceptable for the
      field, otherwise the message shown next to it. Each validated field
      has its own rule; the plan selection falls to the `default` branch and
      is always accepted. */
  function ValidateField(field: Field, value: string): (error: string)
    ensures field !in ValidatedFields ==> error == ""
  {
    match field
    case Name => NameError(value)
    case Email => EmailError(value)
    case Phone => PhoneError(value)
    case Message => MessageError(value)
    case Service => ""
  }

  /** A name is missing exactly when it is empty or only whitespace. */
  lemma NameRule(value: string)
    ensures ValidateField(Name, value) == (if IsBlank(value) then NameRequired else "")
  {
    TrimSpec(value);
  }

  /** A blank email is missing; otherwise it is valid exactly when it
      splits as the pattern says. */
  lemma EmailRule(value: string)
    ensures ValidateField(Email, value) ==
      (if IsBlank(value) then EmailRequired else if EmailPattern(value) then "" else EmailInvalid)
    ensures ValidateField(Email, value) == "" <==> EmailPattern(value)
  {
    TrimSpec(value);
    EmailMatcherCorrect(value);
    if EmailPattern(value) {
      var local, domain, tld :| EmailParts(value, local, domain, tld);
      assert value[|local|] == '@';
    }
  }

  /** A blank phone is missing; otherwise it is valid exactly when it is
      ten ASCII digits. */
  lemma PhoneRule(value: string)
    ensures ValidateField(Phone, value) ==
      (if IsBlank(value) then PhoneRequired else if PhonePattern(value) then "" else PhoneInvalid)
    ensures ValidateField(Phone, value) == "" <==> PhonePattern(value)
  {
    TrimSpec(value);
    DigitsMatcherCorrect(value, PhoneDigits);
    if PhonePattern(value) {
      assert !IsWhitespace(value[0]);
    }
  }

  /** A message is too long exactly when it has more than 300 UTF-16 code
      units, and then the error is the length message. */
  lemma MessageRule(value: string)
    ensures ValidateField(Message, value) == "" <==> Utf16Length(value) <= MaxMessageLength
    ensures ValidateField(Message, value) == "" || ValidateField(Message, value) == MessageTooLong
  {
  }

  /** In characters: more than 300 are always too long, 150 never are, and
      for text within the Basic Multilingual Plane the bound is exactly 300. */
  lemma MessageRuleInCharacters(value: string)
    ensures |value| > MaxMessageLength ==> ValidateField(Message, value) == MessageTooLong
    ensures |value| <= MaxMessageLength / 2 ==> ValidateField(Message, value) == ""
    ensures (forall i :: 0 <= i < |value| ==> value[i] as int < 0x1_0000) ==>
      (ValidateField(Message, value) == "" <==> |value| <= MaxMessageLength)
  {
    MessageRule(value);
    Utf16LengthBounds(value);
  }

  /** With no '.' after the first '@' the character-level check fails. */
  lemma NoDotAfterAtUnmatched(v: string)
    requires forall k :: IndexOf(v, '@') <= k < |v| ==> v[k] != '.'
    ensures !MatchesEmail(v)
  {
  }

  /** An email value with no '.' after its first '@' (in particular one
      without an '@') is rejected. */
  lemma EmailWithoutAtOrDotRejected(v: string)
    requires forall k :: IndexOf(v, '@') <= k < |v| ==> v[k] != '.'
    ensures ValidateField(Email, v) != ""
  {
    NoDotAfterAtUnmatched(v);
  }

  /** A phone value that is not exactly ten ASCII digits is rejected. */
  lemma PhoneNotTenDigitsRejected(v: string)
    requires |v| != PhoneDigits || exists i :: 0 <= i < |v| && !IsAsciiDigit(v[i])
    ensures ValidateField(Phone, v) != ""
  {
    PhoneRule(v);
  }

  /** Any value that splits as the pattern says is a valid email. */
  lemma SplitEmailAccepted(v: string, local: string, domain: string, tld: string)
    requires EmailParts(v, local, domain, tld)
    ensures ValidateField(Email, v) == ""
  {
    EmailRule(v);
  }

  // ---------------------------------------------------------------------------
  // The validator on concrete values

  /** A full name that is empty or only spaces is missing. */
  lemma BlankNameRequired()
    ensures ValidateField(Name, "") == NameRequired
    ensures ValidateField(Name, "   ") == NameRequired
  {
    NameRule("");
    NameRule("   ");
  }

  /** Lower-case letters and dots make a run `[^\s@]+`. */
  lemma PlainSegment(s: string)
    requires |s| > 0
    requires forall i :: 0 <= i < |s| ==> 'a' <= s[i] <= 'z' || s[i] == '.'
    ensures IsSegment(s)
  {
  }

  lemma TypicalEmailAccepted()
    ensures ValidateField(Email, "jane@example.com") == ""
  {
    var v := "jane@example.com";
    PlainSegment("jane");
    PlainSegment("example");
    PlainSegment("com");
    assert v == "jane" + "@" + "example" + "." + "com";
    SplitEmailAccepted(v, "jane", "example", "com");
  }

  /** The domain may itself contain dots; the '.' checked is any inner one. */
  lemma DottedDomainAccepted()
    ensures ValidateField(Email, "a.b@mail.example.org") == ""
  {
    var v := "a.b@mail.example.org";
    PlainSegment("a.b");
    PlainSegment("mail.example");
    PlainSegment("org");
    assert v == "a.b" + "@" + "mail.example" + "." + "org";
    SplitEmailAccepted(v, "a.b", "mail.example", "org");
  }

  lemma EmailWithoutDomainDotRejected()
    ensures ValidateField(Email, "jane@example") == EmailInvalid
  {
    var v := "jane@example";
    assert !IsWhitespace(v[0]);
    EmailWithoutAtOrDotRejected(v);
  }

  /** Separators are not digits. */
  lemma PhoneWithSeparatorsRejected()
    ensures ValidateField(Phone, "555-123-4567") == PhoneInvalid
  {
    var v := "555-123-4567";
    PhoneRule(v);
    assert !IsWhitespace(v[0]);
  }

  /** The pattern runs on the value as typed, not on its trim. */
  lemma PhoneWithLeadingSpaceRejected()
    ensures ValidateField(Phone, " 5551234567") == PhoneInvalid
  {
    var v := " 5551234567";
    PhoneRule(v);
    assert !IsWhitespace(v[1]);
    assert !IsAsciiDigit(v[0]);
  }

  lemma TenDigitPhoneAccepted()
    ensures ValidateField(Phone, "5551234567") == ""
  {
    var v := "5551234567";
    assert PhonePattern(v);
    PhoneRule(v);
  }

  /** 300 characters are accepted, 301 are not. */
  lemma MessageLengthBoundary()
    ensures ValidateField(Message, seq(300, _ => 'x')) == ""
    ensures ValidateField(Message, seq(301, _ => 'x')) == MessageTooLong
  {
    MessageRuleInCharacters(seq(300, _ => 'x'));
    MessageRuleInCharacters(seq(301, _ => 'x'));
  }
}
