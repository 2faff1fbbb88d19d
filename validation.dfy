/** The rules `handleSubmit` applies to the submitted fields before anything
    is sent: a required name, a required email, and a format check on the
    email that runs whenever the email is a non-empty string. */
module Validation {
  import opened Text

  datatype Option<T> = None | Some(value: T)

  /** The form's fields by name, as `Object.fromEntries(new FormData(form))`
      builds them; a field the form does not have is absent. */
  type Fields = map<string, string>

  /** `data[key]`, which is `undefined` for a missing field. */
  function Field(data: Fields, key: string): Option<string>
  {
    if key in data then Some(data[key]) else None
  }

  /** The three validation messages, in the order the rules are checked. */
  datatype Message = NameRequired | EmailRequired | InvalidEmail

  /** The text `alert` shows for each message. */
  function MessageText(m: Message): string
  {
    match m
    case NameRequired => "Name is required"
    case EmailRequired => "Email is required"
    case InvalidEmail => "Please enter a valid email address"
  }

  /** `errors.join('\n')`: what the validation alert shows. It is empty
      exactly when there are no messages, and a single message shows its
      own text. */
  function AlertText(errors: seq<Message>): (r: string)
    ensures r == "" <==> errors == []
    ensures |errors| == 1 ==> r == MessageText(errors[0])
  {
    if errors == [] then ""
    else if |errors| == 1 then MessageText(errors[0])
    else AlertText(errors[..|errors| - 1]) + "\n" + MessageText(errors[|errors| - 1])
  }

  /** Each further message adds a line break and its own text. */
  lemma AlertTextAppend(errors: seq<Message>, m: Message)
    requires errors != []
    ensures AlertText(errors + [m]) == AlertText(errors) + "\n" + MessageText(m)
  {
    assert (errors + [m])[..|errors|] == errors;
  }

  /** The position of a message in the fixed order the rules are checked in. */
  function Rank(m: Message): nat
  {
    match m
    case NameRequired => 0
    case EmailRequired => 1
    case InvalidEmail => 2
  }

  /** `!v?.trim()`: the value is missing or trims to the empty string. */
  predicate Blank(v: Option<string>)
  {
    v.None? || Trim(v.value) == ""
  }

  /** `v` used as a condition: present and not the empty string. */
  predicate Truthy(v: Option<string>)
  {
    v.Some? && v.value != ""
  }

  /** One character of the class `[^\s@]`. */
  predicate PlainChar(c: char)
  {
    !IsWhitespace(c) && c != '@'
  }

  /** A run of `[^\s@]` characters (possibly empty). */
  predicate Plain(t: string)
  {
    forall i | 0 <= i < |t| :: PlainChar(t[i])
  }

  /** The pattern `^[^\s@]+@[^\s@]+\.[^\s@]+$`, read position by position:
      three non-empty plain runs separated by an `@` and then a `.`. */
  predicate EmailPattern(s: string)
  {
    exists at, dot | 0 < at < |s| && at + 1 < dot < |s| - 1 :: PatternSplit(s, at, dot)
  }

  /** The pattern matches with its `@` at `at` and its `.` at `dot`. */
  predicate PatternSplit(s: string, at: nat, dot: nat)
    requires 0 < at < |s| && at + 1 < dot < |s| - 1
  {
    && s[at] == '@' && s[dot] == '.'
    && Plain(s[..at]) && Plain(s[at + 1..dot]) && Plain(s[dot + 1..])
  }

  /** A domain: plain characters, with a `.` that is neither first nor last. */
  predicate ValidDomain(d: string)
  {
    Plain(d) && exists k | 0 < k < |d| - 1 :: d[k] == '.'
  }

  /** The address as `local@domain`: a non-empty plain local part, one `@`,
      and a valid domain. */
  predicate LocalAtDomain(s: string)
  {
    exists at | 0 < at < |s| :: LocalDomainSplit(s, at)
  }

  /** `s` is `local@domain` with its `@` at `at`. */
  predicate LocalDomainSplit(s: string, at: nat)
    requires 0 < at < |s|
  {
    s[at] == '@' && Plain(s[..at]) && ValidDomain(s[at + 1..])
  }

  /** A plain run contains no `@`. */
  lemma PlainHasNoAt(t: string)
    requires Plain(t)
    ensures multiset(t)['@'] == 0
  {
  }

  /** A slice of a plain run is plain. */
  lemma PlainSlice(t: string, i: nat, j: nat)
    requires Plain(t) && i <= j <= |t|
    ensures Plain(t[i..j])
  {
  }

  /** Two plain runs joined are plain. */
  lemma PlainConcat(a: string, b: string)
    requires Plain(a) && Plain(b)
    ensures Plain(a + b)
  {
  }

  /** Every address the pattern accepts has the `local@domain` form. */
  lemma PatternGivesLocalAtDomain(s: string, at: nat, dot: nat)
    requires 0 < at < |s| && at + 1 < dot < |s| - 1
    requires s[at] == '@' && s[dot] == '.'
    requires Plain(s[..at]) && Plain(s[at + 1..dot]) && Plain(s[dot + 1..])
    ensures ValidDomain(s[at + 1..])
    ensures LocalAtDomain(s)
  {
    var d := s[at + 1..];
    var k := dot - at - 1;
    assert d == s[at + 1..dot] + ['.'] + s[dot + 1..];
    assert Plain(['.']) by {
      assert PlainChar(['.'][0]);
    }
    PlainConcat(s[at + 1..dot], ['.']);
    PlainConcat(s[at + 1..dot] + ['.'], s[dot + 1..]);
    assert d[k] == '.';
    assert LocalDomainSplit(s, at);
  }

  /** Every address of the `local@domain` form matches the pattern. */
  lemma LocalAtDomainGivesPattern(s: string, at: nat)
    requires 0 < at < |s| && s[at] == '@' && Plain(s[..at]) && ValidDomain(s[at + 1..])
    ensures EmailPattern(s)
  {
    var d := s[at + 1..];
    var k :| 0 < k < |d| - 1 && d[k] == '.';
    var dot := at + 1 + k;
    assert s[at + 1..dot] == d[..k];
    assert s[dot + 1..] == d[k + 1..];
    PlainSlice(d, 0, k);
    PlainSlice(d, k + 1, |d|);
    assert d[..k] == d[0..k] && d[k + 1..] == d[k + 1..|d|];
    assert PatternSplit(s, at, dot);
  }

  /** The pattern and the `local@domain` reading accept the same strings. */
  lemma EmailPatternIsLocalAtDomain(s: string)
    ensures EmailPattern(s) <==> LocalAtDomain(s)
  {
    if EmailPattern(s) {
      var at, dot :| 0 < at < |s| && at + 1 < dot < |s| - 1 && PatternSplit(s, at, dot);
      PatternGivesLocalAtDomain(s, at, dot);
    }
    if LocalAtDomain(s) {
      var at :| 0 < at < |s| && LocalDomainSplit(s, at);
      LocalAtDomainGivesPattern(s, at);
    }
  }

  /** Around an `@` with plain runs on both sides, no other `@` exists. */
  lemma AtIsUnique(s: string, at: nat, j: nat)
    requires at < |s| && Plain(s[..at]) && Plain(s[at + 1..])
    requires j < |s| && s[j] == '@'
    ensures j == at
  {
  }

  /** An `@` with plain runs on both sides is the only `@`. */
  lemma OneAt(s: string, at: nat)
    requires at < |s| && s[at] == '@' && Plain(s[..at]) && Plain(s[at + 1..])
    ensures multiset(s)['@'] == 1
  {
    assert s == s[..at] + [s[at]] + s[at + 1..];
    PlainHasNoAt(s[..at]);
    PlainHasNoAt(s[at + 1..]);
  }

  /** An accepted address has exactly one `@`; it splits the address into a
      non-empty local part and a domain of at least three characters. */
  lemma EmailShape(s: string)
    requires EmailPattern(s)
    ensures multiset(s)['@'] == 1
    ensures forall at | 0 <= at < |s| && s[at] == '@' ::
              0 < at && |s| - at - 1 >= 3 && Plain(s[..at]) && ValidDomain(s[at + 1..])
  {
    var at, dot :| 0 < at < |s| && at + 1 < dot < |s| - 1 && PatternSplit(s, at, dot);
    PatternGivesLocalAtDomain(s, at, dot);
    OneAt(s, at);
    forall j | 0 <= j < |s| && s[j] == '@'
      ensures 0 < j && |s| - j - 1 >= 3 && Plain(s[..j]) && ValidDomain(s[j + 1..])
    {
      AtIsUnique(s, at, j);
    }
  }

  /** Examples: a domain needs a dot, the local part no space. */
  lemma EmailExamples()
    ensures EmailPattern("a@b.c")
    ensures !EmailPattern("a@b")
    ensures !EmailPattern("a b@c.d")
  {
    var s := "a@b.c";
    assert Plain(s[..1]) && Plain(s[2..3]) && Plain(s[4..]);
    assert PatternSplit(s, 1, 3);
    var t := "a b@c.d";
    forall at | 0 < at < |t| && t[at] == '@' ensures !Plain(t[..at]) {
      assert t[..at][1] == ' ';
    }
  }

  /** A whitespace-only string never matches: it has no `@`. */
  lemma BlankEmailDoesNotMatch(s: string)
    requires AllWhitespace(s)
    ensures !EmailPattern(s)
  {
  }

  /** The messages `handleSubmit` collects, in the order it pushes them. Each
      message is present exactly when its rule is broken, and they appear in
      the fixed order name, email, format. */
  function Errors(data: Fields): (r: seq<Message>)
    ensures NameRequired in r <==> Blank(Field(data, "name"))
    ensures EmailRequired in r <==> Blank(Field(data, "email"))
    ensures InvalidEmail in r <==>
              Truthy(Field(data, "email")) && !EmailPattern(Field(data, "email").value)
    ensures forall i, j | 0 <= i < j < |r| :: Rank(r[i]) < Rank(r[j])
  {
    var name := Field(data, "name");
    var email := Field(data, "email");
    var first := if Blank(name) then [NameRequired] else [];
    var second := if Blank(email) then [EmailRequired] else [];
    var third := if Truthy(email) && !EmailPattern(email.value) then [InvalidEmail] else [];
    first + second + third
  }

  /** The form passes exactly when the name is not blank and the email is
      present and matches the pattern. */
  lemma NoErrorsIffValid(data: Fields)
    ensures Errors(data) == [] <==>
              !Blank(Field(data, "name")) && Field(data, "email").Some?
              && EmailPattern(Field(data, "email").value)
  {
  }

  /** An address that matches the pattern is not blank. */
  lemma EmailNotBlank(s: string)
    requires EmailPattern(s)
    ensures s != "" && Trim(s) != ""
  {
  }

  /** The email rules by case: a missing or empty email gets only "Email is
      required", a whitespace-only one gets that and the format error, a
      non-blank malformed one only the format error, a valid one neither. */
  lemma EmailErrorCases(data: Fields)
    ensures var email := Field(data, "email");
            var r := Errors(data);
            && (!Truthy(email) ==> EmailRequired in r && InvalidEmail !in r)
            && (Truthy(email) && AllWhitespace(email.value) ==>
                  EmailRequired in r && InvalidEmail in r)
            && (!Blank(email) && !EmailPattern(email.value) ==>
                  EmailRequired !in r && InvalidEmail in r)
            && (email.Some? && EmailPattern(email.value) ==>
                  EmailRequired !in r && InvalidEmail !in r)
  {
    var email := Field(data, "email");
    if email.Some? {
      TrimIsSlice(email.value);
      if AllWhitespace(email.value) {
        BlankEmailDoesNotMatch(email.value);
      }
      if EmailPattern(email.value) {
        EmailNotBlank(email.value);
      }
    }
  }

  /** An empty name with an empty or missing email gives exactly the first
      two messages, in order. */
  lemma EmptyNameAndEmail(data: Fields)
    requires Field(data, "name") in {None, Some("")}
    requires Field(data, "email") in {None, Some("")}
    ensures Errors(data) == [NameRequired, EmailRequired]
    ensures AlertText(Errors(data)) == "Name is required\nEmail is required"
  {
    assert Errors(data) == [NameRequired, EmailRequired];
    AlertTextAppend([NameRequired], EmailRequired);
    assert [NameRequired] + [EmailRequired] == [NameRequired, EmailRequired];
  }

  /** `handleSubmit`'s validation step: starts from an empty list and pushes
      one message per broken rule. */
  method CollectErrors(data: Fields) returns (errors: seq<Message>)
    ensures errors == Errors(data)
  {
    errors := [];
    var name := Field(data, "name");
    var email := Field(data, "email");
    if Blank(name) {
      errors := errors + [NameRequired];
    }
    if Blank(email) {
      errors := errors + [EmailRequired];
    }
    if Truthy(email) && !EmailPattern(email.value) {
      errors := errors + [InvalidEmail];
    }
  }
}
