/**
 * The request checks of the user controller: the registration fields
 * (name, email, password), the name of a profile update and the guard on an
 * uploaded profile image. All of them are pure predicates over the request.
 * A field missing from the request body is `None`; JavaScript treats the
 * empty string as missing too (`!name`).
 */
module Validation {
  import opened Wrappers
  import opened JsStrings

  datatype Field = NameField | EmailField | PasswordField

  /** What is wrong with a field; each pairs with one of the messages below. */
  datatype Problem = Missing | TooShort | BadFormat

  datatype FieldError = FieldError(field: Field, problem: Problem)

  /** Position of a field in the error list: name, then email, then password. */
  function Rank(f: Field): nat {
    match f
    case NameField => 0
    case EmailField => 1
    case PasswordField => 2
  }

  /** The message the response carries for each error. */
  function Message(e: FieldError): string {
    match (e.field, e.problem)
    case (NameField, Missing) => "이름을 입력해주세요."
    case (NameField, _) => "이름은 2자 이상이어야 합니다."
    case (EmailField, Missing) => "이메일을 입력해주세요."
    case (EmailField, _) => "올바른 이메일 형식이 아닙니다."
    case (PasswordField, Missing) => "비밀번호를 입력해주세요."
    case (PasswordField, _) => "비밀번호는 6자 이상이어야 합니다."
  }

  const MinNameLength: nat := 2
  const MinPasswordLength: nat := 6

  /** JavaScript falsiness of an optional string field. */
  predicate Absent(v: Option<string>) {
    v.None? || v.value == []
  }

  // ---------------------------------------------------------------- name

  /** Blank after trimming is "required"; otherwise the UNTRIMMED length
      (in UTF-16 units) decides "too short". */
  function NameProblem(name: Option<string>): (p: Option<Problem>)
    ensures p == Some(Missing) <==> name.None? || AllWhitespace(name.value)
    ensures p == Some(TooShort) <==>
      name.Some? && !AllWhitespace(name.value) && Utf16Length(name.value) < MinNameLength
    ensures p.None? <==>
      name.Some? && !AllWhitespace(name.value) && Utf16Length(name.value) >= MinNameLength
    ensures p != Some(BadFormat)
  {
    if Absent(name) then Some(Missing)
    else
      BlankIffAllWhitespace(name.value);
      if IsBlank(name.value) then Some(Missing)
      else if Utf16Length(name.value) < MinNameLength then Some(TooShort)
      else None
  }

  // ---------------------------------------------------------------- email

  predicate IsAddressChar(c: char) {
    !IsWhitespace(c) && c != '@'
  }

  predicate AllAddressChars(s: string) {
    forall i | 0 <= i < |s| :: IsAddressChar(s[i])
  }

  /** The regular expression `^[^\s@]+@[^\s@]+\.[^\s@]+$`: three non-empty
      runs of characters that are neither whitespace nor `@`, the first two
      separated by `@`, the last two by `.`. */
  ghost predicate MatchesEmailRegex(s: string) {
    exists at, dot :: EmailSplitAt(s, at, dot)
  }

  /** The match with the `@` at index `at` and the `.` at index `dot`. */
  predicate EmailSplitAt(s: string, at: int, dot: int) {
    && 0 < at && at + 1 < dot && dot + 1 < |s|
    && s[at] == '@' && s[dot] == '.'
    && AllAddressChars(s[..at])
    && AllAddressChars(s[at + 1..dot])
    && AllAddressChars(s[dot + 1..])
  }

  /** Index of the first `c` in `s`, or `|s|` when there is none. */
  function IndexOf(s: string, c: char): (k: nat)
    ensures k <= |s|
    ensures k < |s| ==> s[k] == c
    ensures forall i | 0 <= i < k :: s[i] != c
  {
    if s == [] then 0
    else if s[0] == c then 0
    else 1 + IndexOf(s[1..], c)
  }

  /** A `.` that is neither the first nor the last character. */
  predicate HasInnerDot(d: string) {
    exists j | 0 < j < |d| - 1 :: d[j] == '.'
  }

  /** The email check decided directly: no whitespace, exactly one `@`, a
      non-empty part before it, and a part after it holding an inner `.`. */
  predicate IsValidEmail(s: string) {
    && (forall i | 0 <= i < |s| :: !IsWhitespace(s[i]))
    && multiset(s)['@'] == 1
    && var at := IndexOf(s, '@');
       0 < at && HasInnerDot(s[at + 1..])
  }

  /** Every character of a slice of a string passes the test its characters pass. */
  lemma SliceAddressChars(s: string, lo: nat, hi: nat)
    requires lo <= hi <= |s|
    requires forall i | lo <= i < hi :: IsAddressChar(s[i])
    ensures AllAddressChars(s[lo..hi])
  {
    var b := s[lo..hi];
    forall i | 0 <= i < |b| ensures IsAddressChar(b[i]) {
      assert b[i] == s[lo + i];
    }
  }

  /** What the direct check accepts, the regular expression matches. */
  lemma {:induction false} EmailCheckSound(s: string)
    requires IsValidEmail(s)
    ensures MatchesEmailRegex(s)
  {
    var at := IndexOf(s, '@');
    var d := s[at + 1..];
    var j :| 0 < j < |d| - 1 && d[j] == '.';
    var dot := at + 1 + j;
    assert s[dot] == d[j];
    OnlyAt(s, at);
    SliceAddressChars(s, 0, at);
    SliceAddressChars(s, at + 1, dot);
    SliceAddressChars(s, dot + 1, |s|);
    assert EmailSplitAt(s, at, dot);
  }

  /** With a single `@` in `s`, none follows its first occurrence. */
  lemma OnlyAt(s: string, at: nat)
    requires at < |s| && s[at] == '@' && multiset(s)['@'] == 1
    ensures forall i | at < i < |s| :: s[i] != '@'
  {
    var d := s[at + 1..];
    assert s == s[..at + 1] + d;
    assert multiset(s[..at + 1])['@'] >= 1 by { assert s[..at + 1][at] == '@'; }
    assert multiset(d)['@'] == 0;
    forall i | at < i < |s| ensures s[i] != '@' {
      assert s[i] == d[i - at - 1];
    }
  }

  /** Characters of `s` lying in a slice of address characters are address characters. */
  lemma FromSlice(s: string, lo: nat, hi: nat)
    requires lo <= hi <= |s| && AllAddressChars(s[lo..hi])
    ensures forall i | lo <= i < hi :: IsAddressChar(s[i])
  {
    forall i | lo <= i < hi ensures IsAddressChar(s[i]) {
      assert s[i] == s[lo..hi][i - lo];
    }
  }

  /** A character that occurs at exactly one index occurs once in the multiset. */
  lemma OccursOnce(s: string, k: nat, c: char)
    requires k < |s| && s[k] == c
    requires forall i | 0 <= i < |s| && i != k :: s[i] != c
    ensures multiset(s)[c] == 1
  {
    var x, y := s[..k], s[k + 1..];
    assert s == x + [c] + y;
    assert c !in x;
    assert c !in y;
  }

  /** What the regular expression matches, the direct check accepts. */
  lemma {:induction false} EmailCheckComplete(s: string)
    requires MatchesEmailRegex(s)
    ensures IsValidEmail(s)
  {
    var at, dot :| EmailSplitAt(s, at, dot);
    FromSlice(s, 0, at);
    FromSlice(s, at + 1, dot);
    FromSlice(s, dot + 1, |s|);
    assert forall i | 0 <= i < |s| && i != at && i != dot :: IsAddressChar(s[i]);
    assert forall i | 0 <= i < |s| :: !IsWhitespace(s[i]);
    OccursOnce(s, at, '@');
    var k := IndexOf(s, '@');
    assert k == at;
    var d := s[at + 1..];
    assert d[dot - at - 1] == '.';
    assert HasInnerDot(d);
  }

  /** The direct check and the regular expression accept the same strings. */
  lemma EmailCheckIsRegex(s: string)
    ensures IsValidEmail(s) <==> MatchesEmailRegex(s)
  {
    if IsValidEmail(s) { EmailCheckSound(s); }
    if MatchesEmailRegex(s) { EmailCheckComplete(s); }
  }

  /** An empty or missing email is "required"; otherwise the regular
      expression decides. */
  function EmailProblem(email: Option<string>): (p: Option<Problem>)
    ensures p == Some(Missing) <==> Absent(email)
    ensures p == Some(BadFormat) <==> !Absent(email) && !MatchesEmailRegex(email.value)
    ensures p != Some(TooShort)
  {
    if Absent(email) then Some(Missing)
    else
      EmailCheckIsRegex(email.value);
      if !IsValidEmail(email.value) then Some(BadFormat) else None
  }

  // ---------------------------------------------------------------- password

  function PasswordProblem(password: Option<string>): (p: Option<Problem>)
    ensures p == Some(Missing) <==> Absent(password)
    ensures p == Some(TooShort) <==>
      !Absent(password) && Utf16Length(password.value) < MinPasswordLength
    ensures p != Some(BadFormat)
  {
    if Absent(password) then Some(Missing)
    else if Utf16Length(password.value) < MinPasswordLength then Some(TooShort)
    else None
  }

  // ---------------------------------------------------------------- registration

  /** The problem, if any, of one registration field. */
  function FieldProblem(f: Field, name: Option<string>, email: Option<string>, password: Option<string>):
    Option<Problem>
  {
    match f
    case NameField => NameProblem(name)
    case EmailField => EmailProblem(email)
    case PasswordField => PasswordProblem(password)
  }

  function ErrorsFor(f: Field, p: Option<Problem>): seq<FieldError> {
    if p.Some? then [FieldError(f, p.value)] else []
  }

  /** Of three per-field outcomes, the one for field `f`. */
  function Pick(f: Field, n: Option<Problem>, e: Option<Problem>, p: Option<Problem>): Option<Problem> {
    match f
    case NameField => n
    case EmailField => e
    case PasswordField => p
  }

  /** The errors of the three fields, pushed in the order name, email, password. */
  function Collect(n: Option<Problem>, e: Option<Problem>, p: Option<Problem>): (errs: seq<FieldError>)
    ensures |errs| <= 3
    ensures forall i, j | 0 <= i < j < |errs| :: Rank(errs[i].field) < Rank(errs[j].field)
    ensures forall f: Field ::
      (Pick(f, n, e, p).Some? <==> exists i | 0 <= i < |errs| :: errs[i].field == f)
    ensures forall i | 0 <= i < |errs| :: Pick(errs[i].field, n, e, p) == Some(errs[i].problem)
  {
    var errs := ErrorsFor(NameField, n) + ErrorsFor(EmailField, e) + ErrorsFor(PasswordField, p);
    forall f: Field | Pick(f, n, e, p).Some?
      ensures exists i | 0 <= i < |errs| :: errs[i].field == f
    {
      var k := (if n.Some? && Rank(f) > 0 then 1 else 0) + (if e.Some? && Rank(f) > 1 then 1 else 0);
      assert errs[k].field == f;
    }
    errs
  }

  /** The `validationErrors` list of registration, collected for all fields. */
  function RegistrationErrors(name: Option<string>, email: Option<string>, password: Option<string>):
    (errs: seq<FieldError>)
    // fields appear in the fixed order, each at most once
    ensures |errs| <= 3
    ensures forall i, j | 0 <= i < j < |errs| :: Rank(errs[i].field) < Rank(errs[j].field)
    // every violated field is reported, with its own problem, and nothing else is
    ensures forall f: Field ::
      (FieldProblem(f, name, email, password).Some? <==> exists i | 0 <= i < |errs| :: errs[i].field == f)
    ensures forall i | 0 <= i < |errs| ::
      FieldProblem(errs[i].field, name, email, password) == Some(errs[i].problem)
    ensures errs == [] ==> name.Some? && email.Some? && password.Some?
  {
    var n, e, p := NameProblem(name), EmailProblem(email), PasswordProblem(password);
    assert forall f: Field :: FieldProblem(f, name, email, password) == Pick(f, n, e, p);
    var errs := Collect(n, e, p);
    assert errs == [] ==> n.None? && e.None? && p.None? by {
      if errs == [] {
        assert Pick(NameField, n, e, p) == n;
        assert Pick(EmailField, n, e, p) == e;
        assert Pick(PasswordField, n, e, p) == p;
      }
    }
    errs
  }

  /** The worked example of a short name and a malformed email. */
  lemma ShortNameAndBadEmail()
    ensures RegistrationErrors(Some("A"), Some("bad-email"), Some("secret"))
         == [FieldError(NameField, TooShort), FieldError(EmailField, BadFormat)]
  {
    OneCharNameTooShort('A');
    assert ['A'] == "A";
    NoAtNoEmail("bad-email");
    LongPasswordPasses("secret");
    NameAndEmailErrors("A", "bad-email", "secret");
  }

  /** A short name and a malformed email, with a good password, give exactly two errors. */
  lemma NameAndEmailErrors(name: string, email: string, password: string)
    requires NameProblem(Some(name)) == Some(TooShort)
    requires EmailProblem(Some(email)) == Some(BadFormat)
    requires PasswordProblem(Some(password)) == None
    ensures RegistrationErrors(Some(name), Some(email), Some(password))
         == [FieldError(NameField, TooShort), FieldError(EmailField, BadFormat)]
  {
    assert Collect(Some(TooShort), Some(BadFormat), None)
        == [FieldError(NameField, TooShort), FieldError(EmailField, BadFormat)];
  }

  lemma OneCharNameTooShort(c: char)
    requires !IsWhitespace(c) && c as int <= 0xFFFF
    ensures NameProblem(Some([c])) == Some(TooShort)
  {
    assert !IsWhitespace([c][0]);
  }

  lemma NoAtNoEmail(s: string)
    requires s != [] && '@' !in s
    ensures EmailProblem(Some(s)) == Some(BadFormat)
  {
    assert multiset(s)['@'] == 0;
  }

  /** A password of six or more characters is long enough, whatever its characters. */
  lemma LongPasswordPasses(s: string)
    requires |s| >= MinPasswordLength
    ensures PasswordProblem(Some(s)) == None
  {
  }

  /** `" a"` is not blank and is two units long, so it passes the name check. */
  lemma PaddedNamePasses()
    ensures NameProblem(Some(" a")) == None
  {
    assert !IsWhitespace(" a"[1]);
  }

  // ---------------------------------------------------------------- profile update

  /** The one check of a profile update: a present name that is not blank. */
  function UpdateNameProblem(name: Option<string>): (p: Option<Problem>)
    ensures p.None? <==> name.Some? && !AllWhitespace(name.value)
    ensures p.Some? ==> p == Some(Missing)
  {
    if Absent(name) then Some(Missing)
    else
      BlankIffAllWhitespace(name.value);
      if IsBlank(name.value) then Some(Missing) else None
  }

  // ---------------------------------------------------------------- image upload

  /** What the upload middleware hands the controller: the original file
      name, the declared MIME type and the bytes held in memory (whose count
      is the file's `size`). */
  datatype UploadedFile = UploadedFile(originalName: string, mimeType: string, buffer: seq<bv8>) {
    function Size(): nat { |buffer| }
  }

  datatype UploadProblem = NoFile | TooLarge | NotAnImage

  const MaxImageBytes: nat := 5 * 1024 * 1024

  /** The upload guard, checked in order: a file at all, at most 5 MiB, a MIME
      type starting with `image/`. */
  function UploadProblemOf(file: Option<UploadedFile>): (p: Option<UploadProblem>)
    ensures p.None? <==>
      file.Some? && file.value.Size() <= 5_242_880 && StartsWith(file.value.mimeType, "image/")
    ensures p == Some(NoFile) <==> file.None?
    ensures p == Some(TooLarge) <==> file.Some? && file.value.Size() > 5_242_880
    ensures p == Some(NotAnImage) <==>
      file.Some? && file.value.Size() <= 5_242_880 && !StartsWith(file.value.mimeType, "image/")
  {
    if file.None? then Some(NoFile)
    else if file.value.Size() > MaxImageBytes then Some(TooLarge)
    else if !StartsWith(file.value.mimeType, "image/") then Some(NotAnImage)
    else None
  }
}
