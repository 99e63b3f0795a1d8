/** The field checks shared by the create-member form, the edit-member form and the login
    form: a recogniser for each of the three regular expressions, proved equal to the
    regular expression read as a concatenation of its parts, and the required-then-format
    rule that turns a field value into an error message. */
module Validators {
  import opened Text
  import opened Records

  datatype Field = FullName | CardNumber | Phone | Email

  /** The messages the member forms show under a field. */
  datatype Message =
    | NameRequired | CardRequired | CardBadFormat | CardInUse | CardRegistered
    | PhoneRequired | PhoneBadFormat | PhoneUnverified | EmailRequired | EmailBadFormat
  {
    function Text(): string {
      match this
      case NameRequired => "Full name is required"
      case CardRequired => "Card number is required"
      case CardBadFormat => "Card number must be exactly 4 digits"
      case CardInUse => "This card number is already in use"
      case CardRegistered => "This card number is already registered"
      case PhoneRequired => "Phone number is required"
      case PhoneBadFormat => "Please enter a valid Indian phone number"
      case PhoneUnverified => "Phone number must be verified"
      case EmailRequired => "Email is required"
      case EmailBadFormat => "Please enter a valid email address"
    }
  }

  type Errors = map<Field, Message>

  // ------------------------------------------------------- /^\d{4}$/

  predicate CardFormat(s: string) {
    |s| == 4 && AllDigits(s)
  }

  // ------------------------------- /^(\+91[\-\s]?)?[0]?(91)?[6789]\d{9}$/

  predicate IsSep(c: char) {
    c == '-' || IsWs(c)
  }

  /** `[6789]\d{9}`: a ten-digit mobile number. */
  predicate IsMobile(m: string) {
    |m| == 10 && '6' <= m[0] <= '9' && AllDigits(m)
  }

  /** `(\+91[\-\s]?)?` */
  predicate CountryCodePart(p: string) {
    p == "" || p == "+91" || (|p| == 4 && p[..3] == "+91" && IsSep(p[3]))
  }

  /** `[0]?` */
  predicate TrunkZeroPart(p: string) {
    p == "" || p == "0"
  }

  /** `(91)?` */
  predicate NinetyOnePart(p: string) {
    p == "" || p == "91"
  }

  /** `s` splits at a <= b <= c into the four parts of the phone pattern. */
  predicate PhoneSplit(s: string, a: int, b: int, c: int) {
    0 <= a <= b <= c <= |s|
    && CountryCodePart(s[..a]) && TrunkZeroPart(s[a..b]) && NinetyOnePart(s[b..c]) && IsMobile(s[c..])
  }

  /** The phone pattern, read as a regular expression: some split of `s` matches. */
  ghost predicate PhoneRegex(s: string) {
    exists a, b, c :: PhoneSplit(s, a, b, c)
  }

  /** How many characters the greedy reading of `(\+91[\-\s]?)?` consumes. */
  function CountryCodeLength(s: string): (n: nat)
    ensures n <= |s| && CountryCodePart(s[..n])
  {
    if |s| >= 3 && s[..3] == "+91" then
      (if |s| >= 4 && IsSep(s[3]) then (assert s[..4][..3] == s[..3]; 4) else 3)
    else 0
  }

  /** How many characters the greedy reading of `[0]?` consumes after the country code. */
  function TrunkZeroEnd(s: string): (n: nat)
    ensures CountryCodeLength(s) <= n <= |s| && TrunkZeroPart(s[CountryCodeLength(s)..n])
  {
    var a := CountryCodeLength(s);
    if a < |s| && s[a] == '0' then (assert s[a..a + 1] == [s[a]]; a + 1) else a
  }

  /** The recogniser. `+91`, its separator and `0` are taken greedily; `91` cannot be,
      because "9123456789" is a mobile number on its own, so both choices are tried. */
  predicate PhoneFormat(s: string) {
    var r := s[TrunkZeroEnd(s)..];
    IsMobile(r) || (|r| >= 2 && r[..2] == "91" && IsMobile(r[2..]))
  }

  /** After the optional parts, the next character is '0' or a digit from 6 to 9,
      never '+' or a separator. */
  lemma {:induction false} PhoneSplitNext(s: string, a: int, b: int, c: int)
    requires PhoneSplit(s, a, b, c)
    ensures a < |s| && (s[a] == '0' || '6' <= s[a] <= '9')
    ensures b < |s| && '6' <= s[b] <= '9'
  {
    assert s[c..][0] == s[c];
    if c > b {
      assert s[b..c][0] == s[b];
    }
    if b > a {
      assert s[a..b][0] == s[a];
    }
  }

  /** Any matching split takes the country code and the trunk zero exactly as the greedy
      reading does. */
  lemma {:induction false} PhoneSplitIsGreedy(s: string, a: int, b: int, c: int)
    requires PhoneSplit(s, a, b, c)
    ensures a == CountryCodeLength(s) && b == TrunkZeroEnd(s)
  {
    PhoneSplitNext(s, a, b, c);
    assert s[a] != '+' && !IsSep(s[a]);
    if a == 0 {
      assert |s| >= 3 ==> s[..3][0] == s[0];
    } else if a == 3 {
      assert s[..a][..3] == s[..3];
    } else {
      assert |s[..a]| == 4 && s[..a][..3] == s[..3] && s[..a][3] == s[3];
    }
    if b == a + 1 {
      assert s[a..b][0] == s[a];
    }
  }

  lemma {:induction false} PhoneFormatToRegex(s: string)
    requires PhoneFormat(s)
    ensures PhoneRegex(s)
  {
    var a, b := CountryCodeLength(s), TrunkZeroEnd(s);
    if IsMobile(s[b..]) {
      assert PhoneSplit(s, a, b, b);
    } else {
      assert s[b..][..2] == s[b..b + 2] && s[b..][2..] == s[b + 2..];
      assert PhoneSplit(s, a, b, b + 2);
    }
  }

  lemma {:induction false} PhoneRegexToFormat(s: string)
    requires PhoneRegex(s)
    ensures PhoneFormat(s)
  {
    var a, b, c :| PhoneSplit(s, a, b, c);
    PhoneSplitIsGreedy(s, a, b, c);
    var r := s[b..];
    if s[b..c] == "" {
      assert r == s[c..];
    } else {
      assert s[b..c] == "91";
      assert r[..2] == s[b..c] && r[2..] == s[c..];
    }
  }

  /** The recogniser accepts exactly the strings the pattern matches. */
  lemma PhoneFormatIsRegex(s: string)
    ensures PhoneFormat(s) <==> PhoneRegex(s)
  {
    if PhoneFormat(s) {
      PhoneFormatToRegex(s);
    }
    if PhoneRegex(s) {
      PhoneRegexToFormat(s);
    }
  }

  // ------------------------------------------------ /^[^\s@]+@[^\s@]+\.[^\s@]+$/

  /** `[^\s@]` */
  predicate Plain(c: char) {
    !IsWs(c) && c != '@'
  }

  predicate AllPlain(s: string) {
    forall i :: 0 <= i < |s| ==> Plain(s[i])
  }

  /** `s` is `local @ domain-head . domain-tail` with the '@' at i and the '.' at j. */
  predicate EmailSplit(s: string, i: int, j: int) {
    0 < i && i + 1 < j && j + 1 < |s| && s[i] == '@' && s[j] == '.'
    && AllPlain(s[..i]) && AllPlain(s[i + 1..j]) && AllPlain(s[j + 1..])
  }

  /** The email pattern, read as a regular expression. */
  ghost predicate EmailRegex(s: string) {
    exists i, j :: EmailSplit(s, i, j)
  }

  /** The position of the first '@'. */
  function FirstAt(s: string): (r: Option<nat>)
    ensures r.Some? ==> r.value < |s| && s[r.value] == '@'
    ensures r.Some? ==> forall p :: 0 <= p < r.value ==> s[p] != '@'
    ensures r.None? ==> forall p :: 0 <= p < |s| ==> s[p] != '@'
  {
    if s == [] then None
    else if s[0] == '@' then Some(0)
    else match FirstAt(s[1..])
         case None => None
         case Some(k) => Some(k + 1)
  }

  /** The domain has no whitespace and no '@', and a '.' that is neither its first nor its
      last character. */
  predicate DomainFormat(d: string) {
    AllPlain(d) && 3 <= |d| && '.' in d[1..|d| - 1]
  }

  /** The recogniser: a non-empty local part up to the first '@', then a domain. */
  predicate EmailFormat(s: string) {
    match FirstAt(s)
    case None => false
    case Some(k) => 0 < k && AllPlain(s[..k]) && DomainFormat(s[k + 1..])
  }

  lemma {:induction false} EmailFormatIsRegex(s: string)
    ensures EmailFormat(s) <==> EmailRegex(s)
  {
    if EmailFormat(s) {
      var k := FirstAt(s).value;
      var d := s[k + 1..];
      var q :| 0 <= q < |d[1..|d| - 1]| && d[1..|d| - 1][q] == '.';
      var j := k + 2 + q;
      assert s[j] == '.';
      assert s[k + 1..j] == d[..q + 1] && s[j + 1..] == d[q + 2..];
      assert EmailSplit(s, k, j);
    }
    if EmailRegex(s) {
      var i, j :| EmailSplit(s, i, j);
      assert forall p :: 0 <= p < i ==> s[p] != '@' by {
        forall p | 0 <= p < i ensures s[p] != '@' {
          assert s[..i][p] == s[p];
        }
      }
      assert FirstAt(s) == Some(i);
      var d := s[i + 1..];
      assert AllPlain(d) by {
        forall p | 0 <= p < |d| ensures Plain(d[p]) {
          if i + 1 + p < j {
            assert d[p] == s[i + 1..j][p];
          } else if i + 1 + p > j {
            assert d[p] == s[j + 1..][p - (j - i)];
          }
        }
      }
      assert d[1..|d| - 1][j - i - 2] == '.';
    }
  }

  // ------------------------------------------------- required, then format

  // The source tests `!value.trim()`; Text.BlankIffAllWs shows that this holds exactly when
  // every character is whitespace, which is the form the checks below are written in.

  function FullNameError(s: string): (r: Option<Message>)
    ensures r.Some? <==> AllWs(s)
    ensures r.Some? ==> r.value == NameRequired
  {
    if AllWs(s) then Some(NameRequired) else None
  }

  /** The format test runs on the untrimmed value, so " 123" fails on format. */
  function CardNumberError(s: string): (r: Option<Message>)
    ensures r == Some(CardRequired) <==> AllWs(s)
    ensures r == Some(CardBadFormat) <==> !AllWs(s) && !CardFormat(s)
    ensures r.None? <==> CardFormat(s)
  {
    assert CardFormat(s) ==> !IsWs(s[0]);
    if AllWs(s) then Some(CardRequired)
    else if !CardFormat(s) then Some(CardBadFormat)
    else None
  }

  function PhoneError(s: string): (r: Option<Message>)
    ensures r == Some(PhoneRequired) <==> AllWs(s)
    ensures r == Some(PhoneBadFormat) <==> !AllWs(s) && !PhoneRegex(s)
    ensures r.None? <==> PhoneRegex(s)
  {
    PhoneFormatIsRegex(s);
    PhoneNotBlank(s);
    if AllWs(s) then Some(PhoneRequired)
    else if !PhoneFormat(s) then Some(PhoneBadFormat)
    else None
  }

  function EmailError(s: string): (r: Option<Message>)
    ensures r == Some(EmailRequired) <==> AllWs(s)
    ensures r == Some(EmailBadFormat) <==> !AllWs(s) && !EmailRegex(s)
    ensures r.None? <==> EmailRegex(s)
  {
    EmailFormatIsRegex(s);
    EmailNotBlank(s);
    if AllWs(s) then Some(EmailRequired)
    else if !EmailFormat(s) then Some(EmailBadFormat)
    else None
  }

  /** Each "required" message appears exactly when `!value.trim()` holds. */
  lemma RequiredIffBlank(s: string)
    ensures FullNameError(s).Some? <==> Blank(s)
    ensures CardNumberError(s) == Some(CardRequired) <==> Blank(s)
    ensures PhoneError(s) == Some(PhoneRequired) <==> Blank(s)
    ensures EmailError(s) == Some(EmailRequired) <==> Blank(s)
  {
    BlankIffAllWs(s);
  }

  lemma PhoneNotBlank(s: string)
    ensures PhoneRegex(s) ==> !AllWs(s)
  {
    if PhoneRegex(s) {
      var a, b, c :| PhoneSplit(s, a, b, c);
      PhoneSplitNext(s, a, b, c);
    }
  }

  lemma EmailNotBlank(s: string)
    ensures EmailRegex(s) ==> !AllWs(s)
  {
    if EmailRegex(s) {
      var i, j :| EmailSplit(s, i, j);
      assert s[..i][0] == s[0];
    }
  }

  function FieldError(form: MemberForm, f: Field): Option<Message> {
    match f
    case FullName => FullNameError(form.full_name)
    case CardNumber => CardNumberError(form.card_number)
    case Phone => PhoneError(form.phone)
    case Email => EmailError(form.email)
  }

  /** All four fields pass their checks. */
  ghost predicate FormValid(form: MemberForm) {
    !AllWs(form.full_name) && CardFormat(form.card_number)
    && PhoneRegex(form.phone) && EmailRegex(form.email)
  }

  /** `{ ...form, [field]: value }`. */
  function SetField(form: MemberForm, f: Field, value: string): (r: MemberForm)
    ensures FieldValue(r, f) == value
    ensures forall g :: g != f ==> FieldValue(r, g) == FieldValue(form, g)
  {
    match f
    case FullName => form.(full_name := value)
    case CardNumber => form.(card_number := value)
    case Phone => form.(phone := value)
    case Email => form.(email := value)
  }

  function FieldValue(form: MemberForm, f: Field): string {
    match f
    case FullName => form.full_name
    case CardNumber => form.card_number
    case Phone => form.phone
    case Email => form.email
  }

  /** A form is valid exactly when none of the four checks reports an error. */
  lemma FormValidIffNoError(form: MemberForm)
    ensures FormValid(form) <==> (forall f :: FieldError(form, f).None?)
  {
    assert FieldError(form, FullName).None? <==> !AllWs(form.full_name);
    assert FieldError(form, CardNumber).None? <==> CardFormat(form.card_number);
    assert FieldError(form, Phone).None? <==> PhoneRegex(form.phone);
    assert FieldError(form, Email).None? <==> EmailRegex(form.email);
    assert (forall f :: FieldError(form, f).None?) <==>
      (FieldError(form, FullName).None? && FieldError(form, CardNumber).None?
       && FieldError(form, Phone).None? && FieldError(form, Email).None?);
  }

  /** The error map records field `f` exactly when its check reported `e`. */
  predicate Recorded(errors: Errors, f: Field, e: Option<Message>) {
    (f in errors <==> e.Some?) && (f in errors ==> errors[f] == e.value)
  }

  /** The four field checks that `validateForm` runs in the create and edit forms. */
  method CheckFields(form: MemberForm) returns (errors: Errors, isValid: bool)
    ensures forall f :: f in errors <==> FieldError(form, f).Some?
    ensures forall f :: f in errors ==> errors[f] == FieldError(form, f).value
    ensures isValid <==> errors == map[]
    ensures isValid <==> FormValid(form)
  {
    errors, isValid := Collect(FieldError(form, FullName), FieldError(form, CardNumber),
      FieldError(form, Phone), FieldError(form, Email));
    assert forall f :: Recorded(errors, f, FieldError(form, f));
    FormValidIffNoError(form);
  }

  /** The body of `validateForm`: each failed check writes its message into the error map
      and clears `isValid`. */
  method Collect(name: Option<Message>, card: Option<Message>, phone: Option<Message>, email: Option<Message>)
    returns (errors: Errors, isValid: bool)
    ensures Recorded(errors, FullName, name) && Recorded(errors, CardNumber, card)
    ensures Recorded(errors, Phone, phone) && Recorded(errors, Email, email)
    ensures isValid <==> errors == map[]
    ensures isValid <==> name.None? && card.None? && phone.None? && email.None?
  {
    errors := map[];
    isValid := true;
    if name.Some? {
      errors := errors[FullName := name.value];
      isValid := false;
    }
    if card.Some? {
      errors := errors[CardNumber := card.value];
      isValid := false;
    }
    if phone.Some? {
      errors := errors[Phone := phone.value];
      isValid := false;
    }
    if email.Some? {
      errors := errors[Email := email.value];
      isValid := false;
    }
    assert !isValid ==> FullName in errors || CardNumber in errors || Phone in errors || Email in errors;
  }

  // ------------------------------------------------------- examples

  lemma NoCountryCode(s: string)
    requires s != [] && s[0] != '+'
    ensures CountryCodeLength(s) == 0
  {
    assert |s| >= 3 ==> s[..3][0] == s[0];
  }

  lemma PhoneAccepted()
    ensures PhoneFormat("9876543210") && PhoneFormat("+91 9876543210")
    ensures PhoneFormat("09876543210") && PhoneFormat("919876543210")
  {
    var mobile := "9876543210";
    assert IsMobile(mobile);
    NoCountryCode(mobile);
    var spaced := "+91 9876543210";
    assert spaced[..3] == "+91" && IsSep(spaced[3]) && spaced[4..] == mobile;
    var zero := "09876543210";
    NoCountryCode(zero);
    assert zero[1..] == mobile;
    var prefixed := "919876543210";
    NoCountryCode(prefixed);
    assert prefixed[..2] == "91" && prefixed[2..] == mobile;
  }

  lemma PhoneRejected()
    ensures !PhoneFormat("1234567890") && !PhoneFormat("98765432")
  {
    NoCountryCode("1234567890");
    NoCountryCode("98765432");
  }

  lemma CardExamples()
    ensures CardNumberError("1234") == None
    ensures CardNumberError(" 123") == Some(CardBadFormat)
  {
    assert !IsDigit(" 123"[0]);
    assert !IsWs(" 123"[1]);
  }

}
