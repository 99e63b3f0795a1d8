/** The create-member page: its form state, the phone verification gate, the random card
    generator and the submit path that inserts the new row. */
module CreateMember {
  import opened Text
  import opened Records
  import opened Validators
  import opened WhatsApp

  // ---------------------------------------------------------- card codes

  /** `Math.floor(1000 + Math.random() * 9000)` for the draw `u`. */
  function CardCode(u: real): (n: nat)
    requires Draw(u)
    ensures 1000 <= n <= 9999
  {
    (1000.0 + u * 9000.0).Floor
  }

  /** The code as text (`.toString()`): always a well-formed card number. */
  function CardText(u: real): (s: string)
    requires Draw(u)
    ensures CardFormat(s) && CardNumberError(s) == None
    ensures DigitsValue(s) == CardCode(u)
  {
    var n := CardCode(u);
    assert Pow10(3) == 1000 && Pow10(4) == 10000;
    DecimalLength(n, 3);
    DecimalRoundTrip(n);
    Decimal(n)
  }

  /** `checkCardNumberExists`: false without a store client, otherwise whether the
      `maybeSingle()` lookup returned a row. */
  predicate CardExists(db: Backend?, card: string): (r: bool)
    reads db
    ensures db == null ==> !r
    ensures db != null && UniqueCards(db.members) ==> (r <==> Held(db.members, card))
  {
    if db != null && UniqueCards(db.members) then
      ReportedIffHeld(db.members, card, None);
      Reported(db.members, card, None)
    else
      db != null && Reported(db.members, card, None)
  }

  /** Every one of the first `n` draws gives a card the lookup reports. */
  predicate AllTaken(members: seq<Member>, us: seq<real>, n: nat)
    requires Draws(us) && n <= |us|
  {
    forall j :: 0 <= j < n ==> Reported(members, CardText(us[j]), None)
  }

  /** The card the do-while loop of `generateRandomCardNumber` settles on, given the draws it
      would make: the first one the lookup does not report, or none if the draws run out. */
  ghost function FirstFree(members: seq<Member>, us: seq<real>): (r: Option<string>)
    requires Draws(us)
    ensures r.None? <==> AllTaken(members, us, |us|)
    ensures r.Some? ==> exists i :: 0 <= i < |us| && AllTaken(members, us, i) && r.value == CardText(us[i])
    ensures r.Some? ==> CardFormat(r.value) && !Reported(members, r.value, None)
  {
    if us == [] then None
    else
      var card := CardText(us[0]);
      if !Reported(members, card, None) then
        assert AllTaken(members, us, 0);
        Some(card)
      else
        var r := FirstFree(members, us[1..]);
        TakenShift(members, us, |us| - 1);
        if r.Some? then
          var i :| 0 <= i < |us| - 1 && AllTaken(members, us[1..], i) && r.value == CardText(us[1..][i]);
          TakenShift(members, us, i);
          assert us[i + 1] == us[1..][i];
          r
        else r
  }

  /** Past a first draw that is taken, the draws taken are those of the rest. */
  lemma TakenShift(members: seq<Member>, us: seq<real>, n: nat)
    requires Draws(us) && n < |us| && Reported(members, CardText(us[0]), None)
    ensures AllTaken(members, us, n + 1) <==> AllTaken(members, us[1..], n)
  {
    assert forall j :: 0 < j < |us| ==> us[j] == us[1..][j - 1];
  }

  /** The do-while loop itself, over the draws it is given. */
  method DrawCardNumber(db: Backend?, us: seq<real>) returns (card: Option<string>)
    requires Draws(us)
    ensures card == FirstFree(if db == null then [] else db.members, us)
  {
    var members := if db == null then [] else db.members;
    var i := 0;
    while i < |us|
      invariant 0 <= i <= |us|
      invariant FirstFree(members, us) == FirstFree(members, us[i..])
    {
      var cardNumber := CardText(us[i]);
      var taken := CardExists(db, cardNumber);
      if !taken {
        card := Some(cardNumber);
        return;
      }
      assert us[i..][1..] == us[i + 1..];
      i := i + 1;
    }
    card := None;
  }

  // ---------------------------------------------------------- the page

  class CreateMemberPage {
    var form: MemberForm
    var errors: Errors
    var isPhoneVerified: bool
    var showOtp: bool

    constructor ()
      ensures form == MemberForm("", "", "", "") && errors == map[]
      ensures !isPhoneVerified && !showOtp
    {
      form := MemberForm("", "", "", "");
      errors := map[];
      isPhoneVerified := false;
      showOtp := false;
    }

    /** `validateForm`: the four field checks, then the phone error is overridden while the
        number has not been verified. */
    method ValidateForm() returns (isValid: bool)
      modifies this`errors
      ensures isValid <==> FormValid(form) && isPhoneVerified
      ensures isValid <==> errors == map[]
      ensures forall f :: f != Phone ==>
        (f in errors <==> FieldError(form, f).Some?) && (f in errors ==> errors[f] == FieldError(form, f).value)
      ensures !isPhoneVerified ==> Phone in errors && errors[Phone] == PhoneUnverified
      ensures isPhoneVerified ==>
        (Phone in errors <==> PhoneError(form.phone).Some?) && (Phone in errors ==> errors[Phone] == PhoneError(form.phone).value)
    {
      var newErrors, ok := CheckFields(form);
      if !isPhoneVerified {
        newErrors := newErrors[Phone := PhoneUnverified];
        assert Phone in newErrors;
        ok := false;
      }
      errors := newErrors;
      isValid := ok;
    }

    /** `handleChange`: store the value, clear that field's error, drop the verification
        when the phone changes, and flag a four-character card another row already holds. */
    method HandleChange(field: Field, value: string, db: Backend?)
      modifies this
      ensures form == SetField(old(form), field, value)
      ensures isPhoneVerified == (old(isPhoneVerified) && field != Phone)
      ensures showOtp == old(showOtp)
      ensures field == CardNumber && |value| == 4 && CardExists(db, value) ==>
        errors == old(errors)[CardNumber := CardInUse]
      ensures !(field == CardNumber && |value| == 4 && CardExists(db, value)) ==>
        errors == old(errors) - {field}
      ensures field == CardNumber && |value| == 4 && db != null && UniqueCards(db.members) ==>
        (CardNumber in errors <==> Held(db.members, value))
    {
      form := SetField(form, field, value);
      errors := errors - {field};
      if field == Phone && isPhoneVerified {
        isPhoneVerified := false;
      }
      if field == CardNumber && |value| == 4 {
        var taken := CardExists(db, value);
        if taken {
          errors := errors[CardNumber := CardInUse];
        }
      }
    }

    /** `handleVerifyPhone`: the dialog opens only for a number that passes the phone check. */
    method HandleVerifyPhone()
      modifies this`errors, this`showOtp
      ensures PhoneError(form.phone).Some? ==>
        errors == old(errors)[Phone := PhoneError(form.phone).value] && showOtp == old(showOtp)
      ensures PhoneError(form.phone).None? ==> errors == old(errors) && showOtp
      ensures showOtp && !old(showOtp) ==> PhoneRegex(form.phone)
    {
      var e := PhoneError(form.phone);
      if e.Some? {
        errors := errors[Phone := e.value];
        return;
      }
      showOtp := true;
    }

    /** `handleOTPVerified`. */
    method HandleOtpVerified()
      modifies this`errors, this`showOtp, this`isPhoneVerified
      ensures isPhoneVerified && !showOtp
      ensures errors == old(errors) - {Phone}
    {
      isPhoneVerified := true;
      showOtp := false;
      errors := errors - {Phone};
    }

    /** `generateRandomCardNumber`: a found card replaces the field and clears its error. */
    method GenerateRandomCardNumber(db: Backend?, us: seq<real>) returns (card: Option<string>)
      requires Draws(us)
      modifies this`form, this`errors
      ensures card == FirstFree(if db == null then [] else db.members, us)
      ensures card.Some? ==> form == old(form).(card_number := card.value) && errors == old(errors) - {CardNumber}
      ensures card.Some? ==> CardNumberError(form.card_number) == None && !CardExists(db, form.card_number)
      ensures card.None? ==> form == old(form) && errors == old(errors)
      ensures card.Some? && db != null && UniqueCards(db.members) ==> !Held(db.members, card.value)
    {
      card := DrawCardNumber(db, us);
      if card.Some? {
        form := form.(card_number := card.value);
        errors := errors - {CardNumber};
        assert CardFormat(card.value);
      }
    }

    /** `handleSubmit`: validate, look the card up once more, insert the form as a new row and
        hand back the number the WhatsApp link is opened for. `fault` is the insert's reply. */
    method HandleSubmit(db: Backend?, stamp: Stamp, fault: bool) returns (whatsApp: Option<string>)
      modifies this`errors, db
      ensures whatsApp.Some? <==>
        FormValid(form) && isPhoneVerified && db != null && !Reported(old(db.members), form.card_number, None) && !fault
      ensures whatsApp.Some? ==> whatsApp.value == WhatsAppNumber(form.phone)
      ensures db != null ==> db.plays == old(db.plays)
      ensures db != null ==>
        db.members == if whatsApp.Some? then old(db.members) + [NewMember(form, stamp)] else old(db.members)
      ensures db != null && UniqueCards(old(db.members)) ==> UniqueCards(db.members)
      ensures !(FormValid(form) && isPhoneVerified) ==> errors != map[]
      ensures !(FormValid(form) && isPhoneVerified) ==> forall f :: f != Phone ==>
        (f in errors <==> FieldError(form, f).Some?) && (f in errors ==> errors[f] == FieldError(form, f).value)
      ensures !isPhoneVerified ==> Phone in errors && errors[Phone] == PhoneUnverified
      ensures !FormValid(form) && isPhoneVerified ==>
        (Phone in errors <==> PhoneError(form.phone).Some?) && (Phone in errors ==> errors[Phone] == PhoneError(form.phone).value)
      ensures FormValid(form) && isPhoneVerified ==>
        errors == if db != null && Reported(old(db.members), form.card_number, None)
                  then map[CardNumber := CardInUse] else map[]
    {
      whatsApp := None;
      var ok := ValidateForm();
      if !ok {
        return;
      }
      if db == null {
        return;
      }
      var taken := CardExists(db, form.card_number);
      if taken {
        errors := errors[CardNumber := CardInUse];
        return;
      }
      var before := db.members;
      var inserted := db.InsertMember(NewMember(form, stamp), fault);
      if !inserted {
        return;
      }
      if UniqueCards(before) {
        ReportedIffHeld(before, form.card_number, None);
        AppendKeepsUnique(before, NewMember(form, stamp));
      }
      whatsApp := Some(WhatsAppNumber(form.phone));
    }
  }
}
