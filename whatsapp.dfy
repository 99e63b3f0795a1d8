/** The phone clean-up done before a WhatsApp deep link is composed (the member list, the
    OTP dialog and the create-member page each carry a copy of it). */
module WhatsApp {
  import opened Text

  /** `phone.replace(/\D/g, '').replace(/^(\+91|91)?/, '91')`. Once the non-digits are gone the
      `\+91` branch can never match, so the second step rewrites a leading "91" to itself and
      otherwise inserts "91" in front. */
  function WhatsAppNumber(phone: string): (r: string)
    ensures AllDigits(r) && |r| >= 2 && r[..2] == "91"
    ensures r == DigitsOnly(phone) || r == "91" + DigitsOnly(phone)
    ensures r == DigitsOnly(phone) <==> |DigitsOnly(phone)| >= 2 && DigitsOnly(phone)[..2] == "91"
  {
    var d := DigitsOnly(phone);
    if |d| >= 2 && d[..2] == "91" then d else "91" + d
  }

  /** Normalising an already normalised number changes nothing. */
  lemma WhatsAppNumberIdempotent(phone: string)
    ensures WhatsAppNumber(WhatsAppNumber(phone)) == WhatsAppNumber(phone)
  {
    DigitsOnlyFixesDigits(WhatsAppNumber(phone));
  }

  /** An all-digit number that starts with a trunk zero gets "91" in front of the zero. */
  lemma TrunkZeroKept(phone: string)
    requires AllDigits(phone) && phone != [] && phone[0] == '0'
    ensures WhatsAppNumber(phone) == "91" + phone
  {
    DigitsOnlyFixesDigits(phone);
    assert |phone| >= 2 ==> phone[..2][0] == '0';
  }
}
