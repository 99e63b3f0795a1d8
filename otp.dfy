/** The phone verification dialog: a six-digit code, a five-minute countdown, the digits-only
    input box and the check of the typed code against the generated one. */
module Otp {
  import opened Text
  import opened Records

  /** `Math.floor(100000 + Math.random() * 900000)`. */
  function OtpCode(u: real): (n: nat)
    requires Draw(u)
    ensures 100000 <= n <= 999999
  {
    (100000.0 + u * 900000.0).Floor
  }

  /** The code as text: always six ASCII digits. */
  function OtpText(u: real): (s: string)
    requires Draw(u)
    ensures |s| == 6 && AllDigits(s)
    ensures DigitsValue(s) == OtpCode(u)
  {
    var n := OtpCode(u);
    assert Pow10(5) == 100000 && Pow10(6) == 1000000;
    DecimalLength(n, 5);
    DecimalRoundTrip(n);
    Decimal(n)
  }

  /** `value.replace(/\D/g, '').slice(0, 6)`, applied to each edit of the input box. */
  function Sanitize(raw: string): (r: string)
    ensures |r| <= 6 && AllDigits(r)
    ensures |r| <= |DigitsOnly(raw)| && r == DigitsOnly(raw)[..|r|]
    ensures |r| < 6 ==> r == DigitsOnly(raw)
  {
    var d := DigitsOnly(raw);
    if |d| <= 6 then d else d[..6]
  }

  /** Cleaning what is already clean changes nothing, so a pasted code survives intact. */
  lemma SanitizeIdempotent(raw: string)
    ensures Sanitize(Sanitize(raw)) == Sanitize(raw)
  {
    DigitsOnlyFixesDigits(Sanitize(raw));
  }

  lemma SanitizeKeepsCode(u: real)
    requires Draw(u)
    ensures Sanitize(OtpText(u)) == OtpText(u)
  {
    DigitsOnlyFixesDigits(OtpText(u));
  }

  // ------------------------------------------------- the countdown text

  /** `secs.toString().padStart(2, '0')` for a seconds value below 60. */
  function TwoDigits(secs: nat): (r: string)
    requires secs < 60
    ensures |r| == 2 && AllDigits(r)
  {
    if secs < 10 then ['0', DigitChar(secs)]
    else
      assert Pow10(1) == 10 && Pow10(2) == 100;
      DecimalLength(secs, 1);
      Decimal(secs)
  }

  /** `formatTime`: minutes, a colon, and the seconds padded to two digits. */
  function FormatTime(seconds: nat): (r: string)
    ensures |r| >= 4 && r[|r| - 3] == ':'
  {
    Decimal(seconds / 60) + ":" + TwoDigits(seconds % 60)
  }

  /** Reading a countdown text back: the digits before the colon are minutes, the two after
      it seconds. */
  function ParseTime(t: string): (r: Option<nat>)
    ensures r.Some? ==> |t| >= 4 && t[|t| - 3] == ':'
  {
    if |t| >= 4 && t[|t| - 3] == ':' && AllDigits(t[..|t| - 3]) && AllDigits(t[|t| - 2..])
    then Some(DigitsValue(t[..|t| - 3]) * 60 + DigitsValue(t[|t| - 2..]))
    else None
  }

  lemma TwoDigitsValue(secs: nat)
    requires secs < 60
    ensures DigitsValue(TwoDigits(secs)) == secs
  {
    var r := TwoDigits(secs);
    if secs < 10 {
      assert r[..1] == ['0'] && r[..1][..0] == [];
      assert DigitsValue(r[..1]) == 0;
    } else {
      DecimalRoundTrip(secs);
    }
  }

  /** The countdown text names exactly the seconds left. */
  lemma FormatTimeRoundTrip(seconds: nat)
    ensures ParseTime(FormatTime(seconds)) == Some(seconds)
  {
    var m, p := Decimal(seconds / 60), TwoDigits(seconds % 60);
    var t := FormatTime(seconds);
    assert t == m + ":" + p;
    assert t[..|t| - 3] == m;
    assert t[|t| - 2..] == p;
    DecimalRoundTrip(seconds / 60);
    TwoDigitsValue(seconds % 60);
  }

  // ------------------------------------------------- the dialog

  datatype Outcome = NoCodeEntered | CodeExpired | Verified | WrongCode

  class OtpVerification {
    const phoneNumber: string
    var otp: string
    var generatedOtp: string
    var isVerifying: bool
    var timeLeft: nat
    var isExpired: bool

    /** The countdown never exceeds five minutes and reads zero exactly when expired; the
        generated code is six digits and the typed one at most six digits. */
    predicate Valid()
      reads this
    {
      timeLeft <= 300 && (isExpired <==> timeLeft == 0)
      && |generatedOtp| == 6 && AllDigits(generatedOtp)
      && |otp| <= 6 && AllDigits(otp) && !isVerifying
    }

    /** Mounting the dialog generates the first code from the draw `u`. */
    constructor (phoneNumber: string, u: real)
      requires Draw(u)
      ensures Valid()
      ensures this.phoneNumber == phoneNumber && generatedOtp == OtpText(u)
      ensures otp == "" && timeLeft == 300
    {
      this.phoneNumber := phoneNumber;
      otp := "";
      generatedOtp := OtpText(u);
      isVerifying := false;
      timeLeft := 300;
      isExpired := false;
    }

    /** `generateOTP`: a new code, a full countdown and an empty input box. */
    method GenerateOtp(u: real)
      requires Draw(u)
      modifies this
      ensures Valid()
      ensures generatedOtp == OtpText(u) && timeLeft == 300 && !isExpired && otp == ""
    {
      generatedOtp := OtpText(u);
      timeLeft := 300;
      isExpired := false;
      otp := "";
      isVerifying := false;
    }

    /** One second of the countdown effect: the time drops by one while positive, and the
        dialog expires once it reads zero. */
    method Tick()
      requires Valid()
      modifies this`timeLeft, this`isExpired
      ensures Valid()
      ensures timeLeft == if old(timeLeft) > 0 then old(timeLeft) - 1 else 0
      ensures old(isExpired) ==> isExpired
    {
      if timeLeft > 0 {
        timeLeft := timeLeft - 1;
      }
      if timeLeft == 0 {
        isExpired := true;
      }
    }

    /** The input box's `onChange`. */
    method OnInput(raw: string)
      requires Valid()
      modifies this`otp
      ensures Valid()
      ensures otp == Sanitize(raw)
    {
      otp := Sanitize(raw);
    }

    /** The Verify button is enabled for a full six-digit entry on a live code. */
    predicate VerifyEnabled(): (r: bool)
      reads this
      ensures r && Valid() ==> !AllWs(otp) && timeLeft > 0
    {
      var enabled := !isVerifying && otp != "" && |otp| == 6 && !isExpired;
      if enabled && Valid() then DigitIsNotWs(otp[0]); enabled else enabled
    }

    /** An enabled button never meets the empty-entry or expiry refusal. */
    lemma EnabledPassesChecks()
      requires Valid() && VerifyEnabled()
      ensures !AllWs(otp) && !isExpired && timeLeft > 0
    {
      DigitIsNotWs(otp[0]);
    }

    /** `handleVerify`: an empty entry and an expired code are refused before the comparison;
        a matching code calls `onVerified`. */
    method HandleVerify() returns (outcome: Outcome)
      requires Valid()
      ensures outcome == NoCodeEntered <==> AllWs(otp)
      ensures outcome == CodeExpired <==> !AllWs(otp) && isExpired
      ensures outcome == Verified <==> !AllWs(otp) && !isExpired && otp == generatedOtp
      ensures outcome == Verified ==> timeLeft > 0 && |otp| == 6 && AllDigits(otp)
    {
      if AllWs(otp) {
        return NoCodeEntered;
      }
      if isExpired {
        return CodeExpired;
      }
      if otp == generatedOtp {
        outcome := Verified;
      } else {
        outcome := WrongCode;
      }
    }
  }

  /** Counting down from a fresh code, the dialog expires after exactly 300 ticks. */
  lemma {:induction false} ExpiresAfterFiveMinutes(ticks: nat)
    ensures CountdownAfter(300, ticks) == 0 <==> ticks >= 300
    ensures ticks < 300 ==> CountdownAfter(300, ticks) == 300 - ticks
  {
    CountdownAfterIs(300, ticks);
  }

  /** The time left after `ticks` calls of Tick. */
  function CountdownAfter(start: nat, ticks: nat): nat {
    if ticks == 0 then start
    else var t := CountdownAfter(start, ticks - 1); if t > 0 then t - 1 else 0
  }

  lemma {:induction false} CountdownAfterIs(start: nat, ticks: nat)
    ensures CountdownAfter(start, ticks) == if ticks < start then start - ticks else 0
  {
    if ticks > 0 {
      CountdownAfterIs(start, ticks - 1);
    }
  }
}
