/** The two-step verification page: four one-character inputs whose
    concatenation must be a four-digit code. */
module Verification {
  import opened Text
  import opened Ui

  /** The `name` attribute of each input; the change handler keys its update on it. */
  datatype OtpField = Otp1 | Otp2 | Otp3 | Otp4

  /** The page state: the four input values and the error line under them. */
  datatype OtpForm = OtpForm(otp1: string, otp2: string, otp3: string, otp4: string, error: string)

  /** The result of a handler: the new page state and what it asks of the router. */
  datatype Step = Step(form: OtpForm, outcome: Outcome)

  const InitialForm := OtpForm("", "", "", "", "")
  const InvalidOtpMessage := "Invalid OTP"
  const ResetPasswordPath := "/reset-password"
  const VerificationPath := "/verification"

  function Field(f: OtpForm, name: OtpField): string {
    match name
    case Otp1 => f.otp1
    case Otp2 => f.otp2
    case Otp3 => f.otp3
    case Otp4 => f.otp4
  }

  /** The code the submit handler checks: the inputs joined in page order. */
  function Code(f: OtpForm): (code: string)
    ensures |code| == |f.otp1| + |f.otp2| + |f.otp3| + |f.otp4|
    ensures code[..|f.otp1|] == f.otp1
    ensures code[|f.otp1|..|f.otp1| + |f.otp2|] == f.otp2
    ensures code[|f.otp1| + |f.otp2|..|f.otp1| + |f.otp2| + |f.otp3|] == f.otp3
    ensures code[|f.otp1| + |f.otp2| + |f.otp3|..] == f.otp4
  {
    f.otp1 + f.otp2 + f.otp3 + f.otp4
  }

  /** `/^[0-9]{4}$/`: exactly four characters, each an ASCII digit. */
  predicate IsValidOtp(s: string) {
    |s| == 4 && AllDigits(s)
  }

  /** "0000" is a code; "12a4", "123" and "12345" are not. */
  lemma IsValidOtpExamples()
    ensures IsValidOtp("0000")
    ensures IsValidOtp("9071")
    ensures !IsValidOtp("12a4")
    ensures !IsValidOtp("123")
    ensures !IsValidOtp("12345")
  {
    assert !IsDigit("12a4"[2]);
  }

  /** The change handler: the named input takes the typed value, and the
      other three inputs and the error line keep theirs. */
  function Edit(f: OtpForm, name: OtpField, value: string): (r: OtpForm)
    ensures Field(r, name) == value
    ensures forall other :: other != name ==> Field(r, other) == Field(f, other)
    ensures r.error == f.error
  {
    match name
    case Otp1 => f.(otp1 := value)
    case Otp2 => f.(otp2 := value)
    case Otp3 => f.(otp3 := value)
    case Otp4 => f.(otp4 := value)
  }

  /** The Verify button. A code that is not four digits leaves the inputs as
      they are, shows "Invalid OTP" and stays on the page; a four-digit code
      leaves the whole state, error line included, as it is and moves on to
      the password-reset page. */
  function Submit(f: OtpForm): (r: Step)
    ensures r.form.otp1 == f.otp1 && r.form.otp2 == f.otp2
    ensures r.form.otp3 == f.otp3 && r.form.otp4 == f.otp4
    ensures r.outcome != Stay <==> IsValidOtp(f.otp1 + f.otp2 + f.otp3 + f.otp4)
    ensures r.outcome != Stay ==> r.outcome == Navigate(ResetPasswordPath) && r.form.error == f.error
    ensures r.outcome == Stay ==> r.form.error == InvalidOtpMessage
  {
    if !IsValidOtp(Code(f)) then
      Step(f.(error := InvalidOtpMessage), Stay)
    else
      Step(f, Navigate(ResetPasswordPath))
  }

  /** The "Resend it" link: back to this route with all four inputs and the
      error line cleared. */
  function Resend(f: OtpForm): (r: Step)
    ensures forall name :: Field(r.form, name) == ""
    ensures r.form.error == ""
    ensures r.outcome == Navigate(VerificationPath)
  {
    Step(InitialForm, Navigate(VerificationPath))
  }

  /** An input holding exactly one digit. */
  predicate IsSingleDigit(v: string) {
    |v| == 1 && IsDigit(v[0])
  }

  /** Each input is limited to one character in the page. Under that limit the
      code is accepted exactly when every input holds one digit. */
  lemma {:induction false} SingleCharacterInputs(f: OtpForm)
    requires |f.otp1| <= 1 && |f.otp2| <= 1 && |f.otp3| <= 1 && |f.otp4| <= 1
    ensures IsValidOtp(Code(f)) <==>
              IsSingleDigit(f.otp1) && IsSingleDigit(f.otp2) && IsSingleDigit(f.otp3) && IsSingleDigit(f.otp4)
  {
    var code := Code(f);
    if |code| == 4 {
      assert |f.otp1| == 1 && |f.otp2| == 1 && |f.otp3| == 1 && |f.otp4| == 1;
      assert code == [f.otp1[0], f.otp2[0], f.otp3[0], f.otp4[0]];
    }
  }

  /** Edits to two different inputs commute, so the order in which the user
      fills the inputs does not change the resulting page. */
  lemma EditsCommute(f: OtpForm, a: OtpField, b: OtpField, x: string, y: string)
    requires a != b
    ensures Edit(Edit(f, a, x), b, y) == Edit(Edit(f, b, y), a, x)
  {
  }

  /** Typing the four digits of a code into a fresh page, inputs filled in the
      order 3, 1, 4, 2, and pressing Verify moves on to the password-reset page;
      by `EditsCommute` every other fill order gives the same page. */
  lemma TypedCodeIsAccepted(d1: char, d2: char, d3: char, d4: char)
    requires IsDigit(d1) && IsDigit(d2) && IsDigit(d3) && IsDigit(d4)
    ensures var f := Edit(Edit(Edit(Edit(InitialForm, Otp3, [d3]), Otp1, [d1]), Otp4, [d4]), Otp2, [d2]);
            Code(f) == [d1, d2, d3, d4] && Submit(f).outcome == Navigate(ResetPasswordPath)
  {
    var f := Edit(Edit(Edit(Edit(InitialForm, Otp3, [d3]), Otp1, [d1]), Otp4, [d4]), Otp2, [d2]);
    assert f == OtpForm([d1], [d2], [d3], [d4], "");
    assert Code(f) == [d1, d2, d3, d4];
  }

  /** Resending twice is the same as resending once, and from any state the
      page ends where it started. */
  lemma ResendIdempotent(f: OtpForm)
    ensures Resend(Resend(f).form) == Resend(f)
    ensures Resend(f).form == InitialForm
  {
  }

  /** A successful Verify does not clear an error left by an earlier failed
      attempt: the line "Invalid OTP" stays on screen during the delay before
      the page changes. */
  lemma AcceptedCodeKeepsStaleError(f: OtpForm, d1: char, d2: char, d3: char, d4: char)
    requires IsDigit(d1) && IsDigit(d2) && IsDigit(d3) && IsDigit(d4)
    requires !IsValidOtp(Code(f))
    ensures var failed := Submit(f).form;
            var fixed := OtpForm([d1], [d2], [d3], [d4], failed.error);
            Submit(fixed) == Step(fixed, Navigate(ResetPasswordPath)) && fixed.error == InvalidOtpMessage
  {
    var fixed := OtpForm([d1], [d2], [d3], [d4], InvalidOtpMessage);
    assert Code(fixed) == [d1, d2, d3, d4];
  }

  /** Verifying right after a resend always fails: the inputs are empty. */
  lemma SubmitAfterResendFails(f: OtpForm)
    ensures Submit(Resend(f).form) == Step(InitialForm.(error := InvalidOtpMessage), Stay)
  {
  }
}
