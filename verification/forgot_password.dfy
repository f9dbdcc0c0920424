/** The account-recovery page. It serves two flows, told apart by the value
    the previous page put in the router state: "username?" (mail the user
    name, then hold the button for a sixty-second cooldown) and anything else
    (go on to code verification). */
module ForgotPassword {
  import opened Text
  import opened Ui
  import opened Wrappers
  import Captcha

  const UsernameFlow := "username?"
  const AtAffiliateDomain := "@affiliate.nhes.nh.gov"
  const InvalidIdentifierMessage := "Invalid email/mobile number"
  const VerificationPath := "/verification"
  const CooldownSeconds := 60

  /** `location.state.value`: absent when the page is reached without state. */
  predicate IsUsernameFlow(flow: Option<string>) { flow == Some(UsernameFlow) }

  /** The required-field message depends on the flow: only the user-name flow
      asks for an e-mail address alone. */
  function RequiredMessage(flow: Option<string>): string {
    if !IsUsernameFlow(flow) then "Email/Mobile Number is required" else "Email is required"
  }

  // The identifier pattern.
  //
  // The pattern is `^(?:L+@affiliate\.nhes\.nh\.gov)|(?:\d{10})$` with
  // L = `[a-zA-Z0-9._-]`. Alternation binds loosest, so `^` anchors only the
  // e-mail branch and `$` only the phone branch, and the match is a search:
  // a value is accepted when it STARTS with an affiliate address or ENDS with
  // ten digits, whatever surrounds it.

  predicate AllLocal(s: string) {
    AllIn(s, EmailLocal)
  }

  /** Length of the local part the pattern's `+` consumes. */
  function LocalRunLength(s: string): nat {
    RunLength(s, EmailLocal)
  }

  /** The e-mail branch as a scan: a non-empty run of local characters, then
      the affiliate domain. */
  predicate StartsWithAffiliateEmail(s: string) {
    var n := LocalRunLength(s);
    n >= 1 && StartsWith(s[n..], AtAffiliateDomain)
  }

  /** The phone branch: the last ten characters are digits. */
  predicate EndsWithTenDigits(s: string) {
    |s| >= 10 && AllDigits(s[|s| - 10..])
  }

  predicate MatchesIdentifier(s: string) {
    StartsWithAffiliateEmail(s) || EndsWithTenDigits(s)
  }

  /** The e-mail branch as a language: some non-empty local part followed by
      the domain, and then anything. */
  ghost predicate AffiliateEmailPrefix(s: string, k: int) {
    1 <= k && k + |AtAffiliateDomain| <= |s|
    && AllLocal(s[..k]) && s[k..k + |AtAffiliateDomain|] == AtAffiliateDomain
  }

  /** The language the pattern accepts, stated without the scan. */
  ghost predicate IdentifierLanguage(s: string) {
    (exists k :: AffiliateEmailPrefix(s, k))
    || exists pre, digits :: s == pre + digits && |digits| == 10 && AllDigits(digits)
  }

  /** The scanning matcher accepts exactly the language: a value that starts
      with an affiliate address, or that ends with ten digits. */
  lemma {:induction false} MatchesIdentifierIff(s: string)
    ensures MatchesIdentifier(s) <==> IdentifierLanguage(s)
  {
    var n := LocalRunLength(s);
    if StartsWithAffiliateEmail(s) {
      assert s[n..][..|AtAffiliateDomain|] == s[n..n + |AtAffiliateDomain|];
      assert AffiliateEmailPrefix(s, n);
    }
    if k :| AffiliateEmailPrefix(s, k) {
      // '@' ends the local part, so the run stops exactly at k.
      assert s[k] == AtAffiliateDomain[0] == '@';
      RunStopsAt(s, EmailLocal, k);
      assert s[n..][..|AtAffiliateDomain|] == s[k..k + |AtAffiliateDomain|];
    }
    if EndsWithTenDigits(s) {
      assert s == s[..|s| - 10] + s[|s| - 10..];
    }
    if pre, digits :| s == pre + digits && |digits| == 10 && AllDigits(digits) {
      assert s[|s| - 10..] == digits;
    }
  }

  /** Text after an affiliate address does not make it invalid:
      "jdoe@affiliate.nhes.nh.gov.example.com" passes. */
  lemma {:induction false} TrailingTextAccepted(local: string, rest: string)
    requires |local| >= 1 && AllLocal(local)
    ensures MatchesIdentifier(local + AtAffiliateDomain + rest)
  {
    var s := local + AtAffiliateDomain + rest;
    assert s[..|local|] == local;
    assert s[|local|..|local| + |AtAffiliateDomain|] == AtAffiliateDomain;
    assert AffiliateEmailPrefix(s, |local|);
    MatchesIdentifierIff(s);
  }

  /** Text before ten final digits does not make them invalid:
      "call me at 6035551234" passes. */
  lemma {:induction false} LeadingTextAccepted(pre: string, digits: string)
    requires |digits| == 10 && AllDigits(digits)
    ensures MatchesIdentifier(pre + digits)
  {
    assert (pre + digits)[|pre + digits| - 10..] == digits;
  }

  /** "jdoe@affiliate.nhes.nh.gov" passes. */
  lemma AcceptedEmailExample()
    ensures MatchesIdentifier("jdoe" + AtAffiliateDomain)
  {
    TrailingTextAccepted("jdoe", "");
    assert "jdoe" + AtAffiliateDomain + "" == "jdoe" + AtAffiliateDomain;
  }

  lemma AcceptedPhoneExample()
    ensures MatchesIdentifier("6035551234")
  {
    LeadingTextAccepted("", "6035551234");
    assert "" + "6035551234" == "6035551234";
  }

  /** An address at another domain, or too few digits, is refused. */
  lemma RefusedExamples()
    ensures !MatchesIdentifier("jdoe@gmail.com")
    ensures !MatchesIdentifier("603555123")
  {
    var g := "jdoe@gmail.com";
    assert g[..4] == "jdoe";
    RunStopsAt(g, EmailLocal, 4);
    var d := "603555123";
    assert forall i :: 0 <= i < |d| ==> InClass(d[i], EmailLocal);
  }

  /** The messages of the identifier field. The form library hands an empty
      value to the schema as absent, and the pattern test passes an absent
      value, so an empty identifier draws the required message alone. */
  function IdentifierErrors(flow: Option<string>, s: string): (errs: seq<string>)
    ensures errs == [] <==> s != "" && IdentifierLanguage(s)
    ensures s == "" ==>
              errs == [if IsUsernameFlow(flow) then "Email is required" else "Email/Mobile Number is required"]
    ensures s != "" && !IdentifierLanguage(s) ==> errs == ["Invalid email/mobile number"]
  {
    MatchesIdentifierIff(s);
    if s == "" then [RequiredMessage(flow)]
    else if MatchesIdentifier(s) then []
    else [InvalidIdentifierMessage]
  }

  // Submission and the resend cooldown.

  /** `sendEmail` (the gate), `timer` (seconds left) and whether the
      one-second interval is running. */
  datatype Cooldown = Cooldown(sendEmail: bool, timer: int, ticking: bool)

  const InitialCooldown := Cooldown(false, CooldownSeconds, false)

  /** The submit button is disabled in the user-name flow while a mail has
      been sent and the cooldown runs. */
  predicate SendDisabled(flow: Option<string>, c: Cooldown) {
    IsUsernameFlow(flow) && c.sendEmail
  }

  datatype Step = Step(cooldown: Cooldown, outcome: Outcome)

  /** Submitting the form. Nothing happens while the button is disabled or
      while the schema rejects the input. Otherwise the password flow moves to
      code verification carrying the identifier, and the user-name flow raises
      the gate and starts the interval. */
  function Submit(flow: Option<string>, c: Cooldown, identifier: string, captcha: string, challenge: string): (r: Step)
    requires Captcha.IsAlphanumeric(challenge)
    ensures SendDisabled(flow, c) ==> r == Step(c, Stay)
    ensures r.outcome != Stay <==>
              !IsUsernameFlow(flow) && IdentifierErrors(flow, identifier) == [] && Captcha.Accepts(captcha, challenge)
    ensures r.outcome != Stay ==> r == Step(c, NavigateWithEmail(VerificationPath, identifier))
    ensures IsUsernameFlow(flow) && !c.sendEmail ==>
              (r.cooldown.sendEmail <==> IdentifierErrors(flow, identifier) == [] && Captcha.Accepts(captcha, challenge))
  {
    if SendDisabled(flow, c) then Step(c, Stay)
    else if IdentifierErrors(flow, identifier) != [] || !Captcha.Accepts(captcha, challenge) then Step(c, Stay)
    else if !IsUsernameFlow(flow) then Step(c, NavigateWithEmail(VerificationPath, identifier))
    else Step(c.(sendEmail := true, ticking := true), Stay)
  }

  /** One tick of the interval. A tick from 1 clears the gate, puts the timer
      back to sixty and stops the interval; any other tick counts down. */
  function Tick(c: Cooldown): (r: Cooldown)
    ensures !c.ticking ==> r == c
    ensures c.ticking && c.timer != 1 ==> r.sendEmail == c.sendEmail && r.ticking && r.timer == c.timer - 1
    ensures c.ticking && c.timer == 1 ==> r == InitialCooldown
  {
    if !c.ticking then c
    else if c.timer == 1 then Cooldown(false, CooldownSeconds, false)
    else c.(timer := c.timer - 1)
  }

  function Ticks(c: Cooldown, n: nat): Cooldown
    decreases n
  {
    if n == 0 then c else Ticks(Tick(c), n - 1)
  }

  /** What holds of the page state at all times: the timer stays between 1 and
      60, the interval runs exactly while the gate is up, and an idle timer
      shows the full sixty seconds. */
  predicate Valid(c: Cooldown) {
    1 <= c.timer <= CooldownSeconds
    && c.ticking == c.sendEmail
    && (!c.ticking ==> c.timer == CooldownSeconds)
  }

  lemma InvariantHolds(flow: Option<string>, c: Cooldown, identifier: string, captcha: string, challenge: string)
    requires Captcha.IsAlphanumeric(challenge)
    requires Valid(c)
    ensures Valid(InitialCooldown)
    ensures Valid(Tick(c))
    ensures Valid(Submit(flow, c, identifier, captcha, challenge).cooldown)
  {
  }

  /** While the user-name mail's cooldown runs, submitting again changes
      nothing, so a second interval can never start alongside the first. */
  lemma NoSecondCooldown(flow: Option<string>, c: Cooldown, identifier: string, captcha: string, challenge: string)
    requires Captcha.IsAlphanumeric(challenge)
    requires IsUsernameFlow(flow) && Valid(c) && c.ticking
    ensures Submit(flow, c, identifier, captcha, challenge) == Step(c, Stay)
  {
  }

  /** The password flow never touches the gate or the timer. */
  lemma PasswordFlowKeepsCooldown(flow: Option<string>, c: Cooldown, identifier: string, captcha: string, challenge: string)
    requires Captcha.IsAlphanumeric(challenge)
    requires !IsUsernameFlow(flow)
    ensures Submit(flow, c, identifier, captcha, challenge).cooldown == c
  {
  }

  /** A running cooldown with `t` seconds left keeps the gate up for the next
      `t - 1` ticks, counting down one per tick, and the `t`-th tick releases
      it and restores the idle state. */
  lemma {:induction false} CooldownCountsDown(c: Cooldown, k: nat)
    requires Valid(c) && c.ticking
    ensures k < c.timer ==> Ticks(c, k) == c.(timer := c.timer - k)
    ensures k == c.timer ==> Ticks(c, k) == InitialCooldown
    decreases k
  {
    if k > 0 && k <= c.timer {
      if c.timer == 1 {
        assert Ticks(c, 1) == Tick(c);
      } else {
        var next := Tick(c);
        CooldownCountsDown(next, k - 1);
        assert Ticks(c, k) == Ticks(next, k - 1);
      }
    }
  }

  /** From a successful user-name submission, the button stays disabled for
      exactly sixty ticks. */
  lemma GateReleasedAfterSixtyTicks(flow: Option<string>, identifier: string, captcha: string, challenge: string)
    requires Captcha.IsAlphanumeric(challenge)
    requires IsUsernameFlow(flow)
    requires IdentifierErrors(flow, identifier) == [] && Captcha.Accepts(captcha, challenge)
    ensures var started := Submit(flow, InitialCooldown, identifier, captcha, challenge).cooldown;
            (forall k :: 0 <= k < 60 ==> SendDisabled(flow, Ticks(started, k)))
            && !SendDisabled(flow, Ticks(started, 60))
  {
    var started := Submit(flow, InitialCooldown, identifier, captcha, challenge).cooldown;
    forall k | 0 <= k < 60 ensures SendDisabled(flow, Ticks(started, k)) {
      CooldownCountsDown(started, k);
    }
    CooldownCountsDown(started, 60);
  }

  // The countdown text.

  /** `timer.toString()` */
  function NumberText(t: int): string {
    if t < 0 then "-" + Decimal(-t) else Decimal(t)
  }

  /** A one-character number gets a leading zero; anything longer is shown as
      it is. */
  function TimerText(t: int): (s: string)
    ensures 0 <= t < 10 ==> s == ['0', DigitChar(t)]
    ensures t >= 10 ==> s == Decimal(t)
    ensures t < 0 ==> s == "-" + Decimal(-t)
  {
    var s := NumberText(t);
    if |s| == 1 then "0" + s else s
  }

  /** Every value the timer takes, 1 to 60 (and 0 to 99 in general), is shown
      as two digits that read back as the value. */
  lemma {:induction false} TimerTextTwoDigits(t: int)
    requires 0 <= t < 100
    ensures |TimerText(t)| == 2 && AllDigits(TimerText(t))
    ensures ParseDecimal(TimerText(t)) == t
  {
    if t < 10 {
      assert TimerText(t)[..1] == "0";
      assert ParseDecimal("0") == 0;
    } else {
      assert Decimal(t) == Decimal(t / 10) + [DigitChar(t % 10)];
      ParseDecimalOfDecimal(t);
    }
  }

  lemma TimerTextExamples()
    ensures TimerText(60) == "60" && TimerText(9) == "09" && TimerText(0) == "00"
  {
    assert Decimal(60) == Decimal(6) + [DigitChar(0)];
  }
}
