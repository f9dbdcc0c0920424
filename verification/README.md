# NHUIS login and claimant forms — a Dafny model

This project models the client-side logic of five pages of the NHUIS front end:

- the two-step verification page (four one-digit code inputs, Verify and "Resend it");
- the password-reset page (password rule ladder, confirmation, captcha);
- the forgot-password / forgot-user-name page (identifier pattern, variant-dependent
  message and outcome, the 60-second resend cooldown and its countdown text);
- the "returned to work" report (required fields, the hourly pay rate, six Y/N
  indicators bound to checkboxes);
- the security-questions panel (five slots, each with its own question menu and an answer).

Each page is a module of pure functions over immutable records. Regular expressions are written out as predicates over `seq<char>`. Navigation is an `Outcome` value (`Stay`, `Navigate(path)`, `NavigateWithEmail(path, email)`) and is not an effect. The random captcha challenge is a parameter. Three shared modules support the pages:

- `Text` holds the character classes, the maximal run of a class, substring search, and decimal rendering and parsing.
- `Captcha` holds the unanchored challenge match that two of the pages use.
- `Wrappers` holds the `Option` type for absent router state and failed parses.

Yup's `matches(challenge)` turns the challenge string into a regular expression and *searches* for it. For the letters-and-digits challenges the page generates, the captcha is therefore accepted exactly when the typed value contains the challenge somewhere.

The identifier pattern on the forgot-password page is `/^(?:[a-zA-Z0-9._-]+@(?:affiliate\.nhes\.nh\.gov))|(?:\d{10})$/`. Alternation binds loosest, so the `^` anchors only the e-mail branch and the `$` only the digit branch. The pattern therefore accepts any value that *starts* with an affiliate address or *ends* with ten digits. The model states that language exactly (`ForgotPassword.MatchesIdentifierIff`).

Field validation is modelled as the list or set of every rule a value breaks, in declared order. The model does not claim which single message the form library puts on screen. Formik hands an empty text to the Yup schema as an absent value. Yup's `min` and `matches` tests pass an absent value, so an empty password or identifier breaks only its `required` rule.

"Abc12345" is refused by the symbol rule `[^\w]`, because it has no character outside letters, digits and `_` (`CreatePassword.NoSymbolExample`).

## Model

| member | source | states |
|---|---|---|
| Verification.Code | src/pages/auth/Verification.js:30 | the submitted code is the four inputs laid end to end in page order: its length is the sum of theirs and each input is the block at its position |
| Verification.IsValidOtpExamples | src/pages/auth/Verification.js:41 | "0000" and "9071" are codes; "12a4", "123" and "12345" are not |
| Verification.Edit | src/pages/auth/Verification.js:43-48 | the input named by the event takes the typed value; the other three inputs and the error line keep theirs |
| Verification.Submit | src/pages/auth/Verification.js:29-39 | inputs are never changed; the page leaves exactly when the joined code is four digits, then goes to "/reset-password" and leaves the error as it was; otherwise it stays and shows "Invalid OTP" |
| Verification.SingleCharacterInputs | src/pages/auth/Verification.js:30-41 | when every input holds at most one character (the `maxLength: 1` of each input), the code is accepted exactly when each input holds one digit |
| Verification.EditsCommute | src/pages/auth/Verification.js:43-48 | edits to two different inputs give the same page in either order, so the fill order of the inputs does not matter |
| Verification.TypedCodeIsAccepted | src/pages/auth/Verification.js:29-48 | typing four digits into a fresh page, inputs filled in the order 3, 1, 4, 2 (and so, by `Verification.EditsCommute`, in any order), yields the code in page order and Verify moves to "/reset-password" |
| Verification.AcceptedCodeKeepsStaleError | src/pages/auth/Verification.js:31-38 | after a failed attempt, a correct code navigates while the "Invalid OTP" line is still set |
| Verification.Resend | src/pages/auth/Verification.js:149-153 | "Resend it" empties all four inputs and the error line and goes back to "/verification" |
| Verification.ResendIdempotent | src/pages/auth/Verification.js:149-153 | resending twice gives the same step as resending once, and from any state it restores the initial page |
| Verification.SubmitAfterResendFails | src/pages/auth/Verification.js:29-34 | Verify right after a resend always stays on the page with "Invalid OTP" |
| Captcha.Accepts | src/pages/auth/CreatePassword.js:41 | with a letters-and-digits challenge, the captcha passes exactly when the value is non-empty and the challenge occurs in it at some position |
| Captcha.AcceptsWithSurroundingText | src/pages/auth/ForgotPwd.js:43 | any text before and after the challenge still passes: the match is unanchored |
| Captcha.AcceptedExamples | src/pages/auth/ForgotPwd.js:43 | for challenge "k3x9", both "k3x9" and "xxk3x9yy" pass |
| Captcha.RefusedExamples | src/pages/auth/ForgotPwd.js:43 | for challenge "k3x9", "k3x" and the empty value are refused |
| CreatePassword.FailedRules | src/pages/auth/CreatePassword.js:31-37 | a rule is listed exactly when the password breaks it; the list follows declared order with no repeats |
| CreatePassword.EmptyPasswordOnlyRequired | src/pages/auth/CreatePassword.js:31-37 | the empty password breaks `required` alone and draws only "Password is required" |
| CreatePassword.PasswordValidIff | src/pages/auth/CreatePassword.js:31-37 | a password passes exactly when it is non-empty, at least 8 long, and has a digit, a lowercase letter, an uppercase letter and a character outside `\w` |
| CreatePassword.UnderscoreIsNoSymbol | src/pages/auth/CreatePassword.js:37 | a password made only of word characters, `_` included, never passes, and when it is non-empty it fails the symbol rule |
| CreatePassword.LowercaseOnly | src/pages/auth/CreatePassword.js:34-37 | a password of eight or more lowercase letters fails exactly the digit, uppercase and symbol rules, in that order |
| CreatePassword.LowercaseOnlyMessages | src/pages/auth/CreatePassword.js:34-37 | such a password draws exactly the three messages for number, uppercase letter and symbol |
| CreatePassword.LowercaseExample | src/pages/auth/CreatePassword.js:34-37 | "abcdefgh" fails the digit, uppercase and symbol rules |
| CreatePassword.OnlySymbolMissing | src/pages/auth/CreatePassword.js:33-37 | a long-enough password with a digit, a lowercase and an uppercase letter but no non-word character fails the symbol rule alone |
| CreatePassword.NoSymbolExample | src/pages/auth/CreatePassword.js:37 | "Abc12345" fails the symbol rule and nothing else |
| CreatePassword.UnderscoreExample | src/pages/auth/CreatePassword.js:37 | "Abc1234_" fails the symbol rule and nothing else |
| CreatePassword.SymbolExample | src/pages/auth/CreatePassword.js:31-37 | "Abc123!x" passes every rule |
| CreatePassword.Submit | src/pages/auth/CreatePassword.js:44-56 | submitting either stays or goes to "/login", and going to "/login" implies the confirmation equals a password of at least 8 characters |
| CreatePassword.SubmitIff | src/pages/auth/CreatePassword.js:30-56 | the page goes to "/login" exactly when the five composition rules hold, the confirmation repeats the password, and the captcha is non-empty and contains the challenge |
| ForgotPassword.MatchesIdentifierIff | src/pages/auth/ForgotPwd.js:39-42 | the scanning matcher accepts exactly the values that start with a non-empty `[a-zA-Z0-9._-]` run followed by "@affiliate.nhes.nh.gov", or end with ten digits |
| ForgotPassword.TrailingTextAccepted | src/pages/auth/ForgotPwd.js:40 | anything after an affiliate address is accepted |
| ForgotPassword.LeadingTextAccepted | src/pages/auth/ForgotPwd.js:40 | anything before ten final digits is accepted |
| ForgotPassword.AcceptedEmailExample | src/pages/auth/ForgotPwd.js:40 | "jdoe@affiliate.nhes.nh.gov" is accepted |
| ForgotPassword.AcceptedPhoneExample | src/pages/auth/ForgotPwd.js:40 | "6035551234" is accepted |
| ForgotPassword.RefusedExamples | src/pages/auth/ForgotPwd.js:40 | "jdoe@gmail.com" and the nine-digit "603555123" are refused |
| ForgotPassword.IdentifierErrors | src/pages/auth/ForgotPwd.js:31-42 | the identifier has no error exactly when it is non-empty and in the pattern's language; an empty value draws only the flow's required message ("Email is required" in the user-name flow, "Email/Mobile Number is required" otherwise); any other refused value draws only "Invalid email/mobile number" |
| ForgotPassword.Submit | src/pages/auth/ForgotPwd.js:52-73 | a disabled button changes nothing; the page navigates only in the password flow with a valid identifier and captcha, to "/verification" with the identifier as the e-mail; in the user-name flow, starting from an idle gate, the gate goes up exactly when both fields are valid |
| ForgotPassword.Tick | src/pages/auth/ForgotPwd.js:62-71 | a stopped interval changes nothing; a tick from 1 restores the idle state (gate down, sixty seconds, interval stopped); any other tick counts down by one and keeps the gate |
| ForgotPassword.InvariantHolds | src/pages/auth/ForgotPwd.js:24-25 | the initial state, every tick and every submit keep the timer within 1..60, the interval running exactly while the gate is up, and an idle timer at 60 |
| ForgotPassword.NoSecondCooldown | src/pages/auth/ForgotPwd.js:138 | while the user-name cooldown runs, submitting changes nothing |
| ForgotPassword.PasswordFlowKeepsCooldown | src/pages/auth/ForgotPwd.js:53-58 | the password flow never touches the gate or the timer |
| ForgotPassword.CooldownCountsDown | src/pages/auth/ForgotPwd.js:62-71 | from a running cooldown with t seconds left, k < t ticks leave t - k seconds with the gate up, and the t-th tick restores the idle state |
| ForgotPassword.GateReleasedAfterSixtyTicks | src/pages/auth/ForgotPwd.js:59-71 | after a successful user-name submission the button stays disabled for ticks 0 to 59 and is enabled again after the sixtieth |
| ForgotPassword.TimerText | src/pages/auth/ForgotPwd.js:146 | a one-digit value is shown as "0" and the digit; values of 10 and up, and negative values, are shown unpadded |
| ForgotPassword.TimerTextTwoDigits | src/pages/auth/ForgotPwd.js:146 | every value from 0 to 99 is shown as exactly two digits that read back as the value |
| ForgotPassword.TimerTextExamples | src/pages/auth/ForgotPwd.js:146 | 60 shows "60", 9 shows "09", 0 shows "00" |
| ReturnedToWork.ParseRateIff | src/pages/dashboard/interviewCalendarView/ReturnedToWork.js:22-23 | the scanner accepts exactly the texts that are digits, or digits, a point and one or two digits |
| ReturnedToWork.ParseFormatRate | src/pages/dashboard/interviewCalendarView/ReturnedToWork.js:18-24 | any amount of cents written as dollars, a point and two digits reads back as the same amount |
| ReturnedToWork.FormattedRateValidIff | src/pages/dashboard/interviewCalendarView/ReturnedToWork.js:20 | a written amount passes the pay-rate rule exactly when it is at most 999.99 |
| ReturnedToWork.CeilingAccepted | src/pages/dashboard/interviewCalendarView/ReturnedToWork.js:20 | "999.99" reads as 99999 cents and passes |
| ReturnedToWork.OverCeilingRefused | src/pages/dashboard/interviewCalendarView/ReturnedToWork.js:20 | "1000" reads as 100000 cents, over the ceiling |
| ReturnedToWork.AcceptedRateExamples | src/pages/dashboard/interviewCalendarView/ReturnedToWork.js:22-23 | "12.5" reads as 1250 cents and passes; "40" passes |
| ReturnedToWork.RefusedRateExamples | src/pages/dashboard/interviewCalendarView/ReturnedToWork.js:18-24 | "1000" (over the ceiling), "-5" (a sign), "12.345" (three decimals) and "" (missing) are refused |
| ReturnedToWork.Errors | src/pages/dashboard/interviewCalendarView/ReturnedToWork.js:11-33 | a field is reported exactly when its rule fails |
| ReturnedToWork.AcceptedIff | src/pages/dashboard/interviewCalendarView/ReturnedToWork.js:11-33 | the form has no error exactly when the six required texts are non-empty, the pay rate passes and every indicator is "Y" or "N" |
| ReturnedToWork.DefaultFormErrors | src/pages/dashboard/interviewCalendarView/ReturnedToWork.js:55-328 | with the defaults "" for the texts and the pay rate (lines 55, 96, 112, 138, 154, 182, 209) and "N" for the indicators (lines 246, 262, 278, 296, 312, 328), an untouched form is refused for the six required texts and the pay rate and for no indicator |
| ReturnedToWork.StoredValue | src/pages/dashboard/interviewCalendarView/ReturnedToWork.js:251 | a checkbox stores a value the indicator rule allows, and "Y" exactly when ticked |
| ReturnedToWork.CheckboxRoundTrip | src/pages/dashboard/interviewCalendarView/ReturnedToWork.js:250-251 | drawing what was stored gives back the tick, and storing what is drawn gives back any "Y"/"N" value |
| ReturnedToWork.SetIndicator | src/pages/dashboard/interviewCalendarView/ReturnedToWork.js:250-251 | a checkbox change sets its own indicator to the stored value and leaves every other field as it was |
| ReturnedToWork.CheckboxesKeepIndicatorsValid | src/pages/dashboard/interviewCalendarView/ReturnedToWork.js:244-251 | if every indicator satisfies its rule, it still does after any checkbox change, and the changed box is drawn as the user left it |
| SecurityQuestions.Menu | src/components/SecurityQuestions/index.jsx:86-88 | each slot offers five questions, none of them empty |
| SecurityQuestions.InitialPanel | src/components/SecurityQuestions/index.jsx:53-54 | both arrays start with five entries, all empty |
| SecurityQuestions.ChangeQuestion | src/components/SecurityQuestions/index.jsx:56-60 | the slot takes the chosen question, every other slot keeps its question, the length stays five and no answer changes |
| SecurityQuestions.ChangeAnswer | src/components/SecurityQuestions/index.jsx:62-66 | the slot takes the typed answer, every other answer stays, the length stays five and no question changes |
| SecurityQuestions.ChangesCommute | src/components/SecurityQuestions/index.jsx:56-66 | question and answer changes commute, and a later question change of a slot overrides an earlier one |
| SecurityQuestions.MenusDisjoint | src/components/SecurityQuestions/index.jsx:14-50 | no question appears on two different menus |
| SecurityQuestions.ChosenQuestionsDistinct | src/components/SecurityQuestions/index.jsx:14-50 | if every slot holds a question from its own menu, no two slots hold the same question |
| SecurityQuestions.InitialNotChosen | src/components/SecurityQuestions/index.jsx:53-54 | the empty initial choice is on no menu, so a fresh panel has chosen nothing |

## Left out

- Rendering, styling and layout of the pages are presentation only and are not modelled.
- Toast notifications are not modelled. The `setTimeout` delays of 2 and 3 seconds before navigating are not modelled either: a navigation is an outcome value.
- The real one-second scheduling of `setInterval` is not modelled. Only the per-tick state step is, and the model does not track which interval is running.
- ForgotPassword.Tick: on the tick from 1 the source calls `setTimer(60)` inside an updater that then returns 0. The model takes the reset to 60 as the final value, and the framework's ordering of the two updates is not part of this model. Two results rest on that choice: the `1 <= timer` bound of `ForgotPassword.InvariantHolds`, and that every later user-name cooldown again lasts sixty ticks. Under the other order the timer would end at 0. A second cooldown would then count down through negative values and never reach 1, so the gate would never be released.
- The captcha is modelled only for challenges made of letters and digits. The page's challenge is the base-36 text of `Math.random`, which is random and is a parameter here. A challenge holding regular-expression metacharacters is not modelled.
- The `Captcha` component, `validatePassword` (the per-rule checklist drawn under the password field) and the `STATES` list are not part of this model.
- The model does not say which one of several failing messages the form library shows for a field. It lists every failing rule.
- ReturnedToWork.ParseRateIff: the pay rate is modelled on its decimal text, in whole cents. `yup.number()` first coerces the input to a floating-point number and tests `String(value)`. That coercion is left out, and with it inputs such as "1e2" or " 12", and the number rendering of values such as 12.50.
- `employmentStartDt` is left out. It is checked by a date library against the clock (`disablePast`).
- The submit handler of the returned-to-work report only logs the data and calls `onCancel`, which are I/O and wiring. The model covers its schema.
- The "Return to Log In" button and the confirmation message "Passwords must match" are routing and display text, and are left out.
- String lengths are counted in characters. The source counts UTF-16 code units, so a character outside the Basic Multilingual Plane counts as two there and as one here.
