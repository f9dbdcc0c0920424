/** The password-reset page: a ladder of composition rules on the new
    password, a confirmation that must repeat it, and the captcha. */
module CreatePassword {
  import opened Text
  import opened Ui
  import Captcha

  /** The tests of the password schema, in the order they are declared. */
  datatype PasswordRule = Required | MinLength | NeedsDigit | NeedsLower | NeedsUpper | NeedsSymbol

  const MinPasswordLength := 8
  const LoginPath := "/login"

  /** Position of a rule in the ladder. */
  function Rank(rule: PasswordRule): nat {
    match rule
    case Required => 0
    case MinLength => 1
    case NeedsDigit => 2
    case NeedsLower => 3
    case NeedsUpper => 4
    case NeedsSymbol => 5
  }

  function Message(rule: PasswordRule): string {
    match rule
    case Required => "Password is required"
    case MinLength => "Password must be 8 characters long"
    case NeedsDigit => "Password requires a number"
    case NeedsLower => "Password requires a lowercase letter"
    case NeedsUpper => "Password requires an uppercase letter"
    case NeedsSymbol => "Password requires a symbol"
  }

  predicate HasDigit(p: string) { exists i :: 0 <= i < |p| && IsDigit(p[i]) }
  predicate HasLower(p: string) { exists i :: 0 <= i < |p| && IsLower(p[i]) }
  predicate HasUpper(p: string) { exists i :: 0 <= i < |p| && IsUpper(p[i]) }
  /** `[^\w]`: some character that is neither an ASCII letter, a digit nor `_`. */
  predicate HasSymbol(p: string) { exists i :: 0 <= i < |p| && !IsWordChar(p[i]) }

  /** Whether `p` passes one rule. The form library hands an empty value to
      the schema as absent, and the length and pattern tests pass an absent
      value: only `required` can fail on the empty password. */
  predicate Holds(rule: PasswordRule, p: string) {
    match rule
    case Required => p != ""
    case MinLength => p == "" || |p| >= MinPasswordLength
    case NeedsDigit => p == "" || HasDigit(p)
    case NeedsLower => p == "" || HasLower(p)
    case NeedsUpper => p == "" || HasUpper(p)
    case NeedsSymbol => p == "" || HasSymbol(p)
  }

  /** The rule at a given position of the ladder. */
  function RuleAt(k: nat): (rule: PasswordRule)
    requires k <= 5
    ensures Rank(rule) == k
  {
    [Required, MinLength, NeedsDigit, NeedsLower, NeedsUpper, NeedsSymbol][k]
  }

  /** Each rule is the one at its own position. */
  lemma RankIdentifiesRule()
    ensures forall rule :: Rank(rule) <= 5 && RuleAt(Rank(rule)) == rule
  {
  }

  /** The rules from position `k` of the ladder on that `p` breaks, in ladder order. */
  function FailedFrom(k: nat, p: string): (r: seq<PasswordRule>)
    ensures forall rule :: rule in r <==> Rank(rule) >= k && !Holds(rule, p)
    ensures forall i, j :: 0 <= i < j < |r| ==> k <= Rank(r[i]) < Rank(r[j])
    decreases 6 - k
  {
    if k > 5 then []
    else
      var rest := FailedFrom(k + 1, p);
      RankIdentifiesRule();
      if Holds(RuleAt(k), p) then rest else [RuleAt(k)] + rest
  }

  /** Every rule of the schema that the password fails, in declared order and
      each once; the password passes exactly when the list is empty. */
  function FailedRules(p: string): (r: seq<PasswordRule>)
    ensures forall rule :: rule in r <==> !Holds(rule, p)
    ensures forall i, j :: 0 <= i < j < |r| ==> Rank(r[i]) < Rank(r[j])
  {
    FailedFrom(0, p)
  }

  /** The messages the schema reports for `p`, one per failed rule. */
  function PasswordErrors(p: string): (msgs: seq<string>)
    ensures |msgs| == |FailedRules(p)|
  {
    seq(|FailedRules(p)|, i requires 0 <= i < |FailedRules(p)| => Message(FailedRules(p)[i]))
  }

  predicate PasswordValid(p: string) {
    FailedRules(p) == []
  }

  /** A password passes the schema exactly when it is at least eight characters
      long and contains a digit, a lowercase letter, an uppercase letter and a
      character outside `\w`. */
  lemma PasswordValidIff(p: string)
    ensures PasswordValid(p) <==>
              p != "" && |p| >= 8 && HasDigit(p) && HasLower(p) && HasUpper(p) && HasSymbol(p)
  {
    if FailedRules(p) != [] {
      assert !Holds(FailedRules(p)[0], p);
    } else {
      assert Holds(Required, p) && Holds(MinLength, p) && Holds(NeedsDigit, p);
      assert Holds(NeedsLower, p) && Holds(NeedsUpper, p) && Holds(NeedsSymbol, p);
    }
  }

  /** `_` is a word character: a password whose only character outside letters
      and digits is `_` fails the symbol rule and nothing else makes it pass. */
  lemma {:induction false} UnderscoreIsNoSymbol(p: string)
    requires forall i :: 0 <= i < |p| ==> IsWordChar(p[i])
    ensures p != "" ==> NeedsSymbol in FailedRules(p)
    ensures !PasswordValid(p)
  {
    assert !HasSymbol(p);
    PasswordValidIff(p);
  }

  /** The empty password is refused for `required` alone. */
  lemma EmptyPasswordOnlyRequired()
    ensures FailedRules("") == [Required]
    ensures PasswordErrors("") == ["Password is required"]
  {
    assert FailedFrom(6, "") == [];
    assert FailedFrom(5, "") == [];
    assert FailedFrom(4, "") == [];
    assert FailedFrom(3, "") == [];
    assert FailedFrom(2, "") == [];
    assert FailedFrom(1, "") == [];
  }

  /** A password of eight or more lowercase letters fails exactly the digit,
      uppercase and symbol rules, reported in that order. */
  lemma LowercaseOnly(p: string)
    requires |p| >= 8
    requires forall i :: 0 <= i < |p| ==> IsLower(p[i])
    ensures FailedRules(p) == [NeedsDigit, NeedsUpper, NeedsSymbol]
  {
    assert IsLower(p[0]);
    assert !HasDigit(p) && !HasUpper(p) && !HasSymbol(p);
    assert FailedFrom(6, p) == [];
    assert FailedFrom(5, p) == [NeedsSymbol];
    assert FailedFrom(4, p) == [NeedsUpper, NeedsSymbol];
    assert FailedFrom(3, p) == [NeedsUpper, NeedsSymbol];
    assert FailedFrom(2, p) == [NeedsDigit, NeedsUpper, NeedsSymbol];
    assert FailedFrom(1, p) == [NeedsDigit, NeedsUpper, NeedsSymbol];
  }

  /** The messages such a password draws, in that order. */
  lemma LowercaseOnlyMessages(p: string)
    requires |p| >= 8
    requires forall i :: 0 <= i < |p| ==> IsLower(p[i])
    ensures PasswordErrors(p) == ["Password requires a number", "Password requires an uppercase letter", "Password requires a symbol"]
  {
    LowercaseOnly(p);
  }

  /** "abcdefgh" breaks the digit, uppercase and symbol rules. */
  lemma LowercaseExample()
    ensures FailedRules("abcdefgh") == [NeedsDigit, NeedsUpper, NeedsSymbol]
  {
    LowercaseOnly("abcdefgh");
  }

  /** "Abc12345" has a digit, a lowercase and an uppercase letter but nothing
      outside `\w`, so it is refused for the symbol rule alone. */
  lemma NoSymbolExample()
    ensures FailedRules("Abc12345") == [NeedsSymbol]
  {
    var a := "Abc12345";
    assert IsUpper(a[0]) && IsLower(a[1]) && IsDigit(a[3]);
    OnlySymbolMissing(a);
  }

  /** "Abc1234_" is refused the same way: `_` does not count as a symbol. */
  lemma UnderscoreExample()
    ensures FailedRules("Abc1234_") == [NeedsSymbol]
  {
    var b := "Abc1234_";
    assert IsUpper(b[0]) && IsLower(b[1]) && IsDigit(b[3]);
    OnlySymbolMissing(b);
  }

  /** "Abc123!x" passes every rule. */
  lemma SymbolExample()
    ensures PasswordValid("Abc123!x")
  {
    var c := "Abc123!x";
    assert IsUpper(c[0]) && IsLower(c[1]) && IsDigit(c[3]) && !IsWordChar(c[6]);
    PasswordValidIff(c);
  }

  lemma OnlySymbolMissing(p: string)
    requires |p| >= 8 && HasDigit(p) && HasLower(p) && HasUpper(p) && !HasSymbol(p)
    ensures FailedRules(p) == [NeedsSymbol]
  {
    assert FailedFrom(6, p) == [];
    assert FailedFrom(5, p) == [NeedsSymbol];
    assert FailedFrom(4, p) == [NeedsSymbol];
    assert FailedFrom(3, p) == [NeedsSymbol];
    assert FailedFrom(2, p) == [NeedsSymbol];
    assert FailedFrom(1, p) == [NeedsSymbol];
  }

  /** `oneOf([ref("password"), null])` followed by `required`: the confirmation
      is accepted exactly when it is non-empty and equal to the password. */
  predicate ConfirmValid(confirm: string, password: string) {
    confirm != "" && confirm == password
  }

  datatype PasswordForm = PasswordForm(password: string, confirmPassword: string, captcha: string)

  /** The submit handler runs only when the whole schema passes, and then
      (after a notice and a delay) goes to the login page. */
  function Submit(form: PasswordForm, challenge: string): (r: Outcome)
    requires Captcha.IsAlphanumeric(challenge)
    ensures r == Stay || r == Navigate(LoginPath)
    ensures r == Navigate(LoginPath) ==> form.password == form.confirmPassword && |form.password| >= 8
  {
    if PasswordValid(form.password) && ConfirmValid(form.confirmPassword, form.password)
       && Captcha.Accepts(form.captcha, challenge)
    then
      PasswordValidIff(form.password);
      Navigate(LoginPath)
    else
      Stay
  }

  /** The form submits exactly when all five composition rules hold, the
      confirmation repeats the password and the captcha contains the challenge. */
  lemma SubmitIff(form: PasswordForm, challenge: string)
    requires Captcha.IsAlphanumeric(challenge)
    ensures Submit(form, challenge) == Navigate(LoginPath) <==>
              && |form.password| >= 8
              && HasDigit(form.password) && HasLower(form.password)
              && HasUpper(form.password) && HasSymbol(form.password)
              && form.confirmPassword == form.password
              && form.captcha != ""
              && exists k :: OccursAt(form.captcha, challenge, k)
  {
    PasswordValidIff(form.password);
  }
}
