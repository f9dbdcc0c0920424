/** The "returned to work" report: required employer and job fields, an
    hourly pay rate with at most two decimals and a ceiling, and six Y/N
    indicators bound to checkboxes. */
module ReturnedToWork {
  import opened Text
  import opened Wrappers

  /** The largest accepted pay rate, 999.99, in hundredths of a dollar. */
  const MaxPayRateCents := 99999

  // The pay rate.
  //
  // The rate is checked as text against `^\d+(\.\d{1,2})?$` and as a number
  // against the ceiling. Both are modelled on the decimal text, with the
  // value kept as a whole number of cents.

  /** The fractional digits after the point, as cents: "5" is 50, "05" is 5. */
  function Cents(frac: string): (c: nat)
    requires 1 <= |frac| <= 2 && AllDigits(frac)
    ensures c < 100
  {
    if |frac| == 1 then DigitValue(frac[0]) * 10
    else DigitValue(frac[0]) * 10 + DigitValue(frac[1])
  }

  /** The pay-rate pattern as a scan: a run of digits, then what follows it.
      Returns the rate in cents on a match. */
  function ParseRate(t: string): Option<nat> {
    var n := RunLength(t, Digits);
    if n == 0 then None else RateAfter(t[..n], t[n..])
  }

  /** What may follow the whole dollars: nothing, or a point and one or two digits. */
  function RateAfter(whole: string, rest: string): Option<nat>
    requires AllDigits(whole)
  {
    if rest == "" then Some(ParseDecimal(whole) * 100)
    else if rest[0] == '.' && 2 <= |rest| <= 3 && AllDigits(rest[1..]) then
      Some(ParseDecimal(whole) * 100 + Cents(rest[1..]))
    else None
  }

  /** `^\d+(\.\d{1,2})?$` as a language: the whole text is digits, or it
      splits at a point into digits and one or two digits. */
  ghost predicate RateSyntax(t: string) {
    (|t| >= 1 && AllDigits(t))
    || exists k :: 1 <= k && k + 2 <= |t| <= k + 3 && AllDigits(t[..k]) && t[k] == '.' && AllDigits(t[k + 1..])
  }

  /** The scan matches exactly the texts the pattern describes. */
  lemma {:induction false} ParseRateIff(t: string)
    ensures ParseRate(t).Some? <==> RateSyntax(t)
  {
    var n := RunLength(t, Digits);
    if ParseRate(t).Some? && n < |t| {
      assert 1 <= n && n + 2 <= |t| <= n + 3 && AllDigits(t[..n]) && t[n] == '.' && AllDigits(t[n + 1..]);
    }
    if |t| >= 1 && AllDigits(t) {
      assert t[..|t|] == t;
      RunStopsAt(t, Digits, |t|);
    }
    if k :| 1 <= k && k + 2 <= |t| <= k + 3 && AllDigits(t[..k]) && t[k] == '.' && AllDigits(t[k + 1..]) {
      RunStopsAt(t, Digits, k);
    }
  }

  /** The canonical text of a rate in cents: whole dollars, a point, two digits. */
  function FormatRate(cents: nat): string {
    var c := cents % 100;
    Decimal(cents / 100) + "." + [DigitChar(c / 10), DigitChar(c % 10)]
  }

  /** Two digit characters read back as the number of cents they spell. */
  lemma CentsOfDigits(c: nat)
    requires c < 100
    ensures AllDigits([DigitChar(c / 10), DigitChar(c % 10)])
    ensures Cents([DigitChar(c / 10), DigitChar(c % 10)]) == c
  {
  }

  /** A point and two digits after the whole dollars add that many cents. */
  lemma RateAfterPoint(whole: string, frac: string)
    requires AllDigits(whole)
    requires |frac| == 2 && AllDigits(frac)
    ensures RateAfter(whole, "." + frac) == Some(ParseDecimal(whole) * 100 + Cents(frac))
  {
    assert ("." + frac)[1..] == frac;
  }

  /** The run of digits at the start of `whole + "." + frac` is `whole`. */
  lemma DigitRunBeforePoint(whole: string, frac: string)
    requires AllDigits(whole)
    ensures RunLength(whole + "." + frac, Digits) == |whole|
  {
    var t := whole + "." + frac;
    assert t[..|whole|] == whole;
    RunStopsAt(t, Digits, |whole|);
  }

  /** Digits, a point and two digits scan as that many dollars and cents. */
  lemma ParseRateOfParts(whole: string, frac: string)
    requires |whole| >= 1 && AllDigits(whole)
    requires |frac| == 2 && AllDigits(frac)
    ensures ParseRate(whole + "." + frac) == Some(ParseDecimal(whole) * 100 + Cents(frac))
  {
    var t := whole + "." + frac;
    DigitRunBeforePoint(whole, frac);
    RateAfterPoint(whole, frac);
    assert t[..|whole|] == whole;
    assert t[|whole|..] == "." + frac;
    assert ParseRate(t) == RateAfter(whole, "." + frac);
  }

  /** Reading back a formatted rate gives the same number of cents. */
  lemma {:induction false} ParseFormatRate(cents: nat)
    ensures ParseRate(FormatRate(cents)) == Some(cents)
  {
    var whole := Decimal(cents / 100);
    var c := cents % 100;
    var frac := [DigitChar(c / 10), DigitChar(c % 10)];
    CentsOfDigits(c);
    ParseRateOfParts(whole, frac);
    ParseDecimalOfDecimal(cents / 100);
    Recombine(ParseDecimal(whole), Cents(frac), cents);
  }

  /** Whole dollars and the cents left over make up the amount again. */
  lemma Recombine(dollars: nat, rest: nat, cents: nat)
    requires dollars == cents / 100 && rest == cents % 100
    ensures dollars * 100 + rest == cents
  {
  }

  /** The whole pay-rate rule: present, two decimals at most, and no more than 999.99. */
  predicate PayRateValid(t: string) {
    t != "" && ParseRate(t).Some? && ParseRate(t).value <= MaxPayRateCents
  }

  /** A rate in cents passes exactly when it is at most 999.99. */
  lemma FormattedRateValidIff(cents: nat)
    ensures PayRateValid(FormatRate(cents)) <==> cents <= MaxPayRateCents
  {
    ParseFormatRate(cents);
  }

  /** The ceiling itself, "999.99", is an accepted rate. */
  lemma CeilingAccepted()
    ensures ParseRate("999.99") == Some(MaxPayRateCents) && PayRateValid("999.99")
  {
    var a := "999.99";
    RunStopsAt(a, Digits, 3);
    assert a[..3] == "999" && a[4..] == "99";
    assert ParseDecimal("999") == 999 by {
      assert "999"[..2] == "99" && "99"[..1] == "9" && "9"[..0] == "";
    }
  }

  /** "12.5" (1250 cents) and "40" are accepted rates. */
  lemma AcceptedRateExamples()
    ensures ParseRate("12.5") == Some(1250) && PayRateValid("12.5")
    ensures PayRateValid("40")
  {
    var b := "12.5";
    RunStopsAt(b, Digits, 2);
    assert b[..2] == "12" && b[3..] == "5";
    assert ParseDecimal("12") == 12 by {
      assert "12"[..1] == "1" && "1"[..0] == "";
    }
    var c := "40";
    RunStopsAt(c, Digits, 2);
    assert ParseDecimal("40") == 40 by {
      assert "40"[..1] == "4" && "4"[..0] == "";
    }
  }

  /** "1000" is over the ceiling; "-5" has a sign and "12.345" three decimals,
      so neither matches the pattern; the empty text is missing. */
  lemma RefusedRateExamples()
    ensures !PayRateValid("1000") && !PayRateValid("-5") && !PayRateValid("12.345") && !PayRateValid("")
  {
    OverCeilingRefused();
    RunStopsAt("-5", Digits, 0);
    var e := "12.345";
    RunStopsAt(e, Digits, 2);
    assert e[2..] == ".345";
  }

  lemma OverCeilingRefused()
    ensures ParseRate("1000") == Some(100000)
  {
    var d := "1000";
    RunStopsAt(d, Digits, 4);
    assert d[..4] == d && d[4..] == "";
    assert ParseDecimal("1000") == 1000 by {
      assert "1000"[..3] == "100" && "100"[..2] == "10" && "10"[..1] == "1" && "1"[..0] == "";
    }
  }

  // The form.

  datatype FormField =
    | EmpName | EmpWorkLocState | EmpWorkLocCity | ExactJobTitle | HourlyPayRate
    | PartFullTimeInd | WorkMode
    | Jms890Ind | JmsCloseGoalsInd | JmsCaseNotesInd | JmsReferralInd | JmsCloseIEPInd | JmsResumeOffInd

  /** The field values as the form holds them; the start date is not part of this model. */
  datatype Form = Form(
    empName: string, empWorkLocState: string, empWorkLocCity: string, exactJobTitle: string,
    hourlyPayRate: string, partFullTimeInd: string, workMode: string,
    jms890Ind: string, jmsCloseGoalsInd: string, jmsCaseNotesInd: string,
    jmsReferralInd: string, jmsCloseIEPInd: string, jmsResumeOffInd: string)

  const AllFields := [EmpName, EmpWorkLocState, EmpWorkLocCity, ExactJobTitle, HourlyPayRate,
                      PartFullTimeInd, WorkMode, Jms890Ind, JmsCloseGoalsInd, JmsCaseNotesInd,
                      JmsReferralInd, JmsCloseIEPInd, JmsResumeOffInd]

  predicate IsRequiredText(f: FormField) {
    f.EmpName? || f.EmpWorkLocState? || f.EmpWorkLocCity? || f.ExactJobTitle? || f.PartFullTimeInd? || f.WorkMode?
  }

  predicate IsIndicator(f: FormField) {
    !IsRequiredText(f) && !f.HourlyPayRate?
  }

  function Value(form: Form, f: FormField): string {
    match f
    case EmpName => form.empName
    case EmpWorkLocState => form.empWorkLocState
    case EmpWorkLocCity => form.empWorkLocCity
    case ExactJobTitle => form.exactJobTitle
    case HourlyPayRate => form.hourlyPayRate
    case PartFullTimeInd => form.partFullTimeInd
    case WorkMode => form.workMode
    case Jms890Ind => form.jms890Ind
    case JmsCloseGoalsInd => form.jmsCloseGoalsInd
    case JmsCaseNotesInd => form.jmsCaseNotesInd
    case JmsReferralInd => form.jmsReferralInd
    case JmsCloseIEPInd => form.jmsCloseIEPInd
    case JmsResumeOffInd => form.jmsResumeOffInd
  }

  /** `oneOf(["Y", "N"])` */
  predicate IndicatorOk(v: string) { v == "Y" || v == "N" }

  /** The schema's rule for one field. */
  predicate FieldOk(form: Form, f: FormField) {
    match f
    case HourlyPayRate => PayRateValid(form.hourlyPayRate)
    case Jms890Ind => IndicatorOk(form.jms890Ind)
    case JmsCloseGoalsInd => IndicatorOk(form.jmsCloseGoalsInd)
    case JmsCaseNotesInd => IndicatorOk(form.jmsCaseNotesInd)
    case JmsReferralInd => IndicatorOk(form.jmsReferralInd)
    case JmsCloseIEPInd => IndicatorOk(form.jmsCloseIEPInd)
    case JmsResumeOffInd => IndicatorOk(form.jmsResumeOffInd)
    case EmpName => form.empName != ""
    case EmpWorkLocState => form.empWorkLocState != ""
    case EmpWorkLocCity => form.empWorkLocCity != ""
    case ExactJobTitle => form.exactJobTitle != ""
    case PartFullTimeInd => form.partFullTimeInd != ""
    case WorkMode => form.workMode != ""
  }

  /** The field list names every field of the form. */
  lemma AllFieldsListed()
    ensures forall f :: f in AllFields
  {
    forall f ensures f in AllFields {
      match f
      case EmpName => assert AllFields[0] == f;
      case EmpWorkLocState => assert AllFields[1] == f;
      case EmpWorkLocCity => assert AllFields[2] == f;
      case ExactJobTitle => assert AllFields[3] == f;
      case HourlyPayRate => assert AllFields[4] == f;
      case PartFullTimeInd => assert AllFields[5] == f;
      case WorkMode => assert AllFields[6] == f;
      case Jms890Ind => assert AllFields[7] == f;
      case JmsCloseGoalsInd => assert AllFields[8] == f;
      case JmsCaseNotesInd => assert AllFields[9] == f;
      case JmsReferralInd => assert AllFields[10] == f;
      case JmsCloseIEPInd => assert AllFields[11] == f;
      case JmsResumeOffInd => assert AllFields[12] == f;
    }
  }

  /** The fields the schema rejects. */
  function Errors(form: Form): (errs: set<FormField>)
    ensures forall f :: f in errs <==> !FieldOk(form, f)
  {
    AllFieldsListed();
    set f | f in AllFields && !FieldOk(form, f)
  }

  /** The schema's rules, stated field by field. */
  predicate AllRulesMet(form: Form) {
    && form.empName != "" && form.empWorkLocState != "" && form.empWorkLocCity != ""
    && form.exactJobTitle != "" && form.partFullTimeInd != "" && form.workMode != ""
    && PayRateValid(form.hourlyPayRate)
    && IndicatorOk(form.jms890Ind) && IndicatorOk(form.jmsCloseGoalsInd)
    && IndicatorOk(form.jmsCaseNotesInd) && IndicatorOk(form.jmsReferralInd)
    && IndicatorOk(form.jmsCloseIEPInd) && IndicatorOk(form.jmsResumeOffInd)
  }

  lemma FieldOkWhenRulesMet(form: Form, f: FormField)
    requires AllRulesMet(form)
    ensures FieldOk(form, f)
  {
    match f
    case EmpName =>
    case EmpWorkLocState =>
    case EmpWorkLocCity =>
    case ExactJobTitle =>
    case HourlyPayRate =>
    case PartFullTimeInd =>
    case WorkMode =>
    case Jms890Ind =>
    case JmsCloseGoalsInd =>
    case JmsCaseNotesInd =>
    case JmsReferralInd =>
    case JmsCloseIEPInd =>
    case JmsResumeOffInd =>
  }

  lemma EveryFieldOkIff(form: Form)
    ensures (forall f :: FieldOk(form, f)) <==> AllRulesMet(form)
  {
    if AllRulesMet(form) {
      forall f ensures FieldOk(form, f) {
        FieldOkWhenRulesMet(form, f);
      }
    }
    if forall f :: FieldOk(form, f) {
      RulesMetWhenFieldsOk(form);
    }
  }

  lemma RulesMetWhenFieldsOk(form: Form)
    requires forall f :: FieldOk(form, f)
    ensures AllRulesMet(form)
  {
    assert FieldOk(form, EmpName) && FieldOk(form, EmpWorkLocState) && FieldOk(form, EmpWorkLocCity);
    assert FieldOk(form, ExactJobTitle) && FieldOk(form, PartFullTimeInd) && FieldOk(form, WorkMode);
    assert FieldOk(form, HourlyPayRate);
    assert FieldOk(form, Jms890Ind) && FieldOk(form, JmsCloseGoalsInd) && FieldOk(form, JmsCaseNotesInd);
    assert FieldOk(form, JmsReferralInd) && FieldOk(form, JmsCloseIEPInd) && FieldOk(form, JmsResumeOffInd);
  }

  /** The form is accepted exactly when the six required texts are filled in,
      the pay rate is valid and each indicator is "Y" or "N". */
  lemma AcceptedIff(form: Form)
    ensures Errors(form) == {} <==> AllRulesMet(form)
  {
    var e := Errors(form);
    if e != {} {
      var f :| f in e;
      assert !FieldOk(form, f);
    }
    EveryFieldOkIff(form);
  }

  /** Every text field starts empty and every indicator starts at "N". */
  const DefaultForm := Form("", "", "", "", "", "", "", "N", "N", "N", "N", "N", "N")

  /** An untouched form is refused for the six required texts and the pay rate,
      and for nothing else: its indicators already satisfy their rule. */
  lemma DefaultFormErrors()
    ensures forall f :: f in Errors(DefaultForm) <==> IsRequiredText(f) || f == HourlyPayRate
  {
    var form := DefaultForm;
    forall f ensures !FieldOk(form, f) <==> IsRequiredText(f) || f == HourlyPayRate {
      if IsRequiredText(f) {
        assert Value(form, f) == "";
      } else if f == HourlyPayRate {
        assert !PayRateValid(form.hourlyPayRate);
      } else {
        assert Value(form, f) == "N";
      }
    }
  }

  // The checkboxes.

  /** What a checkbox's change handler stores: "Y" when ticked, "N" otherwise. */
  function StoredValue(checked: bool): (v: string)
    ensures IndicatorOk(v)
    ensures checked <==> v == "Y"
  {
    if checked then "Y" else "N"
  }

  /** Whether a checkbox is drawn ticked for a stored value. */
  predicate IsChecked(v: string) { v == "Y" }

  /** Drawing what was stored gives back the tick, and storing what is drawn
      gives back any value the indicator rule allows. */
  lemma CheckboxRoundTrip(checked: bool, v: string)
    ensures IsChecked(StoredValue(checked)) == checked
    ensures IndicatorOk(v) ==> StoredValue(IsChecked(v)) == v
  {
  }

  /** Ticking or clearing an indicator's checkbox: that indicator takes the
      stored value, every other field keeps its value. */
  function SetIndicator(form: Form, f: FormField, checked: bool): (r: Form)
    requires IsIndicator(f)
    ensures Value(r, f) == StoredValue(checked)
    ensures forall g :: g != f ==> Value(r, g) == Value(form, g)
  {
    var v := StoredValue(checked);
    match f
    case Jms890Ind => form.(jms890Ind := v)
    case JmsCloseGoalsInd => form.(jmsCloseGoalsInd := v)
    case JmsCaseNotesInd => form.(jmsCaseNotesInd := v)
    case JmsReferralInd => form.(jmsReferralInd := v)
    case JmsCloseIEPInd => form.(jmsCloseIEPInd := v)
    case JmsResumeOffInd => form.(jmsResumeOffInd := v)
  }

  /** A checkbox change never breaks the indicator rules: if every indicator
      is "Y" or "N" before it, every indicator is "Y" or "N" after it. */
  lemma {:induction false} CheckboxesKeepIndicatorsValid(form: Form, f: FormField, checked: bool)
    requires IsIndicator(f)
    requires forall g :: IsIndicator(g) ==> IndicatorOk(Value(form, g))
    ensures forall g :: IsIndicator(g) ==> IndicatorOk(Value(SetIndicator(form, f, checked), g))
    ensures IsChecked(Value(SetIndicator(form, f, checked), f)) == checked
  {
    var r := SetIndicator(form, f, checked);
    forall g | IsIndicator(g) ensures IndicatorOk(Value(r, g)) {
      if g == f {
        assert Value(r, g) == StoredValue(checked);
      } else {
        assert Value(r, g) == Value(form, g);
      }
    }
  }
}
