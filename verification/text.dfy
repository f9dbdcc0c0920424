/** Character classes, substring search and decimal numerals shared by the
    form validators. The source states its rules as JavaScript regular
    expressions without the `u` flag, so every class here is ASCII-only. */
module Text {

  /** `[0-9]`, and `\d` in a non-Unicode JavaScript pattern. */
  predicate IsDigit(c: char) { '0' <= c <= '9' }

  /** `[a-z]` */
  predicate IsLower(c: char) { 'a' <= c <= 'z' }

  /** `[A-Z]` */
  predicate IsUpper(c: char) { 'A' <= c <= 'Z' }

  /** `\w`: ASCII letters, digits and the underscore. */
  predicate IsWordChar(c: char) { IsDigit(c) || IsLower(c) || IsUpper(c) || c == '_' }

  /** The bracket classes a greedy `+` runs over in the patterns of this model. */
  datatype CharClass =
    | Digits      // `\d`
    | EmailLocal  // `[a-zA-Z0-9._-]`

  predicate InClass(c: char, cls: CharClass) {
    match cls
    case Digits => IsDigit(c)
    case EmailLocal => IsLower(c) || IsUpper(c) || IsDigit(c) || c == '.' || c == '_' || c == '-'
  }

  predicate AllIn(s: string, cls: CharClass) {
    forall i :: 0 <= i < |s| ==> InClass(s[i], cls)
  }

  predicate AllDigits(s: string) {
    AllIn(s, Digits)
  }

  /** Length of the longest prefix of `s` inside the class: what a greedy
      `[...]+` consumes before the rest of the pattern is tried. */
  function RunLength(s: string, cls: CharClass): (n: nat)
    ensures n <= |s|
    ensures AllIn(s[..n], cls)
    ensures n < |s| ==> !InClass(s[n], cls)
  {
    if s == [] || !InClass(s[0], cls) then 0
    else
      var m := RunLength(s[1..], cls);
      assert s[..m + 1] == [s[0]] + s[1..][..m];
      m + 1
  }

  /** A run ended by a character outside the class, or by the end of the
      text, has exactly that length. */
  lemma RunStopsAt(s: string, cls: CharClass, k: nat)
    requires k <= |s| && AllIn(s[..k], cls) && (k < |s| ==> !InClass(s[k], cls))
    ensures RunLength(s, cls) == k
  {
    var n := RunLength(s, cls);
    assert forall i :: 0 <= i < k ==> s[..k][i] == s[i];
    assert forall i :: 0 <= i < n ==> s[..n][i] == s[i];
  }

  predicate StartsWith(s: string, prefix: string) {
    |prefix| <= |s| && s[..|prefix|] == prefix
  }

  /** `c` occurs in `s` as a contiguous block starting at index `k`. */
  predicate OccursAt(s: string, c: string, k: int) {
    0 <= k && k + |c| <= |s| && s[k..k + |c|] == c
  }

  lemma OccursAtTail(s: string, c: string, k: int)
    requires |s| > 0 && 0 <= k
    ensures OccursAt(s[1..], c, k) <==> OccursAt(s, c, k + 1)
  {
    if 0 <= k && k + |c| <= |s| - 1 {
      assert s[1..][k..k + |c|] == s[k + 1..k + 1 + |c|];
    }
  }

  /** Substring search as a left-to-right scan: the result says that `c`
      occurs somewhere in `s`, exactly when an occurrence exists. */
  function Contains(s: string, c: string): (b: bool)
    ensures b <==> exists k :: OccursAt(s, c, k)
    decreases |s|
  {
    if |s| < |c| then
      false
    else if StartsWith(s, c) then
      assert OccursAt(s, c, 0);
      true
    else
      var rest := Contains(s[1..], c);
      assert rest <==> exists k :: OccursAt(s, c, k) by {
        forall k | OccursAt(s, c, k)
          ensures OccursAt(s[1..], c, k - 1)
        {
          assert k != 0;
          OccursAtTail(s, c, k - 1);
        }
        forall k | OccursAt(s[1..], c, k)
          ensures OccursAt(s, c, k + 1)
        {
          OccursAtTail(s, c, k);
        }
      }
      rest
  }

  /** The numeric value of a decimal digit. */
  function DigitValue(c: char): (d: nat)
    requires IsDigit(c)
    ensures d < 10
  {
    (c as int - '0' as int) as nat
  }

  function DigitChar(d: nat): (c: char)
    requires d < 10
    ensures IsDigit(c) && DigitValue(c) == d
  {
    ('0' as int + d) as char
  }

  /** The value of a decimal numeral, most significant digit first; leading
      zeros contribute nothing. */
  function ParseDecimal(s: string): nat
    requires AllDigits(s)
  {
    if s == [] then 0
    else ParseDecimal(s[..|s| - 1]) * 10 + DigitValue(s[|s| - 1])
  }

  /** The shortest decimal numeral of `n`, as JavaScript's `Number.prototype.toString`
      writes a non-negative integer below 10^21 (from there on it switches to
      exponent notation, which is not modelled). */
  function Decimal(n: nat): (s: string)
    ensures |s| >= 1 && AllDigits(s)
    ensures |s| == 1 <==> n < 10
    ensures n >= 10 ==> s[0] != '0'
  {
    if n < 10 then [DigitChar(n)] else Decimal(n / 10) + [DigitChar(n % 10)]
  }

  /** Rendering then parsing a numeral gives back the number. */
  lemma {:induction false} ParseDecimalOfDecimal(n: nat)
    ensures ParseDecimal(Decimal(n)) == n
  {
    var s := Decimal(n);
    if n >= 10 {
      assert s[..|s| - 1] == Decimal(n / 10);
      ParseDecimalOfDecimal(n / 10);
    }
  }
}
