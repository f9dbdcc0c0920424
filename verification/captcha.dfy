/** The captcha rule shared by the password-reset and recovery pages. The
    challenge is generated at random and is therefore a parameter here. The
    schema passes the challenge to `matches` as a string, which the browser
    compiles into an unanchored regular expression; for a challenge made of
    letters and digits (the base-36 characters `Math.random().toString(36)`
    produces) that pattern matches exactly when the challenge occurs as a
    contiguous block of the input. */
module Captcha {
  import opened Text

  predicate IsAlphanumeric(s: string) {
    forall i :: 0 <= i < |s| ==> IsDigit(s[i]) || IsLower(s[i]) || IsUpper(s[i])
  }

  /** `required` followed by `matches(challenge)`. The match is a search,
      not an equality: the input is accepted when it is non-empty and the
      challenge occurs in it at some position. */
  predicate Accepts(input: string, challenge: string): (ok: bool)
    requires IsAlphanumeric(challenge)
    ensures ok <==> input != "" && exists k :: OccursAt(input, challenge, k)
  {
    input != "" && Contains(input, challenge)
  }

  /** Surrounding text never turns an accepted input into a refused one. */
  lemma {:induction false} AcceptsWithSurroundingText(before: string, challenge: string, after: string)
    requires IsAlphanumeric(challenge)
    requires before + challenge + after != ""
    ensures Accepts(before + challenge + after, challenge)
  {
    var s := before + challenge + after;
    assert s[|before|..|before| + |challenge|] == challenge;
    assert OccursAt(s, challenge, |before|);
  }

  /** With the challenge "k3x9" the typed value "k3x9" passes, and so does
      "xxk3x9yy". */
  lemma AcceptedExamples()
    ensures Accepts("k3x9", "k3x9")
    ensures Accepts("xxk3x9yy", "k3x9")
  {
    AcceptsWithSurroundingText("", "k3x9", "");
    assert "" + "k3x9" + "" == "k3x9";
    AcceptsWithSurroundingText("xx", "k3x9", "yy");
    assert "xx" + "k3x9" + "yy" == "xxk3x9yy";
  }

  /** A value shorter than the challenge, the empty one included, is refused. */
  lemma RefusedExamples()
    ensures !Accepts("k3x", "k3x9")
    ensures !Accepts("", "k3x9")
  {
  }
}
