/** Application constants (lib/constants.ts) whose values carry an invariant, and the
    phone pattern `^[\d\s\-\+\(\)]{10,}$`. */
module Constants {
  import opened Text
  import Validators

  // ---------------------------------------------------------------------------
  // Layering, breakpoints, HTTP statuses, cache lifetimes
  // ---------------------------------------------------------------------------

  /** `Z_INDEX` in declaration order: BASE, DROPDOWN, STICKY, FIXED, MODAL_BACKDROP, MODAL,
      TOOLTIP, NOTIFICATION, DEBUGGER. */
  const ZIndex: seq<int> := [0, 10, 20, 30, 40, 50, 60, 70, 9999]

  /** `BREAKPOINTS` in declaration order: xs, sm, md, lg, xl, 2xl (pixels). */
  const Breakpoints: seq<int> := [320, 640, 768, 1024, 1280, 1536]

  const HttpOk := 200
  const HttpCreated := 201
  const HttpAccepted := 202
  const HttpBadRequest := 400
  const HttpUnauthorized := 401
  const HttpForbidden := 403
  const HttpNotFound := 404
  const HttpInternalServerError := 500
  const HttpServiceUnavailable := 503

  /** `CACHE` lifetimes in milliseconds, written as the products the source uses. */
  const TtlShort := 5 * 60 * 1000
  const TtlMedium := 30 * 60 * 1000
  const TtlLong := 24 * 60 * 60 * 1000

  predicate StrictlyIncreasing(s: seq<int>)
  {
    forall i, j :: 0 <= i < j < |s| ==> s[i] < s[j]
  }

  /** Adjacent-pair check of a strict order. */
  predicate StepsUp(s: seq<int>)
  {
    forall i :: 0 <= i < |s| - 1 ==> s[i] < s[i + 1]
  }

  /** Increasing at every step is increasing between any two positions. */
  lemma {:induction false} StepsUpIsIncreasing(s: seq<int>)
    requires StepsUp(s)
    ensures StrictlyIncreasing(s)
  {
    if |s| > 1 {
      StepsUpIsIncreasing(s[1..]);
      forall i, j | 0 <= i < j < |s|
        ensures s[i] < s[j]
      {
        if i > 0 {
          assert s[1..][i - 1] < s[1..][j - 1];
        } else if j > 1 {
          assert s[1..][0] < s[1..][j - 1];
        }
      }
    }
  }

  /** The z-index layers and the breakpoints each increase strictly in declaration order. */
  lemma ScalesIncrease()
    ensures StrictlyIncreasing(ZIndex)
    ensures StrictlyIncreasing(Breakpoints)
  {
    StepsUpIsIncreasing(ZIndex);
    StepsUpIsIncreasing(Breakpoints);
  }

  /** The three cache lifetimes are 5 minutes, 30 minutes and 24 hours, increasing. */
  lemma CacheLifetimes()
    ensures TtlShort == 300000 && TtlMedium == 1800000 && TtlLong == 86400000
    ensures TtlShort < TtlMedium < TtlLong
  {
  }

  // ---------------------------------------------------------------------------
  // Validation patterns
  // ---------------------------------------------------------------------------

  /** The source text of `VALIDATION.EMAIL`. */
  const EmailPatternSource := "^[^\\s@]+@[^\\s@]+\\.[^\\s@]+$"

  /** `VALIDATION.EMAIL` is character for character the validators' email pattern, so the
      two accept the same strings: the validators' matcher serves for both. */
  lemma EmailPatternsAgree()
    ensures EmailPatternSource == Validators.EmailPatternSource
  {
  }

  /** The class `[\d\s\-\+\(\)]`. */
  predicate IsPhoneChar(c: char)
  {
    IsDigit(c) || IsWhitespace(c) || c == '-' || c == '+' || c == '(' || c == ')'
  }

  /** The language of `VALIDATION.PHONE`: ten or more characters of the class. */
  predicate PhonePattern(s: string)
  {
    |s| >= 10 && forall i :: 0 <= i < |s| ==> IsPhoneChar(s[i])
  }

  /** A scanning matcher for the phone pattern. */
  method MatchPhone(s: string) returns (ok: bool)
    ensures ok <==> PhonePattern(s)
  {
    if |s| < 10 {
      return false;
    }
    var i := 0;
    while i < |s|
      invariant 0 <= i <= |s|
      invariant forall j :: 0 <= j < i ==> IsPhoneChar(s[j])
    {
      if !IsPhoneChar(s[i]) {
        return false;
      }
      i := i + 1;
    }
    return true;
  }

  /** Examples: a formatted North-American number matches; nine digits do not; a letter
      anywhere does not. */
  lemma PhoneExamples()
    ensures PhonePattern("+1 (403) 555-0199")
    ensures !PhonePattern("403555019")
    ensures !PhonePattern("403555019x")
  {
    assert !IsPhoneChar("403555019x"[9]);
  }
}
