/** Form validators (lib/validators.ts): `email`, `required`, `minLength`. The email
    validator is the regular expression `^[^\s@]+@[^\s@]+\.[^\s@]+$`; it is modelled by a
    scanning matcher proved equivalent to a direct reading of the pattern. */
module Validators {
  import opened Text

  /** The source text of `PATTERNS.EMAIL`. */
  const EmailPatternSource := "^[^\\s@]+@[^\\s@]+\\.[^\\s@]+$"

  /** The class `[^\s@]`. */
  predicate IsAtom(c: char)
  {
    !IsWhitespace(c) && c != '@'
  }

  /** `[^\s@]*` over the whole string. */
  predicate AllAtoms(s: string)
  {
    forall i :: 0 <= i < |s| ==> IsAtom(s[i])
  }

  /** The language of the email pattern read off the regular expression: a non-empty
      local part, `@`, a non-empty domain label, a literal `.`, a non-empty rest, with
      neither whitespace nor `@` in the three parts. `p` is the `@`, `q` the `.`. */
  ghost predicate EmailPattern(s: string)
  {
    exists p, q :: 0 < p && p + 1 < q && q + 1 < |s| && s[p] == '@' && s[q] == '.' &&
      AllAtoms(s[..p]) && AllAtoms(s[p + 1..q]) && AllAtoms(s[q + 1..])
  }

  /** The first position of `c` in `s`, if any. */
  function IndexOf(s: string, c: char): (r: Option<nat>)
    ensures r.Some? ==> r.value < |s| && s[r.value] == c && c !in s[..r.value]
    ensures r.None? ==> c !in s
  {
    if |s| == 0 then None
    else if s[0] == c then Some(0)
    else
      match IndexOf(s[1..], c)
      case None => None
      case Some(i) =>
        assert s[..i + 1] == [s[0]] + s[1..][..i];
        Some(i + 1)
  }

  /** `validators.email`: split at the first `@`; the local part must be non-empty and the
      domain must have a `.` that is neither its first nor its last character. */
  function Email(s: string): bool
  {
    match IndexOf(s, '@')
    case None => false
    case Some(p) =>
      var domain := s[p + 1..];
      && p > 0
      && AllAtoms(s[..p])
      && AllAtoms(domain)
      && |domain| >= 3
      && '.' in domain[1..|domain| - 1]
  }

  /** The matcher accepts exactly the strings of the regular expression. */
  lemma EmailIsPattern(s: string)
    ensures Email(s) <==> EmailPattern(s)
  {
    if Email(s) {
      EmailSound(s);
    }
    if EmailPattern(s) {
      var p, q :| 0 < p && p + 1 < q && q + 1 < |s| && s[p] == '@' && s[q] == '.' &&
        AllAtoms(s[..p]) && AllAtoms(s[p + 1..q]) && AllAtoms(s[q + 1..]);
      EmailComplete(s, p, q);
    }
  }

  lemma EmailSound(s: string)
    requires Email(s)
    ensures EmailPattern(s)
  {
    var p := IndexOf(s, '@').value;
    var domain := s[p + 1..];
    var inner := domain[1..|domain| - 1];
    var k :| 0 <= k < |inner| && inner[k] == '.';
    var q := p + 2 + k;
    assert s[q] == '.';
    assert s[p + 1..q] == domain[..k + 1];
    assert s[q + 1..] == domain[k + 2..];
    assert AllAtoms(s[p + 1..q]);
    assert AllAtoms(s[q + 1..]);
  }

  lemma EmailComplete(s: string, p: nat, q: nat)
    requires 0 < p && p + 1 < q && q + 1 < |s| && s[p] == '@' && s[q] == '.'
    requires AllAtoms(s[..p]) && AllAtoms(s[p + 1..q]) && AllAtoms(s[q + 1..])
    ensures Email(s)
  {
    FirstAt(s, p);
    var domain := s[p + 1..];
    assert domain == s[p + 1..q] + ['.'] + s[q + 1..];
    assert AllAtoms(domain);
    assert domain[1..|domain| - 1][q - p - 2] == '.';
  }

  /** An `@` with no `@` before it is the first one. */
  lemma FirstAt(s: string, p: nat)
    requires p < |s| && s[p] == '@' && AllAtoms(s[..p])
    ensures IndexOf(s, '@') == Some(p)
  {
    assert '@' !in s[..p];
    assert s[..p + 1] == s[..p] + ['@'];
  }

  /** The empty string and every string containing whitespace are rejected. */
  lemma EmailRejects(s: string)
    requires s == "" || HasWhitespace(s)
    ensures !Email(s)
  {
    if s != "" && IndexOf(s, '@').Some? {
      var p := IndexOf(s, '@').value;
      var i :| 0 <= i < |s| && IsWhitespace(s[i]);
      if i < p {
        assert s[..p][i] == s[i];
        assert !AllAtoms(s[..p]);
      } else if i > p {
        assert s[p + 1..][i - p - 1] == s[i];
        assert !AllAtoms(s[p + 1..]);
      }
    }
  }

  // ---------------------------------------------------------------------------
  // required and minLength
  // ---------------------------------------------------------------------------

  /** `String.prototype.trimStart` over ASCII whitespace. */
  function TrimStart(s: string): (r: string)
    ensures |r| <= |s| && r == s[|s| - |r|..]
    ensures forall i :: 0 <= i < |s| - |r| ==> IsWhitespace(s[i])
    ensures |r| > 0 ==> !IsWhitespace(r[0])
  {
    if |s| > 0 && IsWhitespace(s[0]) then TrimStart(s[1..]) else s
  }

  /** `String.prototype.trimEnd` over ASCII whitespace. */
  function TrimEnd(s: string): (r: string)
    ensures |r| <= |s| && r == s[..|r|]
    ensures forall i :: |r| <= i < |s| ==> IsWhitespace(s[i])
    ensures |r| > 0 ==> !IsWhitespace(r[|r| - 1])
  {
    if |s| > 0 && IsWhitespace(s[|s| - 1]) then TrimEnd(s[..|s| - 1]) else s
  }

  function Trim(s: string): string
  {
    TrimEnd(TrimStart(s))
  }

  /** `validators.required`: something is left after trimming. */
  predicate Required(v: string)
  {
    |Trim(v)| > 0
  }

  /** `validators.minLength`; `length` is any number the caller passes. */
  predicate MinLength(v: string, length: int)
  {
    |v| >= length
  }

  /** `required` holds exactly when the value has a non-whitespace character, so a value
      of blanks fails. */
  lemma RequiredIffVisible(v: string)
    ensures Required(v) <==> exists i :: 0 <= i < |v| && !IsWhitespace(v[i])
  {
    var t := TrimStart(v);
    if exists i :: 0 <= i < |v| && !IsWhitespace(v[i]) {
      var i :| 0 <= i < |v| && !IsWhitespace(v[i]);
      assert |t| > 0;
      assert |TrimEnd(t)| > 0;
    }
    if Required(v) {
      var u := Trim(v);
      assert u[0] == t[0] == v[|v| - |t|];
    }
  }

  lemma MinLengthFacts(v: string, n: int, m: int)
    ensures MinLength(v, 0)
    ensures n <= m && MinLength(v, m) ==> MinLength(v, n)
  {
  }

  /** A required value has length at least one. */
  lemma RequiredImpliesMinLength(v: string)
    requires Required(v)
    ensures MinLength(v, 1)
  {
    RequiredIffVisible(v);
  }

  /** Every accepted email is also a required-field value. */
  lemma EmailImpliesRequired(s: string)
    requires Email(s)
    ensures Required(s)
  {
    var p := IndexOf(s, '@').value;
    assert s[..p][0] == s[0];
    RequiredIffVisible(s);
  }
}
