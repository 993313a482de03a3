/** The contact form (components/portfolio/contact-section.tsx): three controlled fields
    and a simulated submission. Submitting sets `isSubmitting` and schedules a completion
    timeout; nothing is sent anywhere. */
module ContactSection {
  import opened Text
  import V = Validators

  datatype Field = Name | Email | Message

  datatype FormFields = FormFields(name: string, email: string, message: string)
  {
    function Get(f: Field): string
    {
      match f
      case Name => name
      case Email => email
      case Message => message
    }
  }

  const Blank := FormFields("", "", "")

  /** `pending` counts the completion timeouts scheduled and not yet fired. */
  datatype Contact = Contact(form: FormFields, isSubmitting: bool, pending: nat)

  const Init := Contact(Blank, false, 0)

  /** An input's `onChange`: the edited field takes the new value. */
  function Edit(c: Contact, f: Field, value: string): (r: Contact)
    ensures r.form.Get(f) == value
    ensures forall g :: g != f ==> r.form.Get(g) == c.form.Get(g)
    ensures r.isSubmitting == c.isSubmitting && r.pending == c.pending
  {
    match f
    case Name => c.(form := c.form.(name := value))
    case Email => c.(form := c.form.(email := value))
    case Message => c.(form := c.form.(message := value))
  }

  /** `handleSubmit`: mark submitting and schedule the completion. The fields are kept. */
  function Submit(c: Contact): (r: Contact)
    ensures r.isSubmitting && r.form == c.form
    ensures r.pending == c.pending + 1
  {
    c.(isSubmitting := true, pending := c.pending + 1)
  }

  /** The completion timeout fires: not submitting, all fields blank, whatever was typed
      while it was pending. */
  function Complete(c: Contact): (r: Contact)
    ensures c.pending > 0 ==> !r.isSubmitting && r.form == Blank && r.pending == c.pending - 1
    ensures c.pending == 0 ==> r == c
  {
    if c.pending == 0 then c else Contact(Blank, false, c.pending - 1)
  }

  /** The submit button: disabled and labelled "Transmitting..." iff submitting. */
  datatype Button = Button(disabled: bool, caption: string)

  function SubmitButton(c: Contact): (b: Button)
    ensures b.disabled <==> c.isSubmitting
    ensures b.caption == "Transmitting..." <==> c.isSubmitting
    ensures !c.isSubmitting ==> b.caption == "Send Message"
  {
    if c.isSubmitting then Button(true, "Transmitting...") else Button(false, "Send Message")
  }

  // ---------------------------------------------------------------------------
  // The browser's constraint validation of the form
  // ---------------------------------------------------------------------------

  /** ASCII whitespace as the HTML standard defines it: tab, line feed, form feed,
      carriage return and space (no vertical tab, unlike `\s`). */
  predicate IsHtmlSpace(c: char)
  {
    c == '\t' || c == '\n' || c == '\U{000C}' || c == '\r' || c == ' '
  }

  /** "Strip newlines": every line feed and carriage return removed. */
  function StripNewlines(s: string): (r: string)
    ensures '\n' !in r && '\r' !in r
  {
    DropCharSubset(DropChar(s, '\n'), '\r');
    DropChar(DropChar(s, '\n'), '\r')
  }

  function StripLeading(s: string): (r: string)
    ensures |r| <= |s| && r == s[|s| - |r|..]
    ensures forall i :: 0 <= i < |s| - |r| ==> IsHtmlSpace(s[i])
    ensures |r| > 0 ==> !IsHtmlSpace(r[0])
  {
    if |s| > 0 && IsHtmlSpace(s[0]) then StripLeading(s[1..]) else s
  }

  function StripTrailing(s: string): (r: string)
    ensures |r| <= |s| && r == s[..|r|]
    ensures forall i :: |r| <= i < |s| ==> IsHtmlSpace(s[i])
    ensures |r| > 0 ==> !IsHtmlSpace(r[|r| - 1])
  {
    if |s| > 0 && IsHtmlSpace(s[|s| - 1]) then StripTrailing(s[..|s| - 1]) else s
  }

  /** The value sanitization of an `<input type="email">`: strip newlines, then strip
      leading and trailing ASCII whitespace. */
  function SanitizeEmail(s: string): string
  {
    StripTrailing(StripLeading(StripNewlines(s)))
  }

  predicate IsLetDig(c: char)
  {
    'a' <= c <= 'z' || 'A' <= c <= 'Z' || '0' <= c <= '9'
  }

  /** The characters allowed in the local part of a valid e-mail address besides `.`. */
  predicate IsAText(c: char)
  {
    || IsLetDig(c)
    || c == '!' || c == '#' || c == '$' || c == '%' || c == '&' || c == '\'' || c == '*'
    || c == '+' || c == '/' || c == '=' || c == '?' || c == '^' || c == '_' || c == '`'
    || c == '{' || c == '|' || c == '}' || c == '~' || c == '-'
  }

  /** A domain label: 1 to 63 letters, digits and hyphens, starting and ending with a
      letter or digit. */
  predicate IsLabel(l: string)
  {
    && 1 <= |l| <= 63
    && IsLetDig(l[0]) && IsLetDig(l[|l| - 1])
    && forall i :: 0 <= i < |l| ==> IsLetDig(l[i]) || l[i] == '-'
  }

  /** One or more labels separated by single dots. Labels hold no dot, so splitting at
      the first dot is the only way to split. */
  function IsDomain(d: string): bool
    decreases |d|
  {
    match V.IndexOf(d, '.')
    case None => IsLabel(d)
    case Some(k) => IsLabel(d[..k]) && IsDomain(d[k + 1..])
  }

  /** A "valid e-mail address" of the HTML standard (the value an `<input type="email">`
      accepts): a non-empty local part of atext characters and dots, `@`, and a domain. */
  function IsValidEmailAddress(s: string): bool
  {
    match V.IndexOf(s, '@')
    case None => false
    case Some(p) =>
      && p > 0
      && (forall i :: 0 <= i < p ==> IsAText(s[i]) || s[i] == '.')
      && IsDomain(s[p + 1..])
  }

  /** The form passes constraint validation: each of the three `required` controls has a
      non-empty value after its sanitization (newlines stripped for the text input; none
      for the textarea), and the email control's value is a valid e-mail address. The form
      has no `noValidate`, so a form that fails is not submitted. */
  predicate Submittable(f: FormFields)
  {
    && StripNewlines(f.name) != ""
    && f.message != ""
    && SanitizeEmail(f.email) != ""
    && IsValidEmailAddress(SanitizeEmail(f.email))
  }

  /** A submission from the page. The browser first validates the form and blocks an
      invalid one; the button, and with it the form's implicit submission, is disabled
      while submitting. Only an idle, valid form reaches `handleSubmit`. */
  function Press(c: Contact): (r: Contact)
    ensures r.pending == c.pending + 1 <==> !c.isSubmitting && Submittable(c.form)
    ensures r.pending == c.pending + 1 ==> r.isSubmitting && r.form == c.form
    ensures r.pending != c.pending + 1 ==> r == c
  {
    if SubmitButton(c).disabled || !Submittable(c.form) then c else Submit(c)
  }

  /** The initial blank form cannot be submitted, and neither can a form whose email
      field has no `@`. */
  lemma BlankFormBlocked(c: Contact)
    ensures Press(Init) == Init
    ensures '@' !in c.form.email ==> Press(c) == c
  {
    if '@' !in c.form.email {
      SanitizeKeepsOut(c.form.email, '@');
      NoAtInvalid(SanitizeEmail(c.form.email));
    }
  }

  lemma NoAtInvalid(s: string)
    requires '@' !in s
    ensures !IsValidEmailAddress(s)
  {
  }

  /** Sanitization only removes characters: one absent before is absent after. */
  lemma SanitizeKeepsOut(s: string, c: char)
    requires c !in s
    ensures c !in SanitizeEmail(s)
  {
    DropCharSubset(s, '\n');
    DropCharSubset(DropChar(s, '\n'), '\r');
    var t := StripNewlines(s);
    assert c !in t;
    var u := StripLeading(t);
    assert c !in u;
  }

  lemma {:induction false} DropCharSubset(s: string, d: char)
    ensures forall x :: x in DropChar(s, d) ==> x in s
  {
    if |s| > 0 {
      DropCharSubset(s[1..], d);
    }
  }

  /** Every character of a domain is a letter, digit, hyphen or dot, and a domain is never
      empty. */
  lemma {:induction false} DomainChars(d: string)
    requires IsDomain(d)
    ensures |d| > 0
    ensures forall i :: 0 <= i < |d| ==> IsLetDig(d[i]) || d[i] == '-' || d[i] == '.'
    decreases |d|
  {
    match V.IndexOf(d, '.')
    case None =>
    case Some(k) =>
      DomainChars(d[k + 1..]);
      forall i | 0 <= i < |d|
        ensures IsLetDig(d[i]) || d[i] == '-' || d[i] == '.'
      {
        if i < k {
          assert d[i] == d[..k][i];
        } else if i > k {
          assert d[i] == d[k + 1..][i - k - 1];
        }
      }
  }

  /** Whatever the browser accepts as an e-mail address with a dot in its domain, the
      site's own email validator accepts too. */
  lemma BrowserValidIsSiteValid(s: string)
    requires IsValidEmailAddress(s)
    requires '.' in s[V.IndexOf(s, '@').value + 1..]
    ensures V.Email(s)
  {
    var p := ValidParts(s);
    var d := s[p + 1..];
    LocalAtoms(s, p);
    DomainAtoms(d);
    EmailFromParts(s, p, d);
  }

  /** The parts of a valid e-mail address: its first `@` and what lies on either side. */
  lemma ValidParts(s: string) returns (p: nat)
    requires IsValidEmailAddress(s)
    ensures V.IndexOf(s, '@') == Some(p) && 0 < p < |s|
    ensures forall i :: 0 <= i < p ==> IsAText(s[i]) || s[i] == '.'
    ensures IsDomain(s[p + 1..])
  {
    p := V.IndexOf(s, '@').value;
  }

  /** The site's validator accepts a first `@` after a non-empty atom local part and
      before an atom domain with a dot strictly inside it. */
  lemma EmailFromParts(s: string, p: nat, d: string)
    requires V.IndexOf(s, '@') == Some(p) && 0 < p < |s| && d == s[p + 1..]
    requires V.AllAtoms(s[..p]) && V.AllAtoms(d) && |d| >= 3 && '.' in d[1..|d| - 1]
    ensures V.Email(s)
  {
  }

  /** The local part of a valid address is made of atoms of the site's validator. */
  lemma LocalAtoms(s: string, p: nat)
    requires p <= |s| && forall i :: 0 <= i < p ==> IsAText(s[i]) || s[i] == '.'
    ensures V.AllAtoms(s[..p])
  {
    forall i | 0 <= i < |s[..p]| ensures V.IsAtom(s[..p][i]) {
      assert s[..p][i] == s[i];
      ATextIsAtom(s[i]);
    }
  }

  lemma ATextIsAtom(c: char)
    requires IsAText(c) || c == '.'
    ensures V.IsAtom(c)
  {
  }

  /** A domain with a dot is made of atoms, is at least three characters long and has a
      dot strictly inside it. */
  lemma DomainAtoms(d: string)
    requires IsDomain(d) && '.' in d
    ensures V.AllAtoms(d) && |d| >= 3 && '.' in d[1..|d| - 1]
  {
    DomainChars(d);
    HostCharsAtoms(d);
    var k := DomainSplit(d);
    InnerDot(d, k);
  }

  /** Letters, digits, hyphens and dots are atoms of the site's validator. */
  lemma HostCharsAtoms(d: string)
    requires forall i :: 0 <= i < |d| ==> IsLetDig(d[i]) || d[i] == '-' || d[i] == '.'
    ensures V.AllAtoms(d)
  {
    forall i | 0 <= i < |d| ensures V.IsAtom(d[i]) {
      HostCharIsAtom(d[i]);
    }
  }

  lemma HostCharIsAtom(c: char)
    requires IsLetDig(c) || c == '-' || c == '.'
    ensures V.IsAtom(c)
  {
  }

  lemma InnerDot(d: string, k: nat)
    requires 1 <= k <= |d| - 2 && d[k] == '.'
    ensures |d| >= 3 && '.' in d[1..|d| - 1]
  {
    assert d[1..|d| - 1][k - 1] == '.';
  }

  /** A domain with a dot has its first dot after a non-empty label and before a
      non-empty rest. */
  lemma DomainSplit(d: string) returns (k: nat)
    requires IsDomain(d) && '.' in d
    ensures 1 <= k <= |d| - 2 && d[k] == '.'
  {
    k := V.IndexOf(d, '.').value;
    assert IsLabel(d[..k]);
    DomainChars(d[k + 1..]);
  }

  datatype Event = Type(f: Field, value: string) | Send | Timeout

  function Step(c: Contact, e: Event): Contact
  {
    match e
    case Type(f, value) => Edit(c, f, value)
    case Send => Press(c)
    case Timeout => Complete(c)
  }

  function Run(c: Contact, es: seq<Event>): Contact
    decreases |es|
  {
    if |es| == 0 then c else Run(Step(c, es[0]), es[1..])
  }

  /** At most one completion is ever pending, and the form is submitting exactly while
      one is. */
  predicate Inv(c: Contact)
  {
    c.pending <= 1 && (c.isSubmitting <==> c.pending == 1)
  }

  lemma {:induction false} InvAlways(c: Contact, es: seq<Event>)
    requires Inv(c)
    ensures Inv(Run(c, es))
    decreases |es|
  {
    if |es| > 0 {
      InvAlways(Step(c, es[0]), es[1..]);
    }
  }

  /** From the initial form, every schedule of typing, presses and timeouts keeps one
      submission at a time. */
  lemma OneSubmissionAtATime(es: seq<Event>)
    ensures Inv(Run(Init, es))
    ensures Run(Init, es).isSubmitting ==> SubmitButton(Run(Init, es)).disabled
  {
    InvAlways(Init, es);
  }

  /** Submit, edit while waiting, complete: the edits are discarded. */
  lemma EditsDuringSubmitLost(c: Contact, f: Field, value: string)
    ensures Complete(Edit(Submit(c), f, value)).form == Blank
    ensures !Complete(Edit(Submit(c), f, value)).isSubmitting
  {
  }
}
