/** The project card (components/portfolio/project-card.tsx): the path-style slug of the
    title, the zero-padded number label, the featured span class and the links. */
module ProjectCard {
  import opened Text

  // ---------------------------------------------------------------------------
  // Slug: `title.toLowerCase().replace(/\s+/g, '-')`
  // ---------------------------------------------------------------------------

  /** `s` without its leading whitespace run. */
  function SkipWhitespace(s: string): (r: string)
    ensures |r| <= |s| && r == s[|s| - |r|..]
    ensures r == [] || !IsWhitespace(r[0])
  {
    if |s| == 0 || !IsWhitespace(s[0]) then s else SkipWhitespace(s[1..])
  }

  /** Skipping whitespace deletes no non-whitespace character. */
  lemma {:induction false} DropWhitespaceSkip(s: string)
    ensures DropWhitespace(SkipWhitespace(s)) == DropWhitespace(s)
    decreases |s|
  {
    if |s| > 0 && IsWhitespace(s[0]) {
      DropWhitespaceSkip(s[1..]);
    }
  }

  /** Skipping stops before a non-whitespace last character. */
  lemma {:induction false} SkipKeepsLast(x: string)
    requires |x| > 0 && !IsWhitespace(x[|x| - 1])
    ensures var r := SkipWhitespace(x); |r| > 0 && r[|r| - 1] == x[|x| - 1]
    decreases |x|
  {
    if IsWhitespace(x[0]) {
      SkipKeepsLast(x[1..]);
    }
  }

  /** Every maximal run of whitespace replaced by a single `-`. */
  function Collapse(s: string): (r: string)
    ensures !HasWhitespace(r)
    decreases |s|
  {
    if |s| == 0 then []
    else if IsWhitespace(s[0]) then ['-'] + Collapse(SkipWhitespace(s[1..]))
    else [s[0]] + Collapse(s[1..])
  }

  /** The slug shown as `~/projects/<slug>`. */
  function Slug(title: string): (r: string)
    ensures !HasWhitespace(r)
  {
    Collapse(Lower(title))
  }

  /** Skipping leading whitespace only looks at the first part when it ends in a
      non-whitespace character. */
  lemma {:induction false} SkipWhitespaceAppend(x: string, y: string)
    requires |x| > 0 && !IsWhitespace(x[|x| - 1])
    ensures SkipWhitespace(x + y) == SkipWhitespace(x) + y
    decreases |x|
  {
    if IsWhitespace(x[0]) {
      assert (x + y)[1..] == x[1..] + y;
      SkipWhitespaceAppend(x[1..], y);
    }
  }

  lemma {:induction false} SkipWhitespaceRun(w: string, b: string)
    requires AllWhitespace(w)
    requires b == [] || !IsWhitespace(b[0])
    ensures SkipWhitespace(w + b) == b
    decreases |w|
  {
    if |w| > 0 {
      assert (w + b)[1..] == w[1..] + b;
      SkipWhitespaceRun(w[1..], b);
    } else {
      assert w + b == b;
    }
  }

  lemma CollapseWhitespaceHead(s: string)
    requires |s| > 0 && IsWhitespace(s[0])
    ensures Collapse(s) == ['-'] + Collapse(SkipWhitespace(s[1..]))
  {
  }

  lemma CollapseCharHead(s: string)
    requires |s| > 0 && !IsWhitespace(s[0])
    ensures Collapse(s) == [s[0]] + Collapse(s[1..])
  {
  }

  /** The string is empty or ends in a non-whitespace character. */
  predicate EndsSolid(a: string)
  {
    a == [] || !IsWhitespace(a[|a| - 1])
  }

  /** Cut right after a non-whitespace character, the two parts collapse independently. */
  lemma {:induction false} CollapseSplit(a: string, t: string)
    requires EndsSolid(a)
    ensures Collapse(a + t) == Collapse(a) + Collapse(t)
    decreases |a|, 1
  {
    if |a| == 0 {
      assert a + t == t;
    } else if !IsWhitespace(a[0]) {
      CollapseSplitChar(a, t);
    } else {
      CollapseSplitSpace(a, t);
    }
  }

  lemma {:induction false} CollapseSplitChar(a: string, t: string)
    requires |a| > 0 && !IsWhitespace(a[0]) && EndsSolid(a)
    ensures Collapse(a + t) == Collapse(a) + Collapse(t)
    decreases |a|, 0
  {
    var ca, ct := Collapse(a[1..]), Collapse(t);
    assert Collapse(a + t) == [a[0]] + Collapse(a[1..] + t) by {
      assert (a + t)[1..] == a[1..] + t;
      CollapseCharHead(a + t);
    }
    assert Collapse(a[1..] + t) == ca + ct by {
      CollapseSplit(a[1..], t);
    }
    assert Collapse(a) == [a[0]] + ca by {
      CollapseCharHead(a);
    }
    assert [a[0]] + (ca + ct) == [a[0]] + ca + ct;
  }

  lemma {:induction false} CollapseSplitSpace(a: string, t: string)
    requires |a| > 0 && IsWhitespace(a[0]) && EndsSolid(a)
    ensures Collapse(a + t) == Collapse(a) + Collapse(t)
    decreases |a|, 0
  {
    var a' := SkipWhitespace(a[1..]);
    TailAppend(a, t);
    SkipWhitespaceAppend(a[1..], t);
    CollapseWhitespaceHead(a + t);
    SkipKeepsLast(a[1..]);
    CollapseSplit(a', t);
    CollapseWhitespaceHead(a);
    AppendAssoc("-", Collapse(a'), Collapse(t));
  }

  lemma TailAppend(a: string, t: string)
    requires |a| > 0
    ensures (a + t)[0] == a[0] && (a + t)[1..] == a[1..] + t
  {
  }

  /** A whitespace run followed by a non-whitespace character (or nothing) collapses to one
      `-`. */
  lemma {:induction false} CollapseLeadingRun(w: string, b: string)
    requires |w| > 0 && AllWhitespace(w)
    requires b == [] || !IsWhitespace(b[0])
    ensures Collapse(w + b) == "-" + Collapse(b)
  {
    assert (w + b)[1..] == w[1..] + b;
    SkipWhitespaceRun(w[1..], b);
    CollapseWhitespaceHead(w + b);
  }

  lemma AppendAssoc(a: string, b: string, c: string)
    ensures a + b + c == a + (b + c)
  {
  }

  /** A maximal whitespace run `w` between `a` and `b` becomes exactly one `-`, and the two
      sides are collapsed independently. */
  lemma {:induction false} CollapseRun(a: string, w: string, b: string)
    requires EndsSolid(a)
    requires |w| > 0 && AllWhitespace(w)
    requires b == [] || !IsWhitespace(b[0])
    ensures Collapse(a + w + b) == Collapse(a) + "-" + Collapse(b)
  {
    var t := w + b;
    CollapseLeadingRun(w, b);
    CollapseSplit(a, t);
    AppendAssoc(a, w, b);
    AppendAssoc(Collapse(a), "-", Collapse(b));
  }

  /** A string without whitespace is its own collapse. */
  lemma {:induction false} CollapseNoWhitespace(s: string)
    requires !HasWhitespace(s)
    ensures Collapse(s) == s
    decreases |s|
  {
    if |s| > 0 {
      assert !IsWhitespace(s[0]);
      assert !HasWhitespace(s[1..]) by {
        forall i | 0 <= i < |s| - 1 ensures !IsWhitespace(s[1..][i]) {
          assert s[1..][i] == s[i + 1];
        }
      }
      CollapseNoWhitespace(s[1..]);
    }
  }

  /** Collapsing keeps every non-whitespace character, in order: deleting the dashes from
      both sides leaves the same text. */
  lemma {:induction false} CollapseKeeps(s: string)
    ensures DropChar(Collapse(s), '-') == DropChar(DropWhitespace(s), '-')
    decreases |s|
  {
    if |s| > 0 {
      if IsWhitespace(s[0]) {
        var t := SkipWhitespace(s[1..]);
        CollapseKeeps(t);
        CollapseWhitespaceHead(s);
        var ct := Collapse(t);
        DropCharAppend(['-'], ct, '-');
        assert DropChar(['-'], '-') == [];
        assert DropChar(Collapse(s), '-') == DropChar(ct, '-');
        DropWhitespaceSkip(s[1..]);
        assert DropWhitespace(s) == DropWhitespace(s[1..]);
      } else {
        CollapseKeeps(s[1..]);
        CollapseCharHead(s);
        DropCharAppend([s[0]], Collapse(s[1..]), '-');
        DropCharAppend([s[0]], DropWhitespace(s[1..]), '-');
      }
    }
  }

  /** Lower-casing a string that is already collapsed changes nothing, and collapsing keeps
      a lower-case string lower-case. */
  lemma {:induction false} CollapseLower(s: string)
    requires AllLower(s)
    ensures AllLower(Collapse(s))
    decreases |s|
  {
    if |s| > 0 {
      if IsWhitespace(s[0]) {
        var t := SkipWhitespace(s[1..]);
        AllLowerDrop(s, |s| - |t|);
        CollapseLower(t);
        CollapseWhitespaceHead(s);
        AllLowerCons('-', Collapse(t));
      } else {
        AllLowerDrop(s, 1);
        CollapseLower(s[1..]);
        CollapseCharHead(s);
        AllLowerCons(s[0], Collapse(s[1..]));
      }
    }
  }

  lemma AllLowerDrop(s: string, k: nat)
    requires AllLower(s) && k <= |s|
    ensures AllLower(s[k..])
  {
    forall i | 0 <= i < |s| - k ensures !IsUpper(s[k..][i]) {
      assert s[k..][i] == s[k + i];
    }
  }

  lemma AllLowerCons(c: char, t: string)
    requires !IsUpper(c) && AllLower(t)
    ensures AllLower([c] + t)
  {
    forall i | 0 <= i < |t| + 1 ensures !IsUpper(([c] + t)[i]) {
      if i > 0 {
        assert ([c] + t)[i] == t[i - 1];
      }
    }
  }

  /** The slug has no whitespace, is its own slug, keeps the title's non-whitespace
      characters lower-cased and in order, and is the lower-cased title when the title has
      no whitespace. */
  lemma SlugFacts(title: string)
    ensures !HasWhitespace(Slug(title))
    ensures Slug(Slug(title)) == Slug(title)
    ensures DropChar(Slug(title), '-') == DropChar(DropWhitespace(Lower(title)), '-')
    ensures !HasWhitespace(title) ==> Slug(title) == Lower(title)
  {
    var s := Slug(title);
    LowerFacts(title);
    CollapseLower(Lower(title));
    LowerFacts(s);
    CollapseNoWhitespace(s);
    CollapseKeeps(Lower(title));
    if !HasWhitespace(title) {
      CollapseNoWhitespace(Lower(title));
    }
  }

  lemma {:induction false} LowerKeepsRun(w: string)
    requires AllWhitespace(w)
    ensures AllWhitespace(Lower(w))
    decreases |w|
  {
    if |w| > 0 {
      LowerKeepsRun(w[1..]);
      assert Lower(w)[1..] == Lower(w[1..]);
    }
  }

  /** A whitespace run inside the title becomes one `-` in the slug. */
  lemma SlugRun(a: string, w: string, b: string)
    requires EndsSolid(a)
    requires |w| > 0 && AllWhitespace(w)
    requires b == [] || !IsWhitespace(b[0])
    ensures Slug(a + w + b) == Slug(a) + "-" + Slug(b)
  {
    LowerAppend(a, w);
    LowerAppend(a + w, b);
    LowerKeepsRun(w);
    LowerKeepsEnds(a, b);
    CollapseRun(Lower(a), Lower(w), Lower(b));
  }

  /** Lower-casing keeps a non-whitespace last and first character non-whitespace. */
  lemma LowerKeepsEnds(a: string, b: string)
    requires EndsSolid(a)
    requires b == [] || !IsWhitespace(b[0])
    ensures EndsSolid(Lower(a))
    ensures Lower(b) == [] || !IsWhitespace(Lower(b)[0])
  {
  }

  // ---------------------------------------------------------------------------
  // Number label: `String(index + 1).padStart(2, '0')`
  // ---------------------------------------------------------------------------

  function DigitChar(d: nat): (c: char)
    requires d < 10
    ensures IsDigit(c) && c as int - '0' as int == d
  {
    ('0' as int + d) as char
  }

  /** The decimal digits of `n`, without leading zeros. */
  function Digits(n: nat): (r: string)
    ensures |r| > 0 && forall i :: 0 <= i < |r| ==> IsDigit(r[i])
    ensures |r| == 1 <==> n < 10
    ensures n > 0 ==> r[0] != '0'
  {
    if n < 10 then [DigitChar(n)] else Digits(n / 10) + [DigitChar(n % 10)]
  }

  /** `String(n)` for an integer. */
  function Decimal(n: int): string
  {
    if n < 0 then "-" + Digits(-n) else Digits(n)
  }

  /** `padStart(2, '0')`. */
  function PadStart2(s: string): (r: string)
    ensures |r| == if |s| >= 2 then |s| else 2
    ensures r[|r| - |s|..] == s
    ensures forall i :: 0 <= i < |r| - |s| ==> r[i] == '0'
  {
    if |s| >= 2 then s else seq(2 - |s|, _ => '0') + s
  }

  function NumberLabel(index: int): string
  {
    PadStart2(Decimal(index + 1))
  }

  /** Reads a digit string back. */
  function ParseDigits(s: string): nat
    requires forall i :: 0 <= i < |s| ==> IsDigit(s[i])
  {
    if |s| == 0 then 0
    else
      var c := s[|s| - 1];
      assert IsDigit(c);
      ParseDigits(s[..|s| - 1]) * 10 + (c as int - '0' as int)
  }

  lemma {:induction false} DigitsRoundTrip(n: nat)
    ensures ParseDigits(Digits(n)) == n
  {
    if n >= 10 {
      DigitsRoundTrip(n / 10);
      var d := Digits(n);
      assert d[..|d| - 1] == Digits(n / 10);
    }
  }

  /** Leading zeros do not change the value read. */
  lemma {:induction false} ParseLeadingZero(s: string)
    requires forall i :: 0 <= i < |s| ==> IsDigit(s[i])
    ensures ParseDigits("0" + s) == ParseDigits(s)
    decreases |s|
  {
    if |s| > 0 {
      var t := "0" + s;
      assert t[..|t| - 1] == "0" + s[..|s| - 1];
      ParseLeadingZero(s[..|s| - 1]);
    } else {
      assert ParseDigits("0"[..0]) == 0;
    }
  }

  /** For a card at position `index >= 0` the label is `index + 1` in decimal, padded with
      one zero below 10 and unpadded from 10 on, and it reads back as `index + 1`. */
  lemma NumberLabelFacts(index: int)
    requires index >= 0
    ensures var l := NumberLabel(index);
      |l| >= 2 && (forall i :: 0 <= i < |l| ==> IsDigit(l[i])) &&
      ParseDigits(l) == index + 1
    ensures index < 9 ==> NumberLabel(index) == ['0', DigitChar(index + 1)]
    ensures index >= 9 ==> NumberLabel(index) == Digits(index + 1)
  {
    var d := Digits(index + 1);
    DigitsRoundTrip(index + 1);
    if index < 9 {
      assert NumberLabel(index) == "0" + d;
      ParseLeadingZero(d);
    }
  }

  /** Concrete labels: the first card, the ninth, the tenth. */
  lemma NumberLabelExamples()
    ensures NumberLabel(0) == "01" && NumberLabel(8) == "09" && NumberLabel(9) == "10"
  {
    NumberLabelFacts(0);
    NumberLabelFacts(8);
    assert Digits(10) == Digits(1) + [DigitChar(0)];
  }

  // ---------------------------------------------------------------------------
  // The card
  // ---------------------------------------------------------------------------

  datatype CardProps = CardProps(
    title: string,
    description: string,
    tech: seq<string>,
    githubUrl: string,
    liveUrl: Option<string>,
    featured: Option<bool>,
    index: int)

  datatype Link = Link(caption: string, href: string)

  /** What the card shows that depends on its props. */
  datatype CardView = CardView(
    slug: string,
    numberLabel: string,
    spanClass: string,
    chips: seq<string>,
    links: seq<Link>)

  /** `liveUrl && …`: an absent or empty URL is falsy. */
  predicate HasLive(liveUrl: Option<string>)
  {
    liveUrl.Some? && liveUrl.value != ""
  }

  /** The Source link, then the Live link when `liveUrl` is truthy. */
  function Links(githubUrl: string, liveUrl: Option<string>): (r: seq<Link>)
    ensures |r| >= 1 && r[0] == Link("Source", githubUrl)
    ensures |r| == 2 <==> HasLive(liveUrl)
    ensures |r| <= 2
    ensures |r| == 2 ==> r[1] == Link("Live", liveUrl.value)
  {
    [Link("Source", githubUrl)] + (if HasLive(liveUrl) then [Link("Live", liveUrl.value)] else [])
  }

  function Card(p: CardProps): (v: CardView)
    ensures v.spanClass == (if p.featured == Some(true) then "md:col-span-2" else "")
    ensures v.chips == p.tech
    ensures v.links == Links(p.githubUrl, p.liveUrl)
    ensures !HasWhitespace(v.slug)
  {
    CardView(
      Slug(p.title),
      NumberLabel(p.index),
      if p.featured.GetOr(false) then "md:col-span-2" else "",
      p.tech,
      Links(p.githubUrl, p.liveUrl))
  }

  /** `liveUrl` given as the empty string is the same as leaving it out. */
  lemma LinksEmptyLive(githubUrl: string)
    ensures Links(githubUrl, Some("")) == Links(githubUrl, None) == [Link("Source", githubUrl)]
  {
  }

  /** Leaving `featured` out is the same as passing `false`; leaving `liveUrl` out is the
      same as passing "". */
  lemma CardDefaults(p: CardProps)
    ensures Card(p.(featured := None)) == Card(p.(featured := Some(false)))
    ensures Card(p.(liveUrl := None)) == Card(p.(liveUrl := Some("")))
  {
    LinksEmptyLive(p.githubUrl);
  }
}
