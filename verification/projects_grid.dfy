/** The bento grid of the project list (components/portfolio/projects-grid.tsx): which
    cards are large and how many of the six grid columns each spans. The span is a computed
    value only; the card component does not take it as a prop. */
module ProjectsGrid {

  /** Item `i` is large iff `i mod 4` is 0 or 3. */
  predicate IsLarge(i: nat)
  {
    i % 4 == 0 || i % 4 == 3
  }

  /** The column span: `md:col-span-4` for a large item, `md:col-span-2` otherwise. */
  function Span(i: nat): (r: nat)
    ensures r == 4 || r == 2
    ensures r == 4 <==> IsLarge(i)
  {
    if IsLarge(i) then 4 else 2
  }

  /** Spans repeat every four items. */
  lemma SpanPeriodic(i: nat)
    ensures Span(i + 4) == Span(i)
  {
    assert (i + 4) % 4 == i % 4;
  }

  /** Each consecutive pair starting at an even position fills one six-column row. */
  lemma PairFillsRow(k: nat)
    ensures Span(2 * k) + Span(2 * k + 1) == 6
  {
    var q := k / 2;
    if k % 2 == 0 {
      assert 2 * k == 4 * q;
      BlockOfFour(q);
    } else {
      assert 2 * k == 4 * q + 2;
      BlockOfFour(q);
    }
  }

  /** Every aligned block of four spans 4, 2, 2, 4: twelve columns. This is what the code
      computes; the comment above it in the source describes a different pattern. */
  lemma BlockOfFour(k: nat)
    ensures Span(4 * k) == 4 && Span(4 * k + 1) == 2
    ensures Span(4 * k + 2) == 2 && Span(4 * k + 3) == 4
  {
    assert (4 * k) % 4 == 0;
    assert (4 * k + 1) % 4 == 1 && (4 * k + 2) % 4 == 2 && (4 * k + 3) % 4 == 3;
  }

  /** The span of each card of a list, in input order (`projects.map((project, i) => …)`). */
  function Spans(n: nat): (r: seq<nat>)
    ensures |r| == n
    ensures forall i :: 0 <= i < n ==> r[i] == Span(i)
  {
    if n == 0 then [] else Spans(n - 1) + [Span(n - 1)]
  }

  /** A rendered card: the project, the `index` it is given and its span. */
  datatype Placed<P> = Placed(project: P, index: nat, span: nat)

  /** `projects.map(...)`: the cards in input order, each with its own position as index. */
  function Layout<P>(projects: seq<P>): (r: seq<Placed<P>>)
    ensures |r| == |projects|
    ensures forall i :: 0 <= i < |r| ==>
      r[i].project == projects[i] && r[i].index == i && r[i].span == Span(i)
  {
    if |projects| == 0 then []
    else Layout(projects[..|projects| - 1]) + [Placed(projects[|projects| - 1], |projects| - 1, Span(|projects| - 1))]
  }

  function Sum(s: seq<nat>): nat
  {
    if |s| == 0 then 0 else Sum(s[..|s| - 1]) + s[|s| - 1]
  }

  /** The first `2m` cards fill exactly `m` rows of six columns: no row is left ragged
      between pairs. */
  lemma {:induction false} RowsFill(m: nat)
    ensures Sum(Spans(2 * m)) == 6 * m
  {
    if m > 0 {
      RowsFill(m - 1);
      var s := Spans(2 * m);
      assert s[..|s| - 1] == Spans(2 * m - 1);
      assert Spans(2 * m - 1)[..2 * m - 2] == Spans(2 * (m - 1));
      PairFillsRow(m - 1);
    }
  }
}
