/** The enhanced project card (components/portfolio/project-card-enhanced.tsx): the same
    slug and number label as the plain card, plus the featured badge, the featured column
    span and the stats block with its stars and downloads rows. */
module ProjectCardEnhanced {
  import opened Text
  import PC = ProjectCard

  /** `stats?: { stars?: number; downloads?: string }`; numbers are integers here. */
  datatype Stats = Stats(stars: Option<int>, downloads: Option<string>)

  datatype CardProps = CardProps(
    title: string,
    description: string,
    tech: seq<string>,
    githubUrl: string,
    liveUrl: Option<string>,
    featured: Option<bool>,
    index: int,
    stats: Option<Stats>)

  /** What React puts on the page for one `cond && <element>` child of the stats block. */
  datatype Child = Nothing | TextNode(text: string) | StarsRow(stars: int) | DownloadsRow(downloads: string)

  /** The JavaScript value of an optional stats field, as far as `&&` and React care:
      `undefined`, an integer or a string. */
  datatype JsValue = Undefined | Num(n: int) | Str(s: string)

  /** JavaScript truthiness: `undefined`, `0` and `""` are falsy. */
  predicate Truthy(v: JsValue)
  {
    match v
    case Undefined => false
    case Num(n) => n != 0
    case Str(s) => s != ""
  }

  /** What React puts on the page for `{v && row}`: the row when `v` is truthy, otherwise
      the falsy value itself, and of those only a number is drawn, as its decimal text. */
  function AndRender(v: JsValue, row: Child): (c: Child)
    ensures Truthy(v) ==> c == row
    ensures !Truthy(v) && v.Num? ==> c == TextNode("0")
    ensures !Truthy(v) && !v.Num? ==> c == Nothing
  {
    if Truthy(v) then row
    else match v
      case Num(_) => TextNode("0")
      case _ => Nothing
  }

  function NumValue(x: Option<int>): JsValue
  {
    if x.Some? then Num(x.value) else Undefined
  }

  function StrValue(x: Option<string>): JsValue
  {
    if x.Some? then Str(x.value) else Undefined
  }

  /** `{stats.stars && <row/>}` as written: a missing count renders nothing, but a count of
      0 is a falsy number, which React renders as the text "0". */
  function StarsChildAsWritten(stars: Option<int>): (c: Child)
    ensures c.StarsRow? <==> stars.Some? && stars.value != 0
    ensures c.TextNode? <==> stars == Some(0)
  {
    match stars
    case None => Nothing
    case Some(n) => if n == 0 then TextNode("0") else StarsRow(n)
  }

  /** The as-written stars child is exactly React's rendering of `stars && <row/>`. */
  lemma StarsChildIsAnd(stars: Option<int>)
    ensures StarsChildAsWritten(stars) == AndRender(NumValue(stars), StarsRow(stars.GetOr(0)))
  {
  }

  /** The stars child as the card intends it: the row for a non-zero count, else nothing. */
  function StarsChild(stars: Option<int>): (c: Child)
    ensures c.StarsRow? <==> stars.Some? && stars.value != 0
    ensures c.StarsRow? ==> c.stars == stars.value
    ensures !c.StarsRow? ==> c == Nothing
  {
    if stars.Some? && stars.value != 0 then StarsRow(stars.value) else Nothing
  }

  /** A star count of 0 hides the row but leaves a stray "0" on the card as written; the
      intended child shows nothing. */
  lemma StarsZeroRendersText()
    ensures StarsChildAsWritten(Some(0)) == TextNode("0")
    ensures StarsChild(Some(0)) == Nothing
  {
  }

  /** The two stars children differ on a count of 0 and nowhere else. */
  lemma StarsChildAgrees(stars: Option<int>)
    ensures StarsChildAsWritten(stars) == StarsChild(stars) <==> stars != Some(0)
  {
  }

  /** `{stats.downloads && <row/>}`: an empty string is falsy and React renders nothing
      for it. */
  function DownloadsChild(downloads: Option<string>): (c: Child)
    ensures c.DownloadsRow? <==> downloads.Some? && downloads.value != ""
    ensures c.DownloadsRow? ==> c.downloads == downloads.value
    ensures !c.DownloadsRow? ==> c == Nothing
  {
    if downloads.Some? && downloads.value != "" then DownloadsRow(downloads.value) else Nothing
  }

  /** The downloads child is exactly React's rendering of `downloads && <row/>`: a falsy
      string draws nothing, so there is no stray text here. */
  lemma DownloadsChildIsAnd(downloads: Option<string>)
    ensures DownloadsChild(downloads) == AndRender(StrValue(downloads), DownloadsRow(downloads.GetOr("")))
    ensures !DownloadsChild(downloads).TextNode?
  {
  }

  /** What the enhanced card shows that depends on its props. `statsBlock` is the stars
      child followed by the downloads child when the block renders. */
  datatype CardView = CardView(
    slug: string,
    numberLabel: string,
    spanClass: string,
    featuredBadge: bool,
    statsBlock: Option<seq<Child>>,
    chips: seq<string>,
    links: seq<PC.Link>)

  /** The plain card's props for the fields both cards share. */
  function AsPlain(p: CardProps): PC.CardProps
  {
    PC.CardProps(p.title, p.description, p.tech, p.githubUrl, p.liveUrl, p.featured, p.index)
  }

  /** The stats block around a given stars child: it renders iff the card is featured
      and has stats, with the stars child and then the downloads child. */
  function StatsBlock(p: CardProps, stars: Child): Option<seq<Child>>
  {
    if p.featured.GetOr(false) && p.stats.Some? then
      Some([stars, DownloadsChild(p.stats.value.downloads)])
    else None
  }

  /** The stars count of the props, if there are stats and a count. */
  function Stars(p: CardProps): Option<int>
  {
    if p.stats.Some? then p.stats.value.stars else None
  }

  /** The view with a given stars child; everything else is as the card computes it. */
  function View(p: CardProps, stars: Child): CardView
  {
    var featured := p.featured.GetOr(false);
    CardView(
      PC.Slug(p.title),
      PC.NumberLabel(p.index),
      if featured then "md:col-span-2 lg:col-span-2" else "",
      featured,
      StatsBlock(p, stars),
      p.tech,
      PC.Links(p.githubUrl, p.liveUrl))
  }

  /** The enhanced card as written: the stats block uses `stats.stars && <row/>`, so a
      featured card with a star count of 0 shows the text "0" where the row would be. */
  function Card(p: CardProps): (v: CardView)
    ensures v.slug == PC.Card(AsPlain(p)).slug
    ensures v.numberLabel == PC.Card(AsPlain(p)).numberLabel
    ensures v.links == PC.Card(AsPlain(p)).links
    ensures v.chips == p.tech
    ensures v.featuredBadge <==> p.featured == Some(true)
    ensures v.spanClass == (if p.featured == Some(true) then "md:col-span-2 lg:col-span-2" else "")
    ensures v.statsBlock.Some? <==> p.featured == Some(true) && p.stats.Some?
    ensures v.statsBlock.Some? ==> |v.statsBlock.value| == 2
    ensures v.statsBlock.Some? ==>
      (v.statsBlock.value[0].StarsRow? <==> p.stats.value.stars.Some? && p.stats.value.stars.value != 0)
    ensures v.statsBlock.Some? ==>
      (v.statsBlock.value[0] == TextNode("0") <==> p.stats.value.stars == Some(0))
    ensures v.statsBlock.Some? ==>
      (v.statsBlock.value[1].DownloadsRow? <==> p.stats.value.downloads.Some? && p.stats.value.downloads.value != "")
    ensures v.statsBlock.Some? ==> !v.statsBlock.value[1].TextNode?
  {
    View(p, StarsChildAsWritten(Stars(p)))
  }

  /** The card as intended: the same view, with the corrected stars child, so the stats
      block never carries stray text. */
  function CorrectedCard(p: CardProps): (v: CardView)
    ensures v.statsBlock.Some? <==> p.featured == Some(true) && p.stats.Some?
    ensures v.statsBlock.Some? ==> |v.statsBlock.value| == 2
    ensures v.statsBlock.Some? ==>
      (v.statsBlock.value[0].StarsRow? <==> p.stats.value.stars.Some? && p.stats.value.stars.value != 0)
    ensures v.statsBlock.Some? ==> !v.statsBlock.value[0].TextNode? && !v.statsBlock.value[1].TextNode?
    ensures v.(statsBlock := None) == Card(p).(statsBlock := None)
  {
    View(p, StarsChild(Stars(p)))
  }

  /** The card as written and the corrected card differ exactly on featured cards whose
      stats give a star count of 0. */
  lemma StrayZero(p: CardProps)
    ensures Card(p) == CorrectedCard(p) <==>
      !(p.featured == Some(true) && p.stats.Some? && p.stats.value.stars == Some(0))
  {
    StarsChildAgrees(Stars(p));
    if p.featured == Some(true) && p.stats.Some? && p.stats.value.stars == Some(0) {
      assert Card(p).statsBlock.value[0] != CorrectedCard(p).statsBlock.value[0];
    }
  }

  /** Leaving `featured` out is the same as passing `false`. */
  lemma FeaturedDefault(p: CardProps)
    ensures Card(p.(featured := None)) == Card(p.(featured := Some(false)))
    ensures Card(p.(featured := None)).statsBlock.None?
  {
  }

  /** The Live link is shown iff `liveUrl` is a non-empty string, and the Source link
      always comes first. */
  lemma EnhancedLinks(p: CardProps)
    ensures |Card(p).links| >= 1 && Card(p).links[0] == PC.Link("Source", p.githubUrl)
    ensures |Card(p).links| == 2 <==> p.liveUrl.Some? && p.liveUrl.value != ""
  {
  }
}
