/** Badges (components/ui/badge.tsx): `Badge` with its defaults, `StatusBadge` with its
    label and colour derivation, and `Tag` with its optional remove button. */
module Badge {
  import opened Text

  // ---------------------------------------------------------------------------
  // String helpers of the status badge
  // ---------------------------------------------------------------------------

  /** `pat` occurs in `s` at position `k`. */
  predicate OccursAt(s: string, pat: string, k: nat)
  {
    k + |pat| <= |s| && s[k..k + |pat|] == pat
  }

  /** The first position at or after `from` where `pat` occurs, if any. */
  function FindFrom(s: string, pat: string, from: nat): (r: Option<nat>)
    requires from <= |s|
    ensures r.Some? ==> from <= r.value && OccursAt(s, pat, r.value)
    ensures r.Some? ==> forall k :: from <= k < r.value ==> !OccursAt(s, pat, k)
    ensures r.None? ==> forall k :: from <= k <= |s| ==> !OccursAt(s, pat, k)
    decreases |s| - from
  {
    if OccursAt(s, pat, from) then Some(from)
    else if from == |s| then None
    else FindFrom(s, pat, from + 1)
  }

  /** `String.prototype.replace` with a string pattern: only the first occurrence is
      replaced; without an occurrence the string is returned unchanged. */
  function ReplaceFirst(s: string, pat: string, rep: string): (r: string)
    ensures (forall k :: 0 <= k <= |s| ==> !OccursAt(s, pat, k)) ==> r == s
    ensures forall k ::
      (0 <= k <= |s| && OccursAt(s, pat, k) && (forall j :: 0 <= j < k ==> !OccursAt(s, pat, j)))
      ==> r == s[..k] + rep + s[k + |pat|..]
  {
    match FindFrom(s, pat, 0)
    case None => s
    case Some(k) =>
      FirstIsUnique(s, pat, k);
      s[..k] + rep + s[k + |pat|..]
  }

  /** Two first occurrences are the same position. */
  lemma FirstIsUnique(s: string, pat: string, k: nat)
    requires OccursAt(s, pat, k) && forall j :: 0 <= j < k ==> !OccursAt(s, pat, j)
    ensures forall m ::
      (0 <= m <= |s| && OccursAt(s, pat, m) && (forall j :: 0 <= j < m ==> !OccursAt(s, pat, j)))
      ==> m == k
  {
  }

  /** `s.charAt(0).toUpperCase() + s.slice(1)`; the empty string stays empty. */
  function Capitalize(s: string): (r: string)
    ensures |r| == |s|
    ensures |s| > 0 ==> r[0] == UpperChar(s[0]) && r[1..] == s[1..]
  {
    if |s| == 0 then "" else [UpperChar(s[0])] + s[1..]
  }

  // ---------------------------------------------------------------------------
  // StatusBadge
  // ---------------------------------------------------------------------------

  datatype Status = Active | Inactive | Pending | Completed

  /** The string value of the `status` prop. */
  function StatusName(s: Status): string
  {
    match s
    case Active => "active"
    case Inactive => "inactive"
    case Pending => "pending"
    case Completed => "completed"
  }

  datatype StatusConfig = StatusConfig(color: string, bgColor: string, pulse: bool)

  /** The `statusConfig` table. */
  function Config(s: Status): StatusConfig
  {
    match s
    case Active => StatusConfig("text-green-400", "bg-green-500/10", true)
    case Inactive => StatusConfig("text-gray-400", "bg-gray-500/10", false)
    case Pending => StatusConfig("text-yellow-400", "bg-yellow-500/10", true)
    case Completed => StatusConfig("text-blue-400", "bg-blue-500/10", false)
  }

  /** The label: `label || capitalised status`. An empty label is falsy. */
  function StatusLabel(s: Status, given: Option<string>): string
  {
    if given.Some? && given.value != "" then given.value else Capitalize(StatusName(s))
  }

  /** The dot's colour class: the text colour class with its first "text" turned into
      "bg". */
  function DotClass(s: Status): string
  {
    ReplaceFirst(Config(s).color, "text", "bg")
  }

  /** The dot animates its opacity iff the configuration says it pulses. */
  predicate DotPulses(s: Status)
  {
    Config(s).pulse
  }

  /** Capitalising a lower-case word and lower-casing it again gives the word back. */
  lemma CapitalizeLower(n: string)
    requires |n| > 0 && IsLower(n[0]) && AllLower(n)
    ensures IsUpper(Capitalize(n)[0])
    ensures Lower(Capitalize(n)) == n
  {
    var l := Capitalize(n);
    assert Lower(l)[0] == n[0];
    forall i | 1 <= i < |n| ensures Lower(l)[i] == n[i] {
      assert l[i] == l[1..][i - 1] == n[1..][i - 1] == n[i];
    }
  }

  /** Every status name is a lower-case word. */
  lemma StatusNameLower(s: Status)
    ensures |StatusName(s)| > 0 && IsLower(StatusName(s)[0]) && AllLower(StatusName(s))
  {
  }

  /** A given non-empty label is shown as is; otherwise the label is the status name with
      its first letter upper-cased, which lower-cases back to the status name. */
  lemma StatusLabelFacts(s: Status, given: Option<string>)
    ensures given.Some? && given.value != "" ==> StatusLabel(s, given) == given.value
    ensures given.None? || given.value == "" ==>
      var l := StatusLabel(s, given);
      |l| == |StatusName(s)| && IsUpper(l[0]) && l[1..] == StatusName(s)[1..] &&
      Lower(l) == StatusName(s)
  {
    if given.None? || given.value == "" {
      StatusNameLower(s);
      CapitalizeLower(StatusName(s));
    }
  }

  /** The default labels are Active, Inactive, Pending and Completed. */
  lemma DefaultLabels()
    ensures StatusLabel(Active, None) == "Active"
    ensures StatusLabel(Inactive, None) == "Inactive"
    ensures StatusLabel(Pending, Some("")) == "Pending"
    ensures StatusLabel(Completed, None) == "Completed"
  {
  }

  /** A string that starts with the pattern has that occurrence replaced. */
  lemma ReplaceAtStart(pat: string, rest: string, rep: string)
    ensures ReplaceFirst(pat + rest, pat, rep) == rep + rest
  {
    var s := pat + rest;
    assert OccursAt(s, pat, 0) by {
      assert s[0..|pat|] == pat;
    }
    assert FindFrom(s, pat, 0) == Some(0);
    assert s[..0] + rep + s[|pat|..] == rep + rest;
  }

  /** The colour and shade each status is drawn in, without the utility prefix. */
  function Shade(s: Status): string
  {
    match s
    case Active => "-green-400"
    case Inactive => "-gray-400"
    case Pending => "-yellow-400"
    case Completed => "-blue-400"
  }

  /** Each text colour class of the table is "text" followed by the status's shade. */
  lemma ColorIsTextShade(s: Status)
    ensures Config(s).color == "text" + Shade(s)
  {
  }

  /** The dot class is the text colour class with "text" replaced by "bg": same colour and
      shade, background instead of text. */
  lemma DotClassIsBackground(s: Status)
    ensures Config(s).color == "text" + Shade(s)
    ensures DotClass(s) == "bg" + Shade(s)
  {
    ColorIsTextShade(s);
    ReplaceAtStart("text", Shade(s), "bg");
  }

  /** The dot pulses exactly for the active and pending statuses. */
  lemma PulseStatuses(s: Status)
    ensures DotPulses(s) <==> s == Active || s == Pending
  {
  }

  // ---------------------------------------------------------------------------
  // Badge and Tag
  // ---------------------------------------------------------------------------

  datatype BadgeVariant = Default | Success | Error | Warning | Info | Primary
  datatype BadgeSize = Sm | Md | Lg

  /** The props of `Badge` that select its rendering. `hasIcon` is a truthy `icon`. */
  datatype BadgeProps = BadgeProps(
    variant: Option<BadgeVariant>,
    size: Option<BadgeSize>,
    hasIcon: bool,
    animated: Option<bool>)

  /** The resolved badge: its variant and size after defaults, whether the icon span is
      rendered and whether it is wrapped in a motion element. */
  datatype BadgeView = BadgeView(variant: BadgeVariant, size: BadgeSize, iconSpan: bool, motion: bool)

  function RenderBadge(p: BadgeProps): (v: BadgeView)
    ensures p.variant.None? ==> v.variant == Default
    ensures p.size.None? ==> v.size == Md
    ensures p.variant.Some? ==> v.variant == p.variant.value
    ensures p.size.Some? ==> v.size == p.size.value
    ensures v.motion <==> p.animated == Some(true)
    ensures v.iconSpan <==> p.hasIcon
  {
    BadgeView(p.variant.GetOr(Default), p.size.GetOr(Md), p.hasIcon, p.animated.GetOr(false))
  }

  /** Leaving out `variant`, `size` or `animated` is the same as passing its default. */
  lemma BadgeDefaults(p: BadgeProps)
    ensures RenderBadge(p.(variant := None)) == RenderBadge(p.(variant := Some(Default)))
    ensures RenderBadge(p.(size := None)) == RenderBadge(p.(size := Some(Md)))
    ensures RenderBadge(p.(animated := None)) == RenderBadge(p.(animated := Some(false)))
  {
  }

  datatype TagVariant = TagDefault | Tech | Category

  datatype TagProps = TagProps(text: string, hasOnRemove: bool, variant: Option<TagVariant>)

  /** The resolved tag: its variant and the accessible name of its remove button, if any. */
  datatype TagView = TagView(text: string, variant: TagVariant, removeButton: Option<string>)

  function RenderTag(p: TagProps): (v: TagView)
    ensures v.text == p.text
    ensures v.variant == p.variant.GetOr(TagDefault)
    ensures v.removeButton.Some? <==> p.hasOnRemove
    ensures v.removeButton.Some? ==>
      |v.removeButton.value| == |p.text| + 7 && v.removeButton.value[7..] == p.text &&
      v.removeButton.value[..7] == "Remove "
  {
    TagView(p.text, p.variant.GetOr(TagDefault), if p.hasOnRemove then Some("Remove " + p.text) else None)
  }

  /** Leaving out the tag's `variant` is the same as passing "default"; the remove button
      names the tag it removes. */
  lemma TagDefaults(p: TagProps)
    ensures RenderTag(p.(variant := None)) == RenderTag(p.(variant := Some(TagDefault)))
    ensures p.hasOnRemove ==> RenderTag(p).removeButton == Some("Remove " + RenderTag(p).text)
  {
  }
}
