/** `buildSkillContent` and `extractIntro` (index.ts): the skill document is
    a frontmatter block, the intro, and inside `<convex-docs-list>` the CORE
    section followed by one section per group; `extractIntro` reads the intro
    of an existing document back. */
module Render {
  import opened Seqs
  import opened Sorting
  import opened Text
  import opened Timestamp
  import opened OrderMemory
  import opened Ordering
  import opened Compaction
  import opened Wrap
  import opened Intro

  /** The frontmatter lines before the `updated:` line. */
  const NameLine: string := "name: convex-docs"
  const Description: string := "Get convex documentation LINKS so you can fetch them as markdown"
  const DescriptionLine: string := "description: " + Description
  const MetadataLine: string := "metadata:"
  const UpdatedPrefix: string := "  updated: "
  const ListClose: string := "</convex-docs-list>"
  const CoreHeading: string := "CORE https://docs.convex.dev/"

  /** An entry of the `groups` record: a group name and its ordered items. */
  type Group = (string, seq<string>)

  /** The argument of `buildSkillContent`; `groups` lists the record's
      entries in key order. */
  datatype SkillInput = SkillInput(updatedAt: DateTime, core: seq<string>, groups: seq<Group>, orders: Orders, intro: string)

  function GroupName(g: Group): string
  {
    g.0
  }

  /** `Object.keys(groups)`. */
  function GroupNames(groups: seq<Group>): seq<string>
  {
    Map(GroupName, groups)
  }

  /** `groups[name]`: the items of the entry named `name`. */
  function GroupItems(groups: seq<Group>, name: string): (r: seq<string>)
    ensures name !in GroupNames(groups) ==> r == []
    ensures groups != [] && groups[0].0 == name ==> r == groups[0].1
    decreases |groups|
  {
    if groups == [] then []
    else if groups[0].0 == name then groups[0].1
    else GroupItems(groups[1..], name)
  }

  predicate NotCore(g: string)
  {
    g != CoreKey
  }

  /** `orderedGroups`: the remembered groups that still exist, in their
      remembered order, then the new groups sorted. */
  function OrderedGroups(x: SkillInput): seq<string>
  {
    SortByOrder(GroupNames(x.groups), Filter(NotCore, x.orders.groupOrder))
  }

  /** `orders.groupLabels[group] ?? group.toUpperCase().replace(/-/g, " ")`. */
  function Label(labels: map<string, string>, g: string): string
  {
    if g in labels then labels[g] else DefaultLabel(g)
  }

  function HeadingText(title: string, g: string): string
  {
    title + " /" + g + "/"
  }

  /** The three lines of one group section. */
  function SectionLines(x: SkillInput, g: string, le: (string, string) -> bool): seq<string>
  {
    [HeadingText(Label(x.orders.groupLabels, g), g), WrapList(Compact(GroupItems(x.groups, g), 0, le), MaxLen), ""]
  }

  function Sections(x: SkillInput, gs: seq<string>, le: (string, string) -> bool): (r: seq<string>)
    ensures |r| == 3 * |gs|
    decreases |gs|
  {
    if gs == [] then [] else SectionLines(x, gs[0], le) + Sections(x, gs[1..], le)
  }

  /** The lines pushed before the group sections, for the printed timestamp
      `updated`, the intro and the wrapped core list `coreText`. */
  function HeaderLines(updated: string, intro: string, coreText: string): seq<string>
  {
    [ "---", NameLine, DescriptionLine, MetadataLine, UpdatedPrefix + updated, "---", "", intro, "", ListOpen, "",
      CoreHeading, coreText, "" ]
  }

  /** The `lines` array once the loop over the groups is done. */
  function DocLines(x: SkillInput, le: (string, string) -> bool): seq<string>
  {
    HeaderLines(FormatUtc(x.updatedAt), x.intro, WrapList(x.core, MaxLen)) + Sections(x, OrderedGroups(x), le) + [ListClose]
  }

  /** `buildSkillContent(items)`; `le(a, b)` stands for `a.localeCompare(b) <= 0`. */
  function BuildSkillContent(x: SkillInput, le: (string, string) -> bool): (r: string)
    ensures EndsWith(r, ListClose + "\n")
  {
    var j := Join(DocLines(x, le), "\n");
    BuildText(x, le);
    EndsWithSnoc(j, ListClose, '\n');
    TrimEnd(j) + "\n"
  }

  lemma EndsWithSnoc(s: string, suffix: string, c: char)
    requires EndsWith(s, suffix)
    ensures EndsWith(s + [c], suffix + [c])
  {
    assert (s + [c])[|s + [c]| - |suffix + [c]|..] == s[|s| - |suffix|..] + [c];
  }

  /** The trailing `trimEnd()` changes nothing: the text ends with the
      closing marker. */
  lemma BuildText(x: SkillInput, le: (string, string) -> bool)
    ensures var j := Join(DocLines(x, le), "\n");
      TrimEnd(j) == j && EndsWith(j, ListClose)
  {
    var front := HeaderLines(FormatUtc(x.updatedAt), x.intro, WrapList(x.core, MaxLen)) + Sections(x, OrderedGroups(x), le);
    assert DocLines(x, le) == front + [ListClose];
    ListCloseShape();
    JoinClosed(front, ListClose);
  }

  lemma ListCloseShape()
    ensures ListClose != [] && !IsSpace(ListClose[|ListClose| - 1])
  {
  }

  /** Lines that end with a line whose last character is not white space
      join into a text that `trimEnd` leaves alone. */
  lemma {:induction false} JoinClosed(front: seq<string>, last: string)
    requires last != [] && !IsSpace(last[|last| - 1])
    ensures var j := Join(front + [last], "\n"); TrimEnd(j) == j && EndsWith(j, last)
  {
    JoinSnoc(front, last, "\n");
    var j := Join(front + [last], "\n");
    var p := if front == [] then "" else Join(front, "\n") + "\n";
    assert j == p + last;
    assert j[|j| - 1] == last[|last| - 1];
    assert j[|j| - |last|..] == last;
  }

  // ----- the intro survives a rebuild -----

  /** The name line around its one dash. */
  lemma NameLineParts()
    ensures NameLine == "name: convex" + "-" + "docs"
  {
    assert |NameLine| == 17;
    assert forall i :: 0 <= i < 17 ==> NameLine[i] == ("name: convex" + "-" + "docs")[i];
  }

  lemma NameLineNoDoubleDash()
    ensures NoDoubleDash(NameLine)
  {
    NameLineParts();
    NoDashNoDoubleDash("name: convex");
    NoDashNoDoubleDash("docs");
    NoDoubleDashConcat("name: convex", "-");
    NoDoubleDashConcat("name: convex" + "-", "docs");
  }

  /** Letters and spaces only. */
  predicate Plain(s: string)
  {
    forall i :: 0 <= i < |s| ==> ('a' <= s[i] <= 'z') || ('A' <= s[i] <= 'Z') || s[i] == ' '
  }

  lemma PlainConcat(a: string, b: string)
    requires Plain(a) && Plain(b)
    ensures Plain(a + b)
  {
    assert forall i :: 0 <= i < |a + b| ==> (a + b)[i] == if i < |a| then a[i] else b[i - |a|];
  }

  lemma DescriptionHeadPlain()
    ensures Plain("Get convex documentation LINKS")
  {
  }

  lemma DescriptionTailPlain()
    ensures Plain(" so you can fetch them as markdown")
  {
  }

  lemma DescriptionParts()
    ensures Description == "Get convex documentation LINKS" + " so you can fetch them as markdown"
  {
    var w := "Get convex documentation LINKS" + " so you can fetch them as markdown";
    assert |Description| == |w| == 64;
    assert forall i :: 0 <= i < 64 ==> Description[i] == w[i];
  }

  /** The description is words and spaces. */
  lemma DescriptionPlain()
    ensures Plain(Description)
  {
    DescriptionParts();
    DescriptionHeadPlain();
    DescriptionTailPlain();
    PlainConcat("Get convex documentation LINKS", " so you can fetch them as markdown");
  }

  lemma DescriptionNoDash()
    ensures '-' !in Description
  {
    DescriptionPlain();
  }

  lemma DescriptionLineNoDoubleDash()
    ensures NoDoubleDash(DescriptionLine)
  {
    DescriptionNoDash();
    assert '-' !in "description: ";
    NoDashNoDoubleDash("description: " + Description);
  }

  lemma MetadataLineNoDoubleDash()
    ensures NoDoubleDash(MetadataLine)
  {
    NoDashNoDoubleDash(MetadataLine);
  }

  lemma UpdatedLineNoDoubleDash(d: DateTime)
    ensures NoDoubleDash(UpdatedPrefix + FormatUtc(d))
  {
    NoDashNoDoubleDash(UpdatedPrefix);
    FormatUtcNoDoubleDash(d);
    NoDoubleDashConcat(UpdatedPrefix, FormatUtc(d));
  }

  lemma HeaderShape(updated: string, intro: string, coreText: string)
    ensures var h := HeaderLines(updated, intro, coreText);
      && |h| == 14 && h[0] == "---" && h[1] == NameLine && h[2] == DescriptionLine
      && h[3] == MetadataLine && h[4] == UpdatedPrefix + updated && h[5] == "---"
      && h[6] == "" && h[7] == intro && h[8] == "" && h[9] == ListOpen
  {
  }

  /** The first ten lines of the document, as `buildSkillContent` pushes
      them. */
  lemma DocHead(x: SkillInput, le: (string, string) -> bool)
    ensures var L := DocLines(x, le);
      && |L| >= 11 && L[0] == "---" && L[1] == NameLine && L[2] == DescriptionLine
      && L[3] == MetadataLine && L[4] == UpdatedPrefix + FormatUtc(x.updatedAt) && L[5] == "---"
      && L[6] == "" && L[7] == x.intro && L[8] == "" && L[9] == ListOpen
  {
    var u, c := FormatUtc(x.updatedAt), WrapList(x.core, MaxLen);
    var h := HeaderLines(u, x.intro, c);
    var rest := Sections(x, OrderedGroups(x), le) + [ListClose];
    assert DocLines(x, le) == h + rest;
    HeaderShape(u, x.intro, c);
    PrefixLines(h, rest);
  }

  lemma PrefixLines(h: seq<string>, rest: seq<string>)
    requires |h| >= 10
    ensures forall i :: 0 <= i < 10 ==> (h + rest)[i] == h[i]
  {
  }

  /** Rebuilding the document and reading its intro back gives the intro,
      trimmed, as long as the intro does not itself contain the list marker. */
  lemma IntroRoundTrip(x: SkillInput, le: (string, string) -> bool)
    requires Absent(x.intro, ListOpen)
    ensures ExtractIntro(BuildSkillContent(x, le)) == Trim(x.intro)
  {
    var L := DocLines(x, le);
    DocHead(x, le);
    NameLineNoDoubleDash();
    DescriptionLineNoDoubleDash();
    MetadataLineNoDoubleDash();
    UpdatedLineNoDoubleDash(x.updatedAt);
    BuildText(x, le);
    ExtractIntroOfLayout(L, "\n");
  }

  // ----- what the remembered orders decide -----

  /** The items of a group arrive in their remembered order, but compaction
      sorts them again: the remembered item order never shows in a section. */
  lemma {:induction false} SectionIgnoresItemOrder(items: seq<string>, preferred: seq<string>, le: (string, string) -> bool)
    requires NoDup(items) && NoDup(preferred) && TotalOrder(le)
    ensures Compact(SortByOrder(items, preferred), 0, le) == Compact(items, 0, le)
  {
    SortByOrderPermutation(items, preferred);
    CompactPermutation(SortByOrder(items, preferred), items, 0, le);
  }

  /** Every group gets exactly one section: the ordered group names are the
      record's keys, rearranged. */
  lemma OrderedGroupsPermutation(x: SkillInput)
    requires NoDup(GroupNames(x.groups)) && WellFormed(x.orders)
    ensures multiset(OrderedGroups(x)) == multiset(GroupNames(x.groups))
  {
    FilterNoDup(NotCore, x.orders.groupOrder);
    SortByOrderPermutation(GroupNames(x.groups), Filter(NotCore, x.orders.groupOrder));
  }
}
