/** The decision `updateSkill` (index.ts) takes after reading the current
    document and the sitemap: it stops when the document is at least as new
    as the sitemap, rebuilds the document otherwise, and writes it only when
    it differs from the current one in more than its `updated:` line. The
    file system, the fetch, the wall clock, the JavaScript date parser and
    URL parser are parameters. */
module Sync {
  import opened Wrappers
  import opened Seqs
  import opened Text
  import opened Timestamp
  import opened OrderMemory
  import opened Sitemap
  import opened Classify
  import opened Intro
  import opened Render
  import opened UpdatedLine
  import opened Wrap

  // ----- the decision -----

  /** `parseTimestamp(existing.match(/updated:\s*(.+)/)?.[1])`. */
  function ExistingUpdated(existing: string, parseDate: string -> Option<Instant>): Option<Instant>
  {
    ParseTimestamp(ExtractUpdated(existing), parseDate)
  }

  /** `extractLastMod(xml) ?? parseTimestamp(lastModified ?? undefined)`:
      the sitemap's own dates win over the `Last-Modified` header. */
  function SitemapUpdated(xml: string, lastModified: Option<string>, parseDate: string -> Option<Instant>): (r: Option<Instant>)
    ensures ExtractLastMod(xml, parseDate).Some? ==> r == ExtractLastMod(xml, parseDate)
    ensures ExtractLastMod(xml, parseDate).None? ==> r == ParseTimestamp(lastModified, parseDate)
  {
    match ExtractLastMod(xml, parseDate)
    case Some(t) => Some(t)
    case None => ParseTimestamp(lastModified, parseDate)
  }

  /** The first gate: both dates are known and the sitemap is not newer. */
  predicate UpToDate(existingUpdated: Option<Instant>, sitemapUpdated: Option<Instant>)
  {
    existingUpdated.Some? && sitemapUpdated.Some? && sitemapUpdated.value <= existingUpdated.value
  }

  /** The second gate: the texts agree once their `updated:` lines are cut. */
  predicate SameContent(next: string, existing: string)
  {
    StripTimestamp(next) == StripTimestamp(existing)
  }

  /** How a run ends: at the first gate, at the second, or by writing. */
  datatype Outcome = Current | Unchanged | Write(content: string)

  /** The document the run builds: the classified pages under the
      remembered orders, stamped with the sitemap's date or, failing that,
      the wall clock `now`, and the intro of the current document. */
  function NextInput(existing: string, xml: string, sitemapUpdated: Option<Instant>, now: Instant,
                     fields: Instant -> DateTime, parseUrl: string -> Option<Link>): SkillInput
  {
    var orders := ParseExistingOrders(existing);
    var r := ClassifyPages(Map(parseUrl, ExtractUrls(xml)), orders);
    var updatedAt := if sitemapUpdated.Some? then sitemapUpdated.value else now;
    SkillInput(fields(updatedAt), r.core, r.groups, orders, ExtractIntro(existing))
  }

  /** `updateSkill` after the fetch succeeded, as a decision: `parseDate`
      stands for `new Date(...)` with its `NaN` check, `fields` for the UTC
      getters of a `Date`, `parseUrl` for `new URL(...)`, and `le(a, b)` for
      `a.localeCompare(b) <= 0`. */
  function UpdateSkill(existing: string, xml: string, lastModified: Option<string>, now: Instant,
                       parseDate: string -> Option<Instant>, fields: Instant -> DateTime,
                       parseUrl: string -> Option<Link>, le: (string, string) -> bool): (r: Outcome)
    ensures r.Current? <==> UpToDate(ExistingUpdated(existing, parseDate), SitemapUpdated(xml, lastModified, parseDate))
    ensures r.Unchanged? ==> SameContent(BuildSkillContent(NextInput(existing, xml, SitemapUpdated(xml, lastModified, parseDate), now, fields, parseUrl), le), existing)
    ensures r.Write? ==>
      && !SameContent(r.content, existing)
      && r.content == BuildSkillContent(NextInput(existing, xml, SitemapUpdated(xml, lastModified, parseDate), now, fields, parseUrl), le)
  {
    var sitemapUpdated := SitemapUpdated(xml, lastModified, parseDate);
    if UpToDate(ExistingUpdated(existing, parseDate), sitemapUpdated) then Current
    else
      var next := BuildSkillContent(NextInput(existing, xml, sitemapUpdated, now, fields, parseUrl), le);
      if SameContent(next, existing) then Unchanged else Write(next)
  }

  // ----- the header lines hold no match -----

  /** The four lines before the `updated:` line. */
  const Head: seq<string> := ["---", NameLine, DescriptionLine, MetadataLine]

  lemma DescriptionOneLine()
    ensures NoBreak(Description) && ':' !in Description
  {
    DescriptionPlain();
  }

  lemma DescriptionLineQuiet()
    ensures Quiet(DescriptionLine, Key) && NoKey(DescriptionLine, Key)
  {
    DescriptionOneLine();
    var a := "description: ";
    assert NoBreak(a);
    NoBreakConcat(a, Description);
    assert DescriptionLine[0] == 'd';
    assert forall t :: 13 <= t < |DescriptionLine| ==> DescriptionLine[t] == Description[t - 13];
    assert forall t :: 0 <= t < 13 && t != 11 ==> DescriptionLine[t] != ':';
    NoKeyByColon(DescriptionLine, 11);
  }

  lemma NameLineQuiet()
    ensures Quiet(NameLine, Key) && NoKey(NameLine, Key)
  {
    NoKeyByColon(NameLine, 4);
  }

  lemma MetadataLineQuiet()
    ensures Quiet(MetadataLine, Key) && NoKey(MetadataLine, Key)
  {
    NoKeyByColon(MetadataLine, 8);
  }

  lemma DashesQuiet()
    ensures Quiet("---", Key) && NoKey("---", Key)
  {
    NoKeyByColon("---", 3);
  }

  lemma HeadQuiet()
    ensures forall i :: 0 <= i < |Head| ==> Quiet(Head[i], Key) && NoKey(Head[i], Key)
  {
    DashesQuiet();
    NameLineQuiet();
    DescriptionLineQuiet();
    MetadataLineQuiet();
  }

  // ----- the printed timestamp is one line -----

  lemma DigitsOneLine(s: string)
    requires forall i :: 0 <= i < |s| ==> IsDigit(s[i])
    ensures NoBreak(s)
  {
  }

  lemma YearOneLine(y: int)
    ensures NoBreak(YearText(y)) && !IsSpace(YearText(y)[0])
  {
    if y < 0 {
      DigitsOneLine(Digits(-y));
      NoBreakConcat("-", Digits(-y));
    } else {
      DigitsOneLine(YearText(y));
    }
  }

  lemma DateOneLine(d: DateTime)
    ensures NoBreak(DateText(d)) && !IsSpace(DateText(d)[0])
  {
    var y, m, dd := YearText(d.year), Two(d.monthIndex + 1), Two(d.day);
    YearOneLine(d.year);
    DigitsOneLine(m);
    DigitsOneLine(dd);
    NoBreakConcat(y, "-");
    NoBreakConcat(y + "-", m);
    NoBreakConcat(y + "-" + m, "-");
    NoBreakConcat(y + "-" + m + "-", dd);
  }

  lemma ClockOneLine(d: DateTime)
    ensures NoBreak(ClockText(d))
  {
    var h, m, sec := Two(d.hour), Two(d.minute), Two(d.second);
    DigitsOneLine(h);
    DigitsOneLine(m);
    DigitsOneLine(sec);
    NoBreakConcat(h, ":");
    NoBreakConcat(h + ":", m);
    NoBreakConcat(h + ":" + m, ":");
    NoBreakConcat(h + ":" + m + ":", sec);
  }

  /** `formatUtc` prints one line that starts with a visible character. */
  lemma FormatUtcOneLine(d: DateTime)
    ensures var f := FormatUtc(d); f != [] && !IsSpace(f[0]) && NoBreak(f)
  {
    var date, clock := DateText(d), ClockText(d);
    DateOneLine(d);
    ClockOneLine(d);
    NoBreakConcat(date, " ");
    NoBreakConcat(date + " ", clock);
    NoBreakConcat(date + " " + clock, " UTC");
  }

  // ----- where the `updated:` line sits in the document -----

  /** What follows the printed timestamp: the line break and the lines
      after the `updated:` line. */
  function AfterStamp(x: SkillInput, le: (string, string) -> bool): string
  {
    var L := DocLines(x, le);
    DocHead(x, le);
    "\n" + Join(L[5..], "\n") + "\n"
  }

  lemma PrefixIsKey()
    ensures "  " + Key + " " == UpdatedPrefix
  {
    assert "  " + "updated:" + " " == "  updated: ";
  }

  /** Lines that start with the head lines and `  updated: <v>`, joined and
      ended by a line break. */
  lemma {:induction false} LayoutText(L: seq<string>, v: string)
    requires |L| >= 6 && L[..4] == Head && L[4] == UpdatedPrefix + v
    ensures Join(L, "\n") + "\n" == Lines(Head) + ("  " + Key + " " + v + ("\n" + Join(L[5..], "\n") + "\n"))
  {
    JoinAfterLines(L, 4);
    JoinAt(L, 4, "\n");
    PrefixIsKey();
    var A, P, J := Lines(Head), UpdatedPrefix, Join(L[5..], "\n");
    assert Join(L, "\n") + "\n" == A + ((P + v) + "\n" + J) + "\n";
    ConcatAssoc(A, (P + v) + "\n" + J, "\n");
    ConcatAssoc(P + v, "\n", J);
    ConcatAssoc(P + v, "\n" + J, "\n");
  }

  /** The document is the head lines, the line `  updated: <date>`, and the rest. */
  lemma DocText(x: SkillInput, le: (string, string) -> bool)
    ensures BuildSkillContent(x, le) == Lines(Head) + ("  " + Key + " " + FormatUtc(x.updatedAt) + AfterStamp(x, le))
  {
    var L := DocLines(x, le);
    DocHeadLines(x, le);
    LayoutText(L, FormatUtc(x.updatedAt));
    BuildText(x, le);
  }

  lemma DocHeadLines(x: SkillInput, le: (string, string) -> bool)
    ensures var L := DocLines(x, le);
      |L| >= 6 && L[..4] == Head && L[4] == UpdatedPrefix + FormatUtc(x.updatedAt)
  {
    DocHead(x, le);
    FirstFour(DocLines(x, le));
  }

  lemma FirstFour<T>(L: seq<T>)
    requires |L| >= 4
    ensures L[..4] == [L[0], L[1], L[2], L[3]]
  {
  }

  lemma CutMiddle(a: string, w: string, t: string)
    ensures var s := a + (w + t); s[..|a|] + s[|a| + |w|..] == a + t
  {
    var s := a + (w + t);
    assert s[..|a|] == a;
    assert s[|a| + |w|..] == t;
  }

  lemma AfterStampStartsLine(x: SkillInput, le: (string, string) -> bool)
    ensures AfterStamp(x, le) != [] && IsLineTerminator(AfterStamp(x, le)[0])
  {
  }

  // ----- what the gates see in a rebuilt document -----

  /** After the head lines, a line `  updated: <v>` is the first
      `^\s*updated:\s*.+$` match, and what `/updated:\s*(.+)/` captures. */
  lemma StampLine(v: string, t: string)
    requires v != [] && !IsSpace(v[0]) && NoBreak(v)
    requires t != [] && IsLineTerminator(t[0])
    ensures var s := Lines(Head) + ("  " + Key + " " + v + t);
      && StripTimestamp(s) == Lines(Head) + t
      && ExtractUpdated(s) == Some(v)
  {
    StampLineStrip(v, t);
    StampLineCapture(v, t);
  }

  lemma KeyShape()
    ensures Key != [] && Key[0] == 'u' && '\n' !in Key
  {
  }

  lemma StampLineStrip(v: string, t: string)
    requires v != [] && !IsSpace(v[0]) && NoBreak(v)
    requires t != [] && IsLineTerminator(t[0])
    ensures StripTimestamp(Lines(Head) + ("  " + Key + " " + v + t)) == Lines(Head) + t
  {
    var w := "  " + Key + " " + v;
    HeadQuiet();
    KeyShape();
    KeyLineMatch(Key, v, t);
    assert |w| == |"  " + Key| + 1 + |v|;
    StripAfterQuiet(Head, w, t);
  }

  /** Behind quiet lines, a text whose first match spans its first part
      `w` loses exactly `w`. */
  lemma {:induction false} StripAfterQuiet(ls: seq<string>, w: string, t: string)
    requires forall i :: 0 <= i < |ls| ==> Quiet(ls[i], Key)
    requires FirstLineMatch(w + t, Key, 0) == Some((0, |w|))
    ensures StripTimestamp(Lines(ls) + (w + t)) == Lines(ls) + t
  {
    var l := Lines(ls);
    SkipQuietLines(ls, w + t, Key);
    ShiftStart(FirstLineMatch(w + t, Key, 0), |w|, |l|);
    StripAt(l + (w + t), |l|, |l| + |w|);
    CutMiddle(l, w, t);
  }

  lemma ShiftStart(r: Option<(nat, nat)>, y: nat, n: nat)
    requires r == Some((0, y))
    ensures Shift(r, n) == Some((n, n + y))
  {
  }

  /** `stripTimestamp` cuts exactly the first matched span. */
  lemma {:induction false} StripAt(s: string, p: nat, e: nat)
    requires FirstLineMatch(s, Key, 0) == Some((p, e))
    ensures StripTimestamp(s) == s[..p] + s[e..]
  {
  }

  lemma StampLineCapture(v: string, t: string)
    requires v != [] && !IsSpace(v[0]) && NoBreak(v)
    requires t != [] && IsLineTerminator(t[0])
    ensures ExtractUpdated(Lines(Head) + ("  " + Key + " " + v + t)) == Some(v)
  {
    var w := "  " + Key + " " + v;
    HeadQuiet();
    KeyShape();
    SkipNoKeyLines(Head, w + t, Key);
    KeyLineCapture(Key, v, t);
  }

  /** The first `^\s*updated:\s*.+$` match of a document is its
      `  updated:` line, so `stripTimestamp` leaves the head lines and
      everything after the printed timestamp. */
  lemma StripDoc(x: SkillInput, le: (string, string) -> bool)
    ensures StripTimestamp(BuildSkillContent(x, le)) == Lines(Head) + AfterStamp(x, le)
  {
    DocText(x, le);
    FormatUtcOneLine(x.updatedAt);
    AfterStampStartsLine(x, le);
    StampLine(FormatUtc(x.updatedAt), AfterStamp(x, le));
  }

  /** `/updated:\s*(.+)/` reads back exactly the timestamp the document
      prints. */
  lemma ExtractUpdatedDoc(x: SkillInput, le: (string, string) -> bool)
    ensures ExtractUpdated(BuildSkillContent(x, le)) == Some(FormatUtc(x.updatedAt))
  {
    DocText(x, le);
    FormatUtcOneLine(x.updatedAt);
    AfterStampStartsLine(x, le);
    StampLine(FormatUtc(x.updatedAt), AfterStamp(x, le));
  }

  // ----- a new timestamp alone is not a change -----

  lemma {:induction false} SectionsIgnoreStamp(x: SkillInput, t: DateTime, gs: seq<string>, le: (string, string) -> bool)
    ensures Render.Sections(x.(updatedAt := t), gs, le) == Render.Sections(x, gs, le)
    decreases |gs|
  {
    if gs != [] {
      SectionsIgnoreStamp(x, t, gs[1..], le);
    }
  }

  lemma HeaderRest(u1: string, u2: string, intro: string, coreText: string)
    ensures |HeaderLines(u1, intro, coreText)| == |HeaderLines(u2, intro, coreText)| == 14
    ensures HeaderLines(u1, intro, coreText)[5..] == HeaderLines(u2, intro, coreText)[5..]
  {
  }

  lemma DropFront(h1: seq<string>, h2: seq<string>, r: seq<string>)
    requires |h1| == |h2| >= 5 && h1[5..] == h2[5..]
    ensures (h1 + r)[5..] == (h2 + r)[5..]
  {
    assert (h1 + r)[5..] == h1[5..] + r;
    assert (h2 + r)[5..] == h2[5..] + r;
  }

  /** The document's lines: the header, then everything that does not
      depend on the date. */
  lemma {:induction false} DocLinesParts(x: SkillInput, le: (string, string) -> bool)
    ensures DocLines(x, le) == HeaderLines(FormatUtc(x.updatedAt), x.intro, WrapList(x.core, MaxLen))
      + (Render.Sections(x, OrderedGroups(x), le) + [ListClose])
  {
  }

  /** Only the `updated:` line of the document depends on its date. */
  lemma DocRestIgnoresStamp(x: SkillInput, t: DateTime, le: (string, string) -> bool)
    ensures DocLines(x.(updatedAt := t), le)[5..] == DocLines(x, le)[5..]
  {
    var x' := x.(updatedAt := t);
    var c := WrapList(x.core, MaxLen);
    assert OrderedGroups(x') == OrderedGroups(x);
    SectionsIgnoreStamp(x, t, OrderedGroups(x), le);
    DocLinesParts(x, le);
    DocLinesParts(x', le);
    HeaderRest(FormatUtc(t), FormatUtc(x.updatedAt), x.intro, c);
    DropFront(HeaderLines(FormatUtc(t), x.intro, c), HeaderLines(FormatUtc(x.updatedAt), x.intro, c),
      Render.Sections(x, OrderedGroups(x), le) + [ListClose]);
  }

  /** Two renderings of the same input that differ only in their date are
      the same content to the second gate. */
  lemma RestampedIsSameContent(x: SkillInput, t: DateTime, le: (string, string) -> bool)
    ensures SameContent(BuildSkillContent(x.(updatedAt := t), le), BuildSkillContent(x, le))
  {
    StripDoc(x, le);
    StripDoc(x.(updatedAt := t), le);
    DocRestIgnoresStamp(x, t, le);
  }

  // ----- the two gates on rebuilt documents -----

  /** The date a run reads from a document it wrote is what the date parser
      makes of the printed timestamp; for a four-digit year that text, once
      normalised, is the RFC 3339 form of the same fields. */
  lemma ExistingUpdatedDoc(x: SkillInput, le: (string, string) -> bool, parseDate: string -> Option<Instant>)
    ensures ExistingUpdated(BuildSkillContent(x, le), parseDate) == parseDate(Normalize(FormatUtc(x.updatedAt)))
    ensures ValidFields(x.updatedAt) && 1000 <= x.updatedAt.year <= 9999 ==> IsRfc3339Utc(Normalize(FormatUtc(x.updatedAt)))
  {
    ExtractUpdatedDoc(x, le);
    FormatUtcOneLine(x.updatedAt);
    if ValidFields(x.updatedAt) && 1000 <= x.updatedAt.year <= 9999 {
      NormalizeFormatUtc(x.updatedAt);
    }
  }

  /** The first gate on a document the tool wrote: when the sitemap is no
      newer than the date read back from the printed timestamp, the run
      stops there. */
  lemma StampedDocumentIsCurrent(x: SkillInput, xml: string, lastModified: Option<string>, now: Instant,
                                 parseDate: string -> Option<Instant>, fields: Instant -> DateTime,
                                 parseUrl: string -> Option<Link>, le: (string, string) -> bool)
    requires parseDate(Normalize(FormatUtc(x.updatedAt))).Some?
    requires SitemapUpdated(xml, lastModified, parseDate).Some?
    requires SitemapUpdated(xml, lastModified, parseDate).value <= parseDate(Normalize(FormatUtc(x.updatedAt))).value
    ensures UpdateSkill(BuildSkillContent(x, le), xml, lastModified, now, parseDate, fields, parseUrl, le) == Current
  {
    ExistingUpdatedDoc(x, le, parseDate);
  }

  /** The second gate: when the current document is what the run would
      write, except perhaps for its date, nothing is written. */
  lemma RestampedNotWritten(existing: string, xml: string, lastModified: Option<string>, now: Instant,
                            parseDate: string -> Option<Instant>, fields: Instant -> DateTime,
                            parseUrl: string -> Option<Link>, le: (string, string) -> bool, t: DateTime)
    requires var n := NextInput(existing, xml, SitemapUpdated(xml, lastModified, parseDate), now, fields, parseUrl);
      existing == BuildSkillContent(n.(updatedAt := t), le)
    ensures !UpdateSkill(existing, xml, lastModified, now, parseDate, fields, parseUrl, le).Write?
  {
    var n := NextInput(existing, xml, SitemapUpdated(xml, lastModified, parseDate), now, fields, parseUrl);
    RestampedIsSameContent(n, t, le);
  }
}
