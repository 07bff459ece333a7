/** `scripts/test-urls.ts`: the link checker that reads a generated skill
    document back into documentation URLs (`parseSkillMd`) and decides for
    one URL whether its markdown or its HTML form answers (`testUrl`).
    Reading the file, the network and the report printing are left to the
    caller: fetching is a function parameter from URL to status. */
module LinkCheck {
  import opened Wrappers
  import opened Seqs
  import opened Text
  import opened OrderMemory
  import Render

  const BaseUrl: string := "https://docs.convex.dev"

  /** The prefixes of lines that carry neither a heading nor items. */
  const SkipPrefixes: seq<string> :=
    ["---", "<", "HOW TO", "-", "Example", "IMPORTANT", "FORMAT", "Items", "All pages"]

  const CorePrefix: string := "CORE "

  /** A trimmed line the scanner passes over: empty, or starting with one of
      the skip prefixes. */
  predicate Skipped(t: string)
  {
    t == [] || exists i :: 0 <= i < |SkipPrefixes| && StartsWith(t, SkipPrefixes[i])
  }

  /** The two parts of a match of `/^[A-Z0-9 ]+ (\/[^\s]+\.)$/`, a heading
      whose path ends in a dot; the captured path is `"/" + b + "."`. A label
      has no slash, so the capture starts at the first slash of the line. */
  function DotParts(t: string): (r: Option<(string, string)>)
    ensures r.Some? ==>
      && t == r.value.0 + " /" + r.value.1 + "."
      && IsLabel(r.value.0) && r.value.1 != [] && NoSpace(r.value.1)
  {
    var i := IndexOf(t, '/');
    if 2 <= i && t[i - 1] == ' ' && i + 3 <= |t| && t[|t| - 1] == '.'
      && NoSpace(t[i + 1..|t| - 1]) && IsLabel(t[..i - 1])
    then
      var a, b := t[..i - 1], t[i + 1..|t| - 1];
      assert t == a + " /" + b + ".";
      Some((a, b))
    else None
  }

  /** The recogniser accepts every line of the dot-heading shape. */
  lemma DotPartsComplete(a: string, b: string)
    requires IsLabel(a) && b != [] && NoSpace(b)
    ensures DotParts(a + " /" + b + ".") == Some((a, b))
  {
    var t := a + " /" + b + ".";
    assert forall k :: 0 <= k < |a| ==> a[k] != '/';
    IndexOfConcat(a + " ", '/', b + ".");
    assert t == (a + " ") + ['/'] + (b + ".");
    assert t[..|a|] == a;
    assert t[|a| + 2..|t| - 1] == b;
  }

  /** The capture of `/^[A-Z0-9 ]+ (\/[^\/]+\/)$/`: the same shape as the
      headings the document reader of the generator recognises. */
  function SlashPath(t: string): Option<string>
  {
    match HeadingParts(t)
    case Some((_, g)) => Some("/" + g + "/")
    case None => None
  }

  function DotPath(t: string): Option<string>
  {
    match DotParts(t)
    case Some((_, b)) => Some("/" + b + ".")
    case None => None
  }

  /** A trimmed line that changes the section: the core heading or a path heading. */
  predicate OpensSection(t: string)
  {
    StartsWith(t, CorePrefix) || SlashPath(t).Some? || DotPath(t).Some?
  }

  /** A trimmed line whose comma-separated pieces are read as items. */
  predicate IsItemLine(t: string)
  {
    !Skipped(t) && !OpensSection(t)
  }

  /** The scanner's variables: the URLs found so far, the current path, whether
      it came from a dot heading, and whether the core section is open. */
  datatype Scan = Scan(urls: seq<string>, currentPath: Option<string>, pathEndsDot: bool, isCore: bool)

  const Start: Scan := Scan([], None, false, false)

  /** Items are read: the core section or a non-empty path is open. */
  predicate InSection(st: Scan)
  {
    st.isCore || (st.currentPath.Some? && st.currentPath.value != [])
  }

  /** The URLs one item contributes. */
  function ItemUrl(st: Scan, item: string): seq<string>
  {
    if st.isCore then [BaseUrl + "/" + item]
    else if st.currentPath.Some? && st.currentPath.value != [] then
      if st.pathEndsDot then [BaseUrl + st.currentPath.value + item]
      else [BaseUrl + st.currentPath.value + item]
    else []
  }

  /** The URLs of the items of one line, in item order: each item gives one
      URL inside a section and none outside. */
  function ItemUrls(st: Scan, items: seq<string>): (r: seq<string>)
    ensures |r| <= |items|
    ensures InSection(st) ==> |r| == |items|
    ensures !InSection(st) ==> r == []
    decreases |items|
  {
    if items == [] then [] else ItemUrl(st, items[0]) + ItemUrls(st, items[1..])
  }

  /** What the loop makes of one trimmed line: pass over it, open the core
      section, open a path section, or read its items. */
  datatype Line = Pass | Core | Path(path: string, endsDot: bool) | Items(items: seq<string>)

  function Kind(t: string): (r: Line)
    ensures r.Pass? <==> Skipped(t)
    ensures r.Items? <==> IsItemLine(t)
  {
    if Skipped(t) then Pass
    else if StartsWith(t, CorePrefix) then Core
    else if SlashPath(t).Some? then Path(SlashPath(t).value, false)
    else if DotPath(t).Some? then Path(DotPath(t).value, true)
    else Items(SplitItems(t))
  }

  /** What one line, classified, does to the scanner. */
  function Apply(st: Scan, k: Line): (r: Scan)
    ensures |st.urls| <= |r.urls| && r.urls[..|st.urls|] == st.urls
  {
    match k
    case Pass => st
    case Core => st.(isCore := true, currentPath := None)
    case Path(p, endsDot) => st.(currentPath := Some(p), pathEndsDot := endsDot, isCore := false)
    case Items(items) => st.(urls := st.urls + ItemUrls(st, items))
  }

  /** One iteration of the loop over the lines. */
  function Step(st: Scan, line: string): Scan
  {
    Apply(st, Kind(Trim(line)))
  }

  /** The loop over the lines: URLs are only ever appended. */
  function Run(st: Scan, lines: seq<string>): (r: Scan)
    ensures |st.urls| <= |r.urls| && r.urls[..|st.urls|] == st.urls
    decreases |lines|
  {
    if lines == [] then st else Run(Step(st, lines[0]), lines[1..])
  }

  /** `parseSkillMd(content)`. */
  function ParseSkillMd(content: string): seq<string>
  {
    Run(Start, SplitLines(content)).urls
  }

  // Section state

  /** The state the scanner keeps: core mode and a current path exclude each
      other, and a current path is a captured heading path whose last
      character agrees with `pathEndsDot`. */
  predicate Consistent(st: Scan)
  {
    && (st.isCore ==> st.currentPath.None?)
    && (st.currentPath.Some? ==>
          var p := st.currentPath.value;
          3 <= |p| && p[0] == '/' && p[|p| - 1] == (if st.pathEndsDot then '.' else '/'))
  }

  lemma StepConsistent(st: Scan, line: string)
    requires Consistent(st)
    ensures Consistent(Step(st, line))
  {
    KindShaped(Trim(line));
    ApplyConsistent(st, Kind(Trim(line)));
  }

  lemma ApplyConsistent(st: Scan, k: Line)
    requires Consistent(st)
    requires Shaped(k)
    ensures Consistent(Apply(st, k))
  {
  }

  /** A heading path starts with a slash and ends with the character its
      kind names. */
  predicate Shaped(k: Line)
  {
    k.Path? ==> 3 <= |k.path| && k.path[0] == '/' && k.path[|k.path| - 1] == (if k.endsDot then '.' else '/')
  }

  lemma KindShaped(t: string)
    ensures Shaped(Kind(t))
  {
    if !Kind(t).Path? {
    } else if SlashPath(t).Some? {
      var p := "/" + HeadingParts(t).value.1 + "/";
      assert SlashPath(t) == Some(p);
      assert p[0] == '/' && p[|p| - 1] == '/';
    } else {
      var p := "/" + DotParts(t).value.1 + ".";
      assert DotPath(t) == Some(p);
      assert p[0] == '/' && p[|p| - 1] == '.';
    }
  }

  lemma {:induction false} RunConsistent(st: Scan, lines: seq<string>)
    requires Consistent(st)
    ensures Consistent(Run(st, lines))
    decreases |lines|
  {
    if lines != [] {
      StepConsistent(st, lines[0]);
      RunConsistent(Step(st, lines[0]), lines[1..]);
    }
  }

  /** The scanner never has core mode and a path open together. */
  lemma {:induction false} ParseConsistent(lines: seq<string>)
    ensures !(Run(Start, lines).isCore && Run(Start, lines).currentPath.Some?)
  {
    RunConsistent(Start, lines);
  }

  /** A line matches at most one of the two heading patterns: one ends in a
      slash, the other in a dot. */
  lemma HeadingsExclusive(t: string)
    ensures !(SlashPath(t).Some? && DotPath(t).Some?)
  {
  }

  /** A skipped line, a blank line among them, changes nothing: in particular
      it does not end the current section. */
  lemma SkippedLine(st: Scan, line: string)
    requires Skipped(Trim(line))
    ensures Step(st, line) == st
  {
  }

  /** A line of white space only is skipped. */
  lemma BlankLineKeepsSection(st: Scan, line: string)
    requires forall i :: 0 <= i < |line| ==> IsSpace(line[i])
    ensures Step(st, line) == st
  {
    TrimStartAllSpace(line);
  }

  // Headings

  /** A path heading as the generator writes it, with a title that starts
      with a letter or digit, opens that path and leaves core mode. */
  lemma SlashHeadingOpensPath(st: Scan, title: string, g: string)
    requires IsLabel(title) && title[0] != ' ' && g != [] && '/' !in g
    requires !Skipped(Render.HeadingText(title, g)) && !StartsWith(Render.HeadingText(title, g), CorePrefix)
    ensures Step(st, Render.HeadingText(title, g)) == st.(currentPath := Some("/" + g + "/"), pathEndsDot := false, isCore := false)
  {
    var t := Render.HeadingText(title, g);
    assert t[0] == title[0];
    TrimIdentity(t);
    HeadingPartsComplete(title, g);
  }

  lemma DotHeadingOpensPath(st: Scan, title: string, b: string)
    requires IsLabel(title) && title[0] != ' ' && b != [] && NoSpace(b)
    requires !Skipped(title + " /" + b + ".") && !StartsWith(title + " /" + b + ".", CorePrefix)
    ensures Step(st, title + " /" + b + ".") == st.(currentPath := Some("/" + b + "."), pathEndsDot := true, isCore := false)
  {
    var t := title + " /" + b + ".";
    assert t[0] == title[0];
    TrimIdentity(t);
    DotPartsComplete(title, b);
    assert t[|t| - 1] == '.';
  }

  /** Every line whose trimmed text starts with `CORE ` switches to core mode
      and leaves the current path; so does the generator's core heading. */
  lemma CoreHeadingOpensCore(st: Scan, line: string)
    requires StartsWith(Trim(line), CorePrefix)
    ensures Step(st, line) == st.(isCore := true, currentPath := None)
  {
    var t := Trim(line);
    assert t[0] == CorePrefix[0] == 'C';
    SkippedCore(t);
  }

  lemma RenderedCoreHeading()
    ensures StartsWith(Trim(Render.CoreHeading), CorePrefix)
  {
    var t := Render.CoreHeading;
    assert t[..|CorePrefix|] == CorePrefix;
    assert t[0] == 'C' && t[|t| - 1] == '/';
    TrimIdentity(t);
  }

  /** No skip prefix starts with `C`. */
  lemma SkippedCore(t: string)
    requires t != [] && t[0] == 'C'
    ensures !Skipped(t)
  {
    forall i | 0 <= i < |SkipPrefixes|
      ensures !StartsWith(t, SkipPrefixes[i])
    {
      assert SkipPrefixes[i][0] != 'C';
    }
  }

  /** A heading whose title starts with a skip prefix, such as the title
      `FORMAT` a group named `format` gets by default, is passed over: its
      items are read under the section before it. */
  lemma SkippedHeading(st: Scan)
    ensures Step(st, "FORMAT /format/") == st
  {
    var t := "FORMAT /format/";
    assert t[..6] == SkipPrefixes[6];
    TrimIdentity(t);
  }

  // Items

  lemma {:induction false} ItemUrlsMap(st: Scan, items: seq<string>, prefix: string)
    requires forall item :: ItemUrl(st, item) == [prefix + item]
    ensures ItemUrls(st, items) == Map((item: string) => prefix + item, items)
    decreases |items|
  {
    if items != [] {
      ItemUrlsMap(st, items[1..], prefix);
      assert ItemUrl(st, items[0]) == [prefix + items[0]];
    }
  }

  /** Every item URL is on the documentation site. */
  lemma {:induction false} ItemUrlsOnSite(st: Scan, items: seq<string>)
    ensures forall i :: 0 <= i < |ItemUrls(st, items)| ==> StartsWith(ItemUrls(st, items)[i], BaseUrl)
    decreases |items|
  {
    if items != [] {
      ItemUrlsOnSite(st, items[1..]);
      var head, tail := ItemUrl(st, items[0]), ItemUrls(st, items[1..]);
      assert ItemUrls(st, items) == head + tail;
      forall i | 0 <= i < |head|
        ensures StartsWith(head[i], BaseUrl)
      {
        assert head[i][..|BaseUrl|] == BaseUrl;
      }
      forall i | 0 <= i < |head + tail|
        ensures StartsWith((head + tail)[i], BaseUrl)
      {
        if i >= |head| {
          assert (head + tail)[i] == tail[i - |head|];
        }
      }
    }
  }

  /** In core mode every item `t` becomes `https://docs.convex.dev/t`. */
  lemma CoreItems(st: Scan, line: string)
    requires st.isCore && IsItemLine(Trim(line))
    ensures Step(st, line).urls == st.urls + Map((item: string) => BaseUrl + "/" + item, SplitItems(Trim(line)))
  {
    ItemUrlsMap(st, SplitItems(Trim(line)), BaseUrl + "/");
  }

  /** Under a path heading every item `t` becomes the site, the path, then `t`. */
  lemma PathItems(st: Scan, line: string, p: string)
    requires !st.isCore && st.currentPath == Some(p) && p != [] && IsItemLine(Trim(line))
    ensures Step(st, line).urls == st.urls + Map((item: string) => BaseUrl + p + item, SplitItems(Trim(line)))
  {
    ItemUrlsMap(st, SplitItems(Trim(line)), BaseUrl + p);
  }

  /** What a line does to the URLs: nothing, or the URLs of its items. */
  lemma {:induction false} StepUrls(st: Scan, line: string)
    ensures || Step(st, line).urls == st.urls
            || Step(st, line).urls == st.urls + ItemUrls(st, SplitItems(Trim(line)))
  {
    var t := Trim(line);
    match Kind(t)
    case Items(items) =>
      assert items == SplitItems(t);
    case _ =>
  }

  /** No line opens a section. */
  predicate NoHeadings(lines: seq<string>)
  {
    forall i :: 0 <= i < |lines| ==> !OpensSection(Trim(lines[i]))
  }

  lemma NoHeadingsTail(lines: seq<string>)
    requires lines != [] && NoHeadings(lines)
    ensures !OpensSection(Trim(lines[0])) && NoHeadings(lines[1..])
  {
    assert forall i :: 0 <= i < |lines| - 1 ==> lines[1..][i] == lines[i + 1];
  }

  /** Before any heading, item lines produce nothing. */
  lemma {:induction false} NothingBeforeHeading(st: Scan, lines: seq<string>)
    requires !st.isCore && st.currentPath.None?
    requires NoHeadings(lines)
    ensures Run(st, lines) == st
    decreases |lines|
  {
    if lines != [] {
      NoHeadingsTail(lines);
      StepOutside(st, lines[0]);
      NothingBeforeHeading(st, lines[1..]);
    }
  }

  /** Outside a section a line that opens none changes nothing. */
  lemma StepOutside(st: Scan, line: string)
    requires !st.isCore && st.currentPath.None?
    requires !OpensSection(Trim(line))
    ensures Step(st, line) == st
  {
  }

  /** A document without any heading yields no URLs. */
  lemma {:induction false} NoHeadingNoUrls(lines: seq<string>)
    requires NoHeadings(lines)
    ensures Run(Start, lines).urls == []
  {
    NothingBeforeHeading(Start, lines);
  }

  /** Every URL found is on the documentation site. */
  lemma {:induction false} RunOnSite(st: Scan, lines: seq<string>)
    requires forall i :: 0 <= i < |st.urls| ==> StartsWith(st.urls[i], BaseUrl)
    ensures forall i :: 0 <= i < |Run(st, lines).urls| ==> StartsWith(Run(st, lines).urls[i], BaseUrl)
    decreases |lines|
  {
    if lines != [] {
      var next := Step(st, lines[0]);
      var extra := ItemUrls(st, SplitItems(Trim(lines[0])));
      StepUrls(st, lines[0]);
      ItemUrlsOnSite(st, SplitItems(Trim(lines[0])));
      forall i | 0 <= i < |st.urls + extra|
        ensures StartsWith((st.urls + extra)[i], BaseUrl)
      {
        if i >= |st.urls| {
          assert (st.urls + extra)[i] == extra[i - |st.urls|];
        }
      }
      RunOnSite(next, lines[1..]);
    }
  }

  lemma ParseOnSite(content: string)
    ensures forall i :: 0 <= i < |ParseSkillMd(content)| ==> StartsWith(ParseSkillMd(content)[i], BaseUrl)
  {
    RunOnSite(Start, SplitLines(content));
  }

  /** Reading lines one after another: the URLs of a concatenation are those
      of the first part followed by those of the second, read in the state
      the first part left. */
  lemma {:induction false} RunConcat(st: Scan, a: seq<string>, b: seq<string>)
    ensures Run(st, a + b) == Run(Run(st, a), b)
    decreases |a|
  {
    if a == [] {
      assert a + b == b;
    } else {
      assert (a + b)[0] == a[0];
      assert (a + b)[1..] == a[1..] + b;
      RunConcat(Step(st, a[0]), a[1..], b);
    }
  }

  // Dot and slash paths

  /** The state with the dot flag cleared. */
  function Unflagged(st: Scan): (r: Scan)
    ensures !r.pathEndsDot
  {
    st.(pathEndsDot := false)
  }

  lemma StepIgnoresDotFlag(s1: Scan, s2: Scan, line: string)
    requires Unflagged(s1) == Unflagged(s2)
    ensures Unflagged(Step(s1, line)) == Unflagged(Step(s2, line))
  {
    var t := Trim(line);
    if !Skipped(t) && !OpensSection(t) {
      ItemUrlsIgnoresDotFlag(s1, s2, SplitItems(t));
    }
  }

  lemma {:induction false} ItemUrlsIgnoresDotFlag(s1: Scan, s2: Scan, items: seq<string>)
    requires Unflagged(s1) == Unflagged(s2)
    ensures ItemUrls(s1, items) == ItemUrls(s2, items)
    decreases |items|
  {
    if items != [] {
      assert s1.isCore == s2.isCore && s1.currentPath == s2.currentPath;
      ItemUrlsIgnoresDotFlag(s1, s2, items[1..]);
    }
  }

  /** A dot path and a slash path are used the same way: the URLs never
      depend on which kind of heading opened the section. */
  lemma {:induction false} RunIgnoresDotFlag(s1: Scan, s2: Scan, lines: seq<string>)
    requires Unflagged(s1) == Unflagged(s2)
    ensures Run(s1, lines).urls == Run(s2, lines).urls
    decreases |lines|
  {
    if lines == [] {
      assert s1.urls == Unflagged(s1).urls;
    } else {
      StepIgnoresDotFlag(s1, s2, lines[0]);
      RunIgnoresDotFlag(Step(s1, lines[0]), Step(s2, lines[0]), lines[1..]);
    }
  }

  // Line endings

  lemma StepTrimmed(st: Scan, a: string, b: string)
    requires Trim(a) == Trim(b)
    ensures Step(st, a) == Step(st, b)
  {
  }

  lemma {:induction false} RunTrimmed(st: Scan, a: seq<string>, b: seq<string>)
    requires Map(Trim, a) == Map(Trim, b)
    ensures Run(st, a) == Run(st, b)
    decreases |a|
  {
    if a != [] {
      assert |b| == |Map(Trim, b)| == |Map(Trim, a)| == |a|;
      MapIndex(Trim, a, 0);
      MapIndex(Trim, b, 0);
      StepTrimmed(st, a[0], b[0]);
      assert Map(Trim, a[1..]) == Map(Trim, a)[1..];
      assert Map(Trim, b[1..]) == Map(Trim, b)[1..];
      RunTrimmed(Step(st, a[0]), a[1..], b[1..]);
    }
  }

  /** A document with CRLF line ends reads like one split at line feeds alone. */
  lemma {:induction false} ParseIgnoresCarriageReturns(content: string)
    ensures ParseSkillMd(content) == Run(Start, Split(content, '\n')).urls
  {
    TrimmedSplitLines(content);
    RunTrimmed(Start, SplitLines(content), Split(content, '\n'));
  }

  /** A joined list starts where its first piece starts and ends where its
      last piece ends. */
  lemma {:induction false} JoinEnds(items: seq<string>, sep: string)
    requires items != [] && items[0] != [] && items[|items| - 1] != []
    ensures var j := Join(items, sep); var last := items[|items| - 1];
      j != [] && j[0] == items[0][0] && j[|j| - 1] == last[|last| - 1]
  {
    var first, last := items[0], items[|items| - 1];
    if |items| > 1 {
      var j := Join(items, sep);
      assert j == first + sep + Join(items[1..], sep);
      assert j[0] == first[0];
      JoinSnoc(items[..|items| - 1], last, sep);
      assert items[..|items| - 1] + [last] == items;
    }
  }

  /** A joined item list whose items are trimmed and non-empty is itself trimmed. */
  lemma {:induction false} JoinTrimmed(items: seq<string>)
    requires items != []
    requires forall i :: 0 <= i < |items| ==> items[i] != [] && Trim(items[i]) == items[i]
    ensures Trim(Join(items, ", ")) == Join(items, ", ")
  {
    var first, last := items[0], items[|items| - 1];
    assert Trim(first) == first && Trim(last) == last;
    JoinEnds(items, ", ");
    TrimIdentity(Join(items, ", "));
  }

  /** Two lines read one after the other. */
  lemma {:induction false} RunTwo(st: Scan, a: string, b: string)
    ensures Run(st, [a, b]) == Step(Step(st, a), b)
  {
    var s1 := Step(st, a);
    var s2 := Step(s1, b);
    assert [a, b][1..] == [b];
    assert Run(st, [a, b]) == Run(s1, [b]);
    assert [b][1..] == [];
    assert Run(s1, [b]) == Run(s2, []);
  }

  /** A section as the generator writes it for plain items, its heading line
      and its line of comma-separated items, reads back as one URL per item:
      the site, the group path, the item. */
  lemma {:induction false} RenderedSection(st: Scan, title: string, g: string, items: seq<string>)
    requires IsLabel(title) && title[0] != ' ' && g != [] && '/' !in g
    requires !Skipped(Render.HeadingText(title, g)) && !StartsWith(Render.HeadingText(title, g), CorePrefix)
    requires items != []
    requires forall i :: 0 <= i < |items| ==> items[i] != [] && ',' !in items[i] && Trim(items[i]) == items[i]
    requires IsItemLine(Join(items, ", "))
    ensures var p := "/" + g + "/";
      Run(st, [Render.HeadingText(title, g), Join(items, ", ")]).urls
        == st.urls + Map((item: string) => BaseUrl + p + item, items)
  {
    var h, line := Render.HeadingText(title, g), Join(items, ", ");
    var p := "/" + g + "/";
    SlashHeadingOpensPath(st, title, g);
    var st1 := Step(st, h);
    JoinTrimmed(items);
    PathItems(st1, line, p);
    SplitItemsOfJoin(items);
    RunTwo(st, h, line);
  }

  // URL probing

  /** A fetch result: an HTTP status, or `"error"` when the request failed. */
  datatype Status = Code(code: int) | Failed

  const Ok: Status := Code(200)

  datatype UrlResult = UrlResult(
    url: string,
    mdStatus: Status,
    htmlStatus: Option<Status>,
    working: bool,
    workingUrl: Option<string>,
    mdWorks: bool)

  /** `testUrl(baseUrl)`, with the network as `fetch`: the markdown form is
      tried first, the page itself only when that fails. */
  function TestUrl(base: string, fetch: string -> Status): (r: UrlResult)
    ensures r.url == base && r.mdStatus == fetch(base + ".md")
    ensures r.mdWorks <==> fetch(base + ".md") == Ok
    ensures r.working <==> fetch(base + ".md") == Ok || fetch(base) == Ok
    ensures r.htmlStatus.Some? <==> !r.mdWorks
    ensures r.htmlStatus.Some? ==> r.htmlStatus.value == fetch(base)
    ensures r.working <==> r.workingUrl.Some?
    ensures r.workingUrl.Some? ==> fetch(r.workingUrl.value) == Ok
    ensures r.mdWorks ==> r.workingUrl == Some(base + ".md")
    ensures r.working && !r.mdWorks ==> r.workingUrl == Some(base)
  {
    var mdUrl := base + ".md";
    var mdStatus := fetch(mdUrl);
    if mdStatus == Ok then UrlResult(base, mdStatus, None, true, Some(mdUrl), true)
    else
      var htmlStatus := fetch(base);
      if htmlStatus == Ok then UrlResult(base, mdStatus, Some(htmlStatus), true, Some(base), false)
      else UrlResult(base, mdStatus, Some(htmlStatus), false, None, false)
  }

  /** When the markdown form answers, the page itself is never consulted. */
  lemma MarkdownFirst(base: string, f: string -> Status, g: string -> Status)
    requires f(base + ".md") == Ok && g(base + ".md") == Ok
    ensures TestUrl(base, f) == TestUrl(base, g)
  {
  }
}
