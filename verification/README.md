# convex-docs skill index: a Dafny model

This project models the document engine of the `convex-docs` skill updater
(`index.ts`) and the link checker that ships next to it
(`scripts/test-urls.ts`). The updater works in five steps:

1. It reads the previous skill document back into its remembered group
   order, group labels and per-group item order.
2. It scans the Convex sitemap for page URLs and the newest `<lastmod>` date.
3. It sorts the pages into a CORE list and one group per top-level section.
4. It renders the document again, with items compacted by common prefix and
   wrapped at 100 characters.
5. It writes the document when the text has changed apart from its
   `updated:` line, unless both dates are known and the sitemap is not newer
   than the document.

The link checker reads such a document back into documentation URLs. It then
decides, per URL, whether the markdown form or the HTML page answers.

Every operation is a pure function over immutable values: strings are
`seq<char>`, records are datatypes, and JavaScript objects with
insertion-ordered keys are sequences of pairs. Loops become folds over a state
record. The effects the code performs become parameters:

- the date parser (`new Date(text)` with its `NaN` check) is
  `parseDate: string -> Option<Instant>`;
- the UTC field getters of a `Date` are `fields: Instant -> DateTime`;
- the URL parser (`new URL`) is `parseUrl: string -> Option<Link>`;
- the wall clock is `now`;
- `localeCompare` is an abstract comparison `le`;
- the network, in the link checker, is `fetch: string -> Status`.

JavaScript's default `sort()` order (UTF-16 code units) and `length` (UTF-16
code units) are written out exactly.

Modules, one per file:

- `Wrappers`, `Seqs`, `Sorting` and `Text` hold the JavaScript string and
  array operations the code uses: `trim`, `split`, `join`, `indexOf`,
  `replace` of a literal, `padStart`, `sort()` and `length`.
- `Timestamp` covers `formatUtc` and `parseTimestamp`.
- `OrderMemory` covers `parseExistingOrders`.
- `Sitemap` covers `extractUrls` and `extractLastMod`.
- `Classify` covers the two passes in `updateSkill` that file pathnames into
  CORE and groups.
- `Ordering` covers `sortByOrder`; `Compaction` covers `compactifyItems`;
  `Wrap` covers `wrapList`.
- `Intro` covers `extractIntro`; `Render` covers `buildSkillContent`.
- `UpdatedLine` holds hand-written recognisers for the two `updated:`
  regular expressions.
- `Sync` covers the decision in `updateSkill`: leave the file alone, or
  write it.
- `LinkCheck` covers `parseSkillMd` and `testUrl`.

Two things to know about how the model reads the code:

- Compaction carries only the first path segment, so the compacted list of
  one group cannot always be expanded back into its items:
  `["a/e", "a/b/c"]` and `["a/e", "b/c"]` both come out as `a/e, b/c`.
  `Compaction.CompactNotInjective` proves this for all names of that shape.
  The model follows the code.
- Both readers, `parseExistingOrders` and `parseSkillMd`, treat some lines as
  special because of their first characters. A group whose label begins with
  a skip prefix of the link checker (`FORMAT`, `IMPORTANT`, `HOW TO`, …) has
  its heading passed over by the checker, which then files its items under
  the previous section. `LinkCheck.SkippedHeading` shows this for the heading
  `FORMAT /format/`.

## Model

| member | source | states |
|---|---|---|
| Timestamp.ParseTimestamp | index.ts:14-19 | a missing or empty value gives nothing; otherwise the result is exactly the parser's verdict on the normalised text |
| Timestamp.Normalize | index.ts:16 | no contract of its own; `NormalizeFormatUtcText` states what it makes of a printed timestamp |
| Timestamp.Two | index.ts:22 | `pad` yields at least two decimal digits whose value is the field, exactly two below 100 |
| Timestamp.YearText | index.ts:23 | the year prints as digits, with a leading minus sign for a negative year |
| Timestamp.DateText | index.ts:23 | no contract of its own; specified by `DateTextShape` |
| Timestamp.ClockText | index.ts:23-25 | no contract of its own; specified by `ClockTextShape` |
| Timestamp.FourDigitYear | index.ts:23 | a year from 1000 to 9999 prints as four digits |
| Timestamp.DateTextShape | index.ts:23 | the date part is `YYYY-MM-DD` whose digit groups read back as the year, the 1-based month and the day |
| Timestamp.ClockTextShape | index.ts:23-25 | the time part is `HH:MM:SS` whose digit groups read back as the hour, minute and second |
| Timestamp.FormatUtc | index.ts:21-26 | the printed timestamp ends in ` UTC` |
| Timestamp.NormalizeFormatUtcText | index.ts:16-26 | for every date, whatever its year, trimming, then replacing the first ` UTC` with `Z` and the first space with `T`, turns the printed timestamp into date, `T`, time, `Z` |
| Timestamp.DateTextPlain | index.ts:23 | for every year, the printed date has no space and no `U` and starts with a digit or a minus sign |
| Timestamp.NormalizeFormatUtc | index.ts:16-26 | for a 4-digit year, the normalised timestamp has the `YYYY-MM-DDTHH:MM:SSZ` form of section 5.6 of RFC 3339, and its fields read back as the date's fields |
| OrderMemory.SplitLines | index.ts:29 | `split(/\r?\n/)` yields one piece per line feed plus one |
| OrderMemory.ParseIgnoresCR | index.ts:29 | the carriage returns dropped by `split(/\r?\n/)` make no difference once lines are trimmed |
| OrderMemory.HeadingParts | index.ts:57 | a recognised heading is a `[A-Z0-9 ]+` label, ` /`, a non-empty slash-free segment, `/`, and the two captures are those parts |
| OrderMemory.HeadingPartsComplete | index.ts:57 | every line of the heading shape is recognised, with exactly those captures |
| OrderMemory.Kind | index.ts:46-69 | no contract of its own; the order of its tests is that of the loop, and `HeadingParts`, `HeadingPartsComplete`, `BlankLineResets` and `StepGroupOrder` state what each kind does |
| OrderMemory.AddItems | index.ts:35-44 | adding items changes only the item order of the one group, which then exists |
| OrderMemory.Step | index.ts:46-69 | one line keeps the remembered orders duplicate-free |
| OrderMemory.Run | index.ts:46-69 | the whole fold keeps the remembered orders duplicate-free |
| OrderMemory.ParseExistingOrders | index.ts:28-72 | the parser is total and its group order and every item order are duplicate-free |
| OrderMemory.RunConcat | index.ts:46-69 | reading a concatenation of lines is reading the parts one after the other |
| OrderMemory.BlankLineResets | index.ts:48-51 | a blank line only clears the current group |
| OrderMemory.ItemLinesIgnoredWithoutGroup | index.ts:66-68 | without a current group, item lines change nothing |
| OrderMemory.StepGroupOrder | index.ts:52-64 | a `CORE ` line or a heading appends its group to the group order if it is new |
| OrderMemory.RunGroupOrder | index.ts:46-69 | the group order is the old order extended with the groups named, first occurrence only |
| OrderMemory.GroupOrderIsFirstSeen | index.ts:28-72 | the group order is the first-seen order of the groups the document names |
| OrderMemory.RunItemOrder | index.ts:35-69 | a group's item order is the old order extended with the items filed under it, first occurrence only |
| OrderMemory.ItemOrderIsFirstSeen | index.ts:28-72 | every group's item order is the first-seen order of the items filed under it |
| Ordering.SortByOrder | index.ts:94-99 | the output is as long as the preferred entries still present plus the items that are not preferred |
| Ordering.SortByOrderElements | index.ts:94-99 | the output has exactly the elements of the items |
| Ordering.SortByOrderShape | index.ts:94-99 | the output is the present preferred items first, then the others in code-unit order |
| Ordering.KeptInPreferredOrder | index.ts:96 | whichever preferred entries have gone, any two kept ones come out in the order they hold in the preferred list |
| Ordering.SortByOrderKeepsPreferred | index.ts:96 | when every preferred item is present, the output starts with the preferred list |
| Ordering.SortByOrderSelf | index.ts:94-99 | ordering a list by itself returns it unchanged |
| Ordering.SortByOrderPermutation | index.ts:94-99 | for duplicate-free inputs the output is a duplicate-free permutation of the items |
| Ordering.SortByOrderPermutationInvariant | index.ts:94-99 | the output depends only on the multiset of the items, not on their order |
| Sitemap.RunEnd | index.ts:116 | `[^<]+` ends at a `<` or at the end of the text |
| Sitemap.RunEndClear | index.ts:116 | no `<` occurs inside the run, so the run stops at the first `<` |
| Sitemap.MatchAt | index.ts:116 | a match at `p` ends after a non-empty capture and within the text; `MatchAtShape` states its parts |
| Sitemap.MatchAtShape | index.ts:116 | a match is an opening tag, non-empty `<`-free text, and a closing tag |
| Sitemap.Scan | index.ts:118-120 | no contract of its own; specified by `ScanShape` and `ScanElement` |
| Sitemap.ScanShape | index.ts:118-120 | every captured value is non-empty and free of `<` |
| Sitemap.ExtractUrls | index.ts:114-122 | every extracted URL is non-empty and free of `<` |
| Sitemap.ScanElement | index.ts:116-120 | a leading `<loc>` element yields its text, then the rest of the scan |
| Sitemap.ExtractUrlsOfElements | index.ts:114-122 | on a sitemap made of `<loc>u</loc>` elements, extraction returns exactly the list of `u` |
| Sitemap.Newest | index.ts:104-111 | the fold's result is at least every parsed date and the start value, and is one of them |
| Sitemap.ExtractLastMod | index.ts:101-112 | the result exists iff some `<lastmod>` value parses, and is the greatest parsed value |
| Compaction.PrefixOf | index.ts:138 | the prefix has no slash |
| Compaction.SplitAtSlash | index.ts:134-139 | an item with a slash is its prefix, `/`, its suffix |
| Compaction.AddSuffix | index.ts:140-141 | filing a suffix adds its prefix to the prefix keys if it is new |
| Compaction.BucketSpec | index.ts:133-143 | the buckets hold the slash-free items, and per prefix exactly the suffixes of the items with that prefix, with distinct keys |
| Compaction.Compact | index.ts:124-168 | no contract of its own; specified by `CompactPermutation`, `CompactLength`, `CompactIndexFirst`, `CompactStandalone` and `CompactExample` |
| Compaction.EmitRun | index.ts:162-164 | a run has one line per compacted suffix, and its first line carries the prefix |
| Compaction.SortedGroupKeys | index.ts:157 | the prefix groups come out sorted by the comparison, once per distinct prefix |
| Compaction.SortedGroupSuffixes | index.ts:157-159 | every sorted prefix group holds exactly the suffixes of its prefix |
| Compaction.CompactPermutation | index.ts:124-168 | for a total comparison, the output depends only on the multiset of the items |
| Compaction.CompactLength | index.ts:124-168 | for duplicate-free items the output has one line per item |
| Compaction.CompactNonEmpty | index.ts:124-168 | the output is empty exactly when the input is |
| Compaction.RunsNeverEmpty | index.ts:159-163 | no prefix group is empty, so the `undefined` first item never appears |
| Compaction.CompactIndexFirst | index.ts:126-151 | the output starts with `index` exactly when `index` is among the items |
| Compaction.StandaloneNotIndex | index.ts:127-154 | the sorted slash-free items never include `index` |
| Compaction.CompactStandalone | index.ts:124-147 | after the optional `index`, the output continues with exactly the slash-free items other than `index`, in code-unit order |
| Compaction.GroupsFirstHasSlash | index.ts:163 | the first line of the prefix runs carries a slash |
| Compaction.CompactOfPlain | index.ts:154 | slash-free items other than `index` come out in code-unit order |
| Compaction.CompactExample | index.ts:124-168 | `p/x, p/y, q/z` compacts to `p/x, y, q/z` |
| Compaction.CompactNotInjective | index.ts:157-164 | two different item lists, one nested and one flat, compact to the same lines |
| Wrap.WrapLines | index.ts:74-92 | no wrapped line is empty |
| Wrap.WrapList | index.ts:74-92 | no contract of its own; `WrapRejoin`, `WrapLinesFit`, `WrapLongItemAlone` and `WrapFits` state the lines it joins |
| Wrap.WrapRejoin | index.ts:74-92 | for non-empty items, the lines joined with `, ` give back the items joined with `, ` |
| Wrap.WrapLinesFit | index.ts:82-88 | every line is within the limit or is equal to one of the items |
| Wrap.WrapLongItemAlone | index.ts:82-88 | an item over the limit sits alone on its own line |
| Wrap.WrapFits | index.ts:74-92 | items whose joined text fits produce exactly that one line |
| Intro.DropNewlines | index.ts:175 | `\n*` removes exactly the leading line feeds |
| Intro.StripFrontmatter | index.ts:175 | no contract of its own; `ClosingDashes` states where the removed block ends |
| Intro.FormatUtcNoDoubleDash | index.ts:21-26 | a printed timestamp never holds `--`, so it cannot end the frontmatter early |
| Intro.ClosingDashes | index.ts:175 | the lazy frontmatter match stops at the first `---` after the opening one |
| Intro.FirstMarker | index.ts:176 | the first list marker after the intro is the one the document writes |
| Intro.TrimBlankLine | index.ts:177 | the text before the marker trims to the trimmed intro |
| Intro.ExtractIntroOfLayout | index.ts:173-178 | on the rendered layout the extracted intro is the trimmed intro line |
| Intro.ExtractIntroDefault | index.ts:177 | a document without the list marker yields the default intro |
| Intro.ExtractIntro | index.ts:173-178 | no contract of its own; specified by `ExtractIntroOfLayout` and `ExtractIntroDefault` |
| Render.GroupItems | index.ts:208 | a group missing from the record has no items; the first entry of a name gives its items |
| Render.OrderedGroups | index.ts:204-205 | no contract of its own; specified by `OrderedGroupsPermutation` |
| Render.Label | index.ts:207 | no contract of its own: the remembered label of the group when there is one, otherwise `DefaultLabel` of its name |
| Render.Sections | index.ts:206-212 | every group contributes three lines |
| Render.DocLines | index.ts:188-214 | no contract of its own; `DocHead` and `Sync.DocText` state its layout |
| Render.BuildSkillContent | index.ts:180-217 | the document ends with the closing marker and one line feed |
| Render.BuildText | index.ts:214-216 | the joined lines already end without white space, so `trimEnd` removes nothing |
| Render.DocHead | index.ts:189-198 | the document's first ten lines are the frontmatter with the printed timestamp, the intro and the list marker |
| Render.IntroRoundTrip | index.ts:173-217 | reading the intro back from a rendered document gives the trimmed intro, if the intro does not hold the list marker |
| Render.SectionIgnoresItemOrder | index.ts:208 | compaction re-sorts, so the remembered item order never shows in a group section |
| Render.OrderedGroupsPermutation | index.ts:204-205 | the rendered groups are the group record's keys, rearranged |
| Classify.StripMd | index.ts:252 | a final `.md` is removed and nothing else changes |
| Classify.DropTrailingSlashes | index.ts:253 | the result is the longest prefix that does not end in a slash, and only slashes are removed |
| Classify.DropLeadingSlash | index.ts:253 | one leading slash is removed, if there is one |
| Classify.Trimmed | index.ts:250-253 | the trimmed pathname never ends with a slash |
| Classify.TrailingAreSingle | index.ts:262-264 | every section seen with a trailing slash is also a single-segment page, so the second test at line 287 adds nothing |
| Classify.Visit | index.ts:242-273 | no contract of its own; `SinglePage` and `ChildPage` state how one URL is filed |
| Classify.Collect | index.ts:242-273 | no contract of its own; `TrailingAreSingle`, `SinglePage` and `ChildPage` state what the first loop collects |
| Classify.RestNeverEmpty | index.ts:269-270 | the rest of a multi-segment path is never empty, so the `index` default is never used |
| Classify.SinglePage | index.ts:255-265 | `/s` and `/s.md` both file `s` as a single-segment page |
| Classify.ChildPage | index.ts:268-272 | `/g/x` files child `x` under group `g` |
| Classify.AddItemItems | index.ts:281-282 | adding an item to a group's set changes that set only |
| Classify.FileChildrenKeys | index.ts:279-283 | the groups of the map are exactly the listed sections with children, in the same order |
| Classify.SectionsOfChildren | index.ts:277-280 | a section has children exactly when some child names it |
| Classify.ChildrenFiled | index.ts:279-283 | an item is in a group's set exactly when some child of that group has it as rest |
| Classify.FileChildren | index.ts:276-283 | no contract of its own; specified by `FileChildrenKeys`, `SectionsOfChildren` and `ChildrenFiled` |
| Classify.AddIndexesSpec | index.ts:286-290 | the second pass adds `index` exactly to the sections with a page of their own, and changes nothing else |
| Classify.AddIndexes | index.ts:286-290 | no contract of its own; specified by `AddIndexesSpec` |
| Classify.OrderGroups | index.ts:296-299 | one ordered group per entry of the map; `OrderGroupsSpec` states their items |
| Classify.OrderGroupsSpec | index.ts:296-299 | every group's items are ordered by the remembered item order, and no group is added or lost |
| Classify.Filed | index.ts:275-290 | after both passes the groups are exactly the sections with children |
| Classify.IndexFiled | index.ts:275-290 | a section holds `index` exactly when it has its own page or a child named `index` |
| Classify.Partition | index.ts:292-299 | CORE holds exactly the single-segment pages without children, and no name is both a CORE item and a group |
| Classify.SectionIndexPage | index.ts:285-293 | a page that also has children appears as `index` in its group and is not a CORE item |
| Classify.SectionIndex | index.ts:285-299 | in the final groups, a section holds `index` exactly when it has its own page or a child named `index` |
| Classify.ClassifyPages | index.ts:235-299 | no contract of its own; specified by `Partition`, `SectionIndexPage` and `SectionIndex` |
| UpdatedLine.Tail | index.ts:221 | a tail match of `\s*(.+)` lies within the text |
| UpdatedLine.SpaceEndSpec | index.ts:221 | `\s*` consumes only white space |
| UpdatedLine.LineEndSpec | index.ts:221 | `.+` stops at the first line terminator |
| UpdatedLine.LastDotSpec | index.ts:221 | backtracking `\s*` gives back only line terminators |
| UpdatedLine.TailSpec | index.ts:221 | `\s*(.+)` fails exactly when only line terminators remain; otherwise the capture follows white space, holds no line terminator and ends at one or at the end |
| UpdatedLine.CaptureFromSpec | index.ts:221 | the capture comes from the leftmost position where `updated:` is followed by a match of `\s*(.+)` |
| UpdatedLine.ExtractUpdated | index.ts:221 | no contract of its own; `CaptureFromSpec` states which text it captures |
| UpdatedLine.CaptureShift | index.ts:221 | a search started inside a later part of a text finds what it finds in that part |
| UpdatedLine.SkipNoKeyLines | index.ts:221 | lines without `updated:` before a text do not change what the search captures |
| UpdatedLine.KeyLineCapture | index.ts:221 | on `  updated: v` followed by a line break, the capture is `v` |
| UpdatedLine.FirstLineMatchSpec | index.ts:306 | the match found for `/^\s*updated:\s*.+$/m` is the first line start at which the pattern matches |
| UpdatedLine.FirstLineMatch | index.ts:306 | a match found at or after `p` is a non-empty span within the text; `FirstLineMatchSpec` states that it is the leftmost |
| UpdatedLine.FirstLineMatchShift | index.ts:306 | a line-anchored search inside a later part of a text finds what it finds in that part, shifted |
| UpdatedLine.SkipQuietLines | index.ts:306 | lines that cannot start a match before a text do not change the match, except by shifting it |
| UpdatedLine.KeyLineMatch | index.ts:306 | on `  updated: v` followed by a line break, the match covers that line without its break |
| UpdatedLine.StripTimestamp | index.ts:306 | the text is unchanged without a match; otherwise exactly the matched span is cut out |
| Sync.SitemapUpdated | index.ts:229 | the newest `<lastmod>` when there is one, otherwise the parsed `last-modified` header |
| Sync.ExistingUpdated | index.ts:221 | no contract of its own; `ExistingUpdatedDoc` states what it reads from a rendered document |
| Sync.NextInput | index.ts:222-303 | no contract of its own; `UpdateSkill`, `StampedDocumentIsCurrent` and `RestampedNotWritten` state what is done with it |
| Sync.UpdateSkill | index.ts:219-311 | the file is left as it is exactly when both dates exist and the sitemap is not newer; otherwise the new text is written exactly when it differs outside the `updated:` line |
| Sync.HeadQuiet | index.ts:189-192 | the four lines before the `updated:` line neither hold `updated:` nor can start a line match |
| Sync.FormatUtcOneLine | index.ts:21-26 | a printed timestamp is one line that does not start with white space |
| Sync.DocText | index.ts:188-216 | a rendered document is the four head lines, `  updated: `, the printed timestamp, then the rest |
| Sync.StampLine | index.ts:193 | in a head followed by an `updated:` line, the capture is the value and the strip removes exactly that line |
| Sync.StripDoc | index.ts:306 | stripping a rendered document removes exactly its `updated:` line |
| Sync.ExtractUpdatedDoc | index.ts:221 | the timestamp read from a rendered document is the one it printed |
| Sync.SectionsIgnoreStamp | index.ts:206-212 | the group sections do not depend on the timestamp |
| Sync.DocRestIgnoresStamp | index.ts:194-216 | every line after the `updated:` line does not depend on the timestamp |
| Sync.RestampedIsSameContent | index.ts:305-309 | two renderings that differ only in their timestamp are the same content |
| Sync.ExistingUpdatedDoc | index.ts:221 | the stamp of a rendered document is parsed from its normalised timestamp, which is in RFC 3339 form for a 4-digit year |
| Sync.StampedDocumentIsCurrent | index.ts:231-233 | a rendered document is left alone when the sitemap is not newer than its parsed stamp |
| Sync.RestampedNotWritten | index.ts:305-309 | a document that is the next rendering under another timestamp is never written |
| LinkCheck.DotParts | scripts/test-urls.ts:62 | a recognised dot heading is a `[A-Z0-9 ]+` label, ` /`, non-empty text without white space, `.` |
| LinkCheck.DotPartsComplete | scripts/test-urls.ts:62 | every line of the dot-heading shape is recognised, with exactly those parts |
| LinkCheck.Kind | scripts/test-urls.ts:47-79 | a line is passed over exactly when it is skipped, and read as items exactly when it neither is skipped nor opens a section |
| LinkCheck.Step | scripts/test-urls.ts:46-93 | no contract of its own; `SkippedLine`, `CoreHeadingOpensCore`, `SlashHeadingOpensPath`, `DotHeadingOpensPath`, `CoreItems` and `PathItems` state what one line does |
| LinkCheck.ItemUrls | scripts/test-urls.ts:80-92 | inside a section every item gives one URL; outside, items give none |
| LinkCheck.Apply | scripts/test-urls.ts:46-93 | a line only ever appends URLs |
| LinkCheck.Run | scripts/test-urls.ts:46-93 | the loop only ever appends URLs, so earlier URLs keep their place |
| LinkCheck.ParseConsistent | scripts/test-urls.ts:53-76 | core mode and a current path are never both set |
| LinkCheck.RunConsistent | scripts/test-urls.ts:46-93 | the loop keeps core mode and a path exclusive, and a path ends with `.` exactly when it came from a dot heading |
| LinkCheck.HeadingsExclusive | scripts/test-urls.ts:61-62 | no line is both a slash heading and a dot heading |
| LinkCheck.SkippedLine | scripts/test-urls.ts:47-50 | a skipped line leaves the state unchanged |
| LinkCheck.BlankLineKeepsSection | scripts/test-urls.ts:48 | a blank line leaves the state unchanged, so it does not end a section |
| LinkCheck.SlashHeadingOpensPath | scripts/test-urls.ts:64-69 | a slash heading sets the path to `/g/`, clears the dot flag and leaves core mode |
| LinkCheck.DotHeadingOpensPath | scripts/test-urls.ts:71-76 | a dot heading sets the path to its capture, sets the dot flag and leaves core mode |
| LinkCheck.CoreHeadingOpensCore | scripts/test-urls.ts:53-57 | every line whose trimmed text starts with `CORE ` enters core mode and clears the path |
| LinkCheck.RenderedCoreHeading | index.ts:200 | the core heading the generator writes is such a line |
| LinkCheck.SkippedHeading | scripts/test-urls.ts:48 | a heading whose label starts with a skip prefix is passed over |
| LinkCheck.CoreItems | scripts/test-urls.ts:81-83 | in core mode each item `t` appends `https://docs.convex.dev/t`, in item order |
| LinkCheck.PathItems | scripts/test-urls.ts:84-91 | under a path each item `t` appends the site, the path and `t`, in item order |
| LinkCheck.NothingBeforeHeading | scripts/test-urls.ts:79-93 | item lines before any heading or `CORE ` line produce nothing |
| LinkCheck.NoHeadingNoUrls | scripts/test-urls.ts:39-97 | a document without any heading yields no URLs |
| LinkCheck.ParseOnSite | scripts/test-urls.ts:39-97 | every URL found starts with `https://docs.convex.dev` |
| LinkCheck.RunConcat | scripts/test-urls.ts:46-93 | the URLs of a concatenation are those of the first part, then those of the second |
| LinkCheck.ParseSkillMd | scripts/test-urls.ts:39-97 | no contract of its own; specified by `ParseOnSite`, `NoHeadingNoUrls`, `ParseIgnoresCarriageReturns` and `RenderedSection` |
| LinkCheck.RunIgnoresDotFlag | scripts/test-urls.ts:84-91 | the URLs never depend on whether the section came from a dot or a slash heading |
| LinkCheck.ParseIgnoresCarriageReturns | scripts/test-urls.ts:41-47 | a document with CRLF line ends reads like one split at line feeds alone |
| LinkCheck.RenderedSection | scripts/test-urls.ts:61-91 | a heading and a line of plain items as the generator writes them read back as the site, `/g/` and each item, in order |
| LinkCheck.TestUrl | scripts/test-urls.ts:99-113 | working iff the markdown or the page answers 200, `mdWorks` iff the markdown does, the page is asked only when the markdown fails, and the working URL is the markdown URL when that answered and otherwise the page URL, which answered 200 |
| LinkCheck.MarkdownFirst | scripts/test-urls.ts:103-105 | when the markdown form answers, the page's status has no influence on the result |
| Text.Trim | index.ts:47 | the result is no longer than the input and neither starts nor ends with white space |
| Text.TrimInfix | index.ts:47 | the trim is a piece of the input with only white space before and after it |
| Text.Split | index.ts:37 | there is at least one piece, no piece holds the separator, and joining the pieces with it gives the input back |
| Text.SplitJoin | index.ts:37 | splitting pieces joined by a separator they do not hold gives the pieces back |
| Text.ReplaceFirst | index.ts:16 | no contract of its own; specified by `ReplaceFirstAbsent` and `ReplaceFirstAt` |
| Text.ReplaceFirstAbsent | index.ts:16 | without an occurrence of the pattern the text is unchanged |
| Text.ReplaceFirstAt | index.ts:16 | exactly the first occurrence of the pattern is replaced |
| Text.SortStrings | index.ts:154 | the result is a permutation of the input; `Sorting.SortSorted` with `CodeUnitOrderIsTotal` gives its order |
| Text.CodeUnitOrderIsTotal | index.ts:97 | the default sort order, by UTF-16 code units, is a total order on strings |
| Text.JsLength | index.ts:83 | the length in UTF-16 code units is between the number of characters and twice that |
| Text.JsLengthConcat | index.ts:82-83 | the length of a concatenation is the sum of the lengths |
| Text.DefaultLabel | index.ts:207 | each `-` becomes a space and every other character its ASCII upper case, position by position |

## Left out

- Network and file I/O are not modelled: the sitemap fetch and its status check (index.ts:224-228), reading and writing the skill file (index.ts:220, 311, 326), and `fetchStatus` with its timeout in the link checker. `Sync.UpdateSkill` starts from the fetched sitemap text and the `last-modified` header, and returns the decision instead of writing. `LinkCheck.TestUrl` takes the fetch as a function.
- The plugin registration (index.ts:314-343) and the link checker's `main` are left out. They are plumbing: batching, printing and the exit code.
- Date parsing, the UTC field getters, `new URL` and the wall clock are parameters, as listed above. Only the text around them is modelled: formatting, normalisation, the `<lastmod>` fold, and host and pathname handling.
- `localeCompare` is an abstract comparison. The lemmas that need it to be a total order say so in their `requires`.
- `toUpperCase` in the default label is ASCII-only.
- JavaScript places integer-like object keys first. The model keeps all keys in insertion order, as it does for every other key.
- Names such as `__proto__` or `constructor` behave specially as object keys in JavaScript. Group names like these are not modelled.
- The round trip from `buildSkillContent` back through `parseExistingOrders` (remembered group order and CORE order) is not proved. The one-line pieces it would rest on are proved: `OrderMemory.HeadingPartsComplete`, `Text.SplitItemsOfJoin` and `Wrap.WrapRejoin`.
- No round trip is stated between `parseSkillMd` and `compactifyItems`. The link checker appends bare continuation items to the group path without the prefix they carry, so no such property holds. `LinkCheck.RenderedSection` covers plain items, where it does hold.
- Timestamp.NormalizeFormatUtc: the RFC 3339 form is stated only for years 1000 to 9999, because other years do not print as four digits.
