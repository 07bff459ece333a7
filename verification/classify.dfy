/** The classification of sitemap pages inside `updateSkill` (index.ts): a
    first pass sorts each docs page into the single-segment pages and the
    pages below a section; a second pass files the latter by section, adds
    `index` to a section that also has a page of its own, and keeps as CORE
    the single-segment pages without children. */
module Classify {
  import opened Wrappers
  import opened Seqs
  import opened Text
  import opened OrderMemory
  import opened Ordering

  const DocsHost: string := "docs.convex.dev"

  /** What the classification reads of a sitemap URL once `new URL` has
      parsed it: its host and its path. A URL the parser rejects is `None`. */
  datatype Link = Link(host: string, pathname: string)

  /** An element of `multiSegmentPaths`. */
  datatype Child = Child(group: string, rest: string, hasTrailingSlash: bool)

  /** `singleSegmentPaths`, `multiSegmentPaths` and `trailingSlashSections`;
      the two sets as their elements in insertion order. */
  datatype FirstPass = FirstPass(single: seq<string>, children: seq<Child>, trailing: seq<string>)

  /** `groupMap`: its entries in insertion order, each set as its elements
      in insertion order. */
  type GroupMap = seq<(string, seq<string>)>

  /** The result: the ordered CORE items and the `groups` record. */
  datatype Classified = Classified(core: seq<string>, groups: seq<(string, seq<string>)>)

  /** `pathname.replace(/\.md$/, "")`. */
  function StripMd(p: string): (r: string)
    ensures EndsWith(p, ".md") ==> r + ".md" == p
    ensures !EndsWith(p, ".md") ==> r == p
  {
    if EndsWith(p, ".md") then
      assert p == p[..|p| - 3] + p[|p| - 3..];
      p[..|p| - 3]
    else p
  }

  /** `.replace(/\/+$/, "")`. */
  function DropTrailingSlashes(s: string): (r: string)
    ensures |r| <= |s| && r == s[..|r|]
    ensures r == [] || r[|r| - 1] != '/'
    ensures forall i :: |r| <= i < |s| ==> s[i] == '/'
    decreases |s|
  {
    if s != [] && s[|s| - 1] == '/' then DropTrailingSlashes(s[..|s| - 1]) else s
  }

  /** `.replace(/^\//, "")`. */
  function DropLeadingSlash(s: string): (r: string)
    ensures r == s || (s != [] && s[0] == '/' && r == s[1..])
    ensures s != [] && s[0] == '/' ==> r == s[1..]
  {
    if s != [] && s[0] == '/' then s[1..] else s
  }

  /** The `trimmed` path: without `.md`, trailing slashes and one leading
      slash. */
  function Trimmed(pathname: string): (r: string)
    ensures r == [] || r[|r| - 1] != '/'
  {
    var t := DropTrailingSlashes(StripMd(pathname));
    var r := DropLeadingSlash(t);
    assert r != [] ==> r[|r| - 1] == t[|t| - 1];
    r
  }

  /** The `rest` pushed for a page of two or more segments. */
  function RestOf(segments: seq<string>, hasTrailingSlash: bool): string
    requires |segments| >= 2
  {
    var joined := Join(segments[1..], "/");
    var rest := if joined == "" then "index" else joined;
    if hasTrailingSlash && !EndsWith(rest, "/index") then rest + "/index" else rest
  }

  /** One iteration of the first loop. */
  function Visit(st: FirstPass, url: Option<Link>): FirstPass
  {
    match url
    case None => st
    case Some(link) =>
      if link.host != DocsHost then st
      else
        var hasTrailingSlash := EndsWith(link.pathname, "/");
        var trimmed := Trimmed(link.pathname);
        if trimmed == "" then st.(single := AppendNew(st.single, "home"))
        else
          var segments := Split(trimmed, '/');
          if |segments| == 1 then
            FirstPass(
              AppendNew(st.single, segments[0]),
              st.children,
              if hasTrailingSlash then AppendNew(st.trailing, segments[0]) else st.trailing)
          else
            st.(children := st.children + [Child(segments[0], RestOf(segments, hasTrailingSlash), hasTrailingSlash)])
  }

  /** The first loop over the sitemap URLs. */
  function Collect(urls: seq<Option<Link>>): FirstPass
    decreases |urls|
  {
    if urls == [] then FirstPass([], [], [])
    else Visit(Collect(urls[..|urls| - 1]), urls[|urls| - 1])
  }

  // ----- the group map -----

  function MapKeys(m: GroupMap): seq<string>
    decreases |m|
  {
    if m == [] then [] else [m[0].0] + MapKeys(m[1..])
  }

  /** `groupMap[g]`, or nothing when `g` is not a key. */
  function ItemsAt(m: GroupMap, g: string): seq<string>
    decreases |m|
  {
    if m == [] then [] else if m[0].0 == g then m[0].1 else ItemsAt(m[1..], g)
  }

  /** `if (!groupMap[g]) groupMap[g] = new Set(); groupMap[g].add(item)`. */
  function AddItem(m: GroupMap, g: string, item: string): GroupMap
    decreases |m|
  {
    if m == [] then [(g, [item])]
    else if m[0].0 == g then [(g, AppendNew(m[0].1, item))] + m[1..]
    else [m[0]] + AddItem(m[1..], g, item)
  }

  /** The second loop: `groupMap` and `sectionsWithChildren`. */
  function FileChildren(children: seq<Child>): (GroupMap, seq<string>)
    decreases |children|
  {
    if children == [] then ([], [])
    else
      var (m, sections) := FileChildren(children[..|children| - 1]);
      var c := children[|children| - 1];
      (AddItem(m, c.group, c.rest), AppendNew(sections, c.group))
  }

  /** The third loop: `index` for each section that also has a page of its
      own (or was seen with a trailing slash). */
  function AddIndexes(m: GroupMap, sections: seq<string>, st: FirstPass): GroupMap
    decreases |sections|
  {
    if sections == [] then m
    else
      var s := sections[0];
      var m' := if s in st.single || s in st.trailing then AddItem(m, s, "index") else m;
      AddIndexes(m', sections[1..], st)
  }

  /** `groups[group] = sortByOrder([...set], orders.itemOrder[group] ?? [])`
      for each entry of `groupMap`. */
  function OrderGroups(m: GroupMap, itemOrder: map<string, seq<string>>): (r: seq<(string, seq<string>)>)
    ensures |r| == |m|
    decreases |m|
  {
    if m == [] then []
    else [(m[0].0, SortByOrder(m[0].1, ItemsOf(itemOrder, m[0].0)))] + OrderGroups(m[1..], itemOrder)
  }

  /** The classification of the sitemap URLs under the remembered orders. */
  function ClassifyPages(urls: seq<Option<Link>>, orders: Orders): Classified
  {
    var st := Collect(urls);
    var (m, sections) := FileChildren(st.children);
    var filed := AddIndexes(m, sections, st);
    var coreItems := Filter(x => x !in sections, st.single);
    Classified(SortByOrder(coreItems, ItemsOf(orders.itemOrder, CoreKey)), OrderGroups(filed, orders.itemOrder))
  }

  /** `sectionsWithChildren` for the URLs. */
  function Sections(urls: seq<Option<Link>>): seq<string>
  {
    FileChildren(Collect(urls).children).1
  }

  // ----- the first pass -----

  /** A section seen with a trailing slash is also a single-segment page, so
      the second disjunct of the `index` test adds nothing. */
  lemma {:induction false} TrailingAreSingle(urls: seq<Option<Link>>)
    ensures forall t :: t in Collect(urls).trailing ==> t in Collect(urls).single
    decreases |urls|
  {
    if urls != [] {
      TrailingAreSingle(urls[..|urls| - 1]);
    }
  }

  /** A `rest` is never empty, so the `"index"` fallback for an empty rest
      is never taken. */
  lemma {:induction false} RestNeverEmpty(trimmed: string)
    requires trimmed != [] && trimmed[|trimmed| - 1] != '/'
    requires |Split(trimmed, '/')| >= 2
    ensures Join(Split(trimmed, '/')[1..], "/") != ""
  {
    var segments := Split(trimmed, '/');
    JoinAt(segments, 0, "/");
    assert segments[0..] == segments;
  }

  /** A path whose last segment does not end in `.md` does not either. */
  lemma NoMdSuffix(pre: string, s: string)
    requires pre != [] && pre[|pre| - 1] == '/' && '/' !in s && !EndsWith(s, ".md")
    ensures !EndsWith(pre + s, ".md")
  {
    var p := pre + s;
    if |s| >= 3 {
      assert p[|p| - 3..] == s[|s| - 3..];
    } else if |p| >= 3 {
      var k := |pre| - 1 - (|p| - 3);
      assert p[|p| - 3..][k] == p[|pre| - 1];
    }
  }

  /** A docs page of one segment, `/s` or `/s.md`, is a single-segment
      page. */
  lemma SinglePage(st: FirstPass, s: string)
    requires s != [] && '/' !in s && !EndsWith(s, ".md")
    ensures Visit(st, Some(Link(DocsHost, "/" + s))).single == AppendNew(st.single, s)
    ensures Visit(st, Some(Link(DocsHost, "/" + s + ".md"))).single == AppendNew(st.single, s)
  {
    NoMdSuffix("/", s);
    SingleTrimmed("/" + s, s);
    assert EndsWith("/" + s + ".md", ".md") by {
      var q := "/" + s + ".md";
      assert q[|q| - 3..] == ".md";
    }
    SingleTrimmed("/" + s + ".md", s);
    SplitNoSep(s);
  }

  lemma SingleTrimmed(p: string, s: string)
    requires s != [] && '/' !in s
    requires p == "/" + s || p == "/" + s + ".md"
    requires p == "/" + s ==> !EndsWith(p, ".md")
    requires p == "/" + s + ".md" ==> EndsWith(p, ".md")
    ensures Trimmed(p) == s
  {
    var q := StripMd(p);
    assert q == "/" + s;
    assert q[|q| - 1] == s[|s| - 1];
    assert DropTrailingSlashes(q) == q;
    assert q[1..] == s;
  }

  lemma {:induction false} SplitNoSep(s: string)
    requires '/' !in s
    ensures Split(s, '/') == [s]
  {
  }

  /** A docs page `/g/x`, with one-segment `g` and `x`, is a child of
      section `g` named `x`. */
  lemma ChildPage(st: FirstPass, g: string, x: string)
    requires g != [] && x != [] && '/' !in g && '/' !in x && !EndsWith(x, ".md")
    ensures Visit(st, Some(Link(DocsHost, "/" + g + "/" + x))) == st.(children := st.children + [Child(g, x, false)])
  {
    ChildTrimmed(g, x);
    SplitPair(g, x);
    assert [g, x][1..] == [x];
  }

  lemma ChildTrimmed(g: string, x: string)
    requires x != [] && '/' !in x && !EndsWith(x, ".md")
    ensures var p := "/" + g + "/" + x; !EndsWith(p, "/") && Trimmed(p) == g + "/" + x
  {
    var p := "/" + g + "/" + x;
    NoMdSuffix("/" + g + "/", x);
    assert p[|p| - 1] == x[|x| - 1];
    assert DropTrailingSlashes(p) == p;
    assert p == "/" + (g + "/" + x);
  }

  lemma {:induction false} SplitPair(g: string, x: string)
    requires '/' !in g && '/' !in x
    ensures Split(g + "/" + x, '/') == [g, x]
  {
    var s := g + "/" + x;
    IndexOfConcat(g, '/', x);
    SplitNoSep(x);
    assert s[|g| + 1..] == x;
    assert s[..|g|] == g;
  }

  // ----- the group map -----

  lemma {:induction false} AddItemKeys(m: GroupMap, g: string, item: string)
    ensures MapKeys(AddItem(m, g, item)) == AppendNew(MapKeys(m), g)
    decreases |m|
  {
    if m != [] && m[0].0 != g {
      AddItemKeys(m[1..], g, item);
      assert g in MapKeys(m) <==> g in MapKeys(m[1..]);
      if g !in MapKeys(m[1..]) {
        ConcatAssoc([m[0].0], MapKeys(m[1..]), [g]);
      }
    } else if m != [] {
      assert g in MapKeys(m);
    }
  }

  lemma {:induction false} AddItemItems(m: GroupMap, g: string, item: string, h: string)
    ensures ItemsAt(AddItem(m, g, item), h) == if h == g then AppendNew(ItemsAt(m, g), item) else ItemsAt(m, h)
    decreases |m|
  {
    if m != [] && m[0].0 != g {
      AddItemItems(m[1..], g, item, h);
    }
  }

  lemma {:induction false} ItemsAtMissing(m: GroupMap, g: string)
    requires g !in MapKeys(m)
    ensures ItemsAt(m, g) == []
    decreases |m|
  {
    if m != [] {
      ItemsAtMissing(m[1..], g);
    }
  }

  /** The keys of `groupMap` are the sections with children, in the same
      order. */
  lemma {:induction false} FileChildrenKeys(children: seq<Child>)
    ensures MapKeys(FileChildren(children).0) == FileChildren(children).1
    decreases |children|
  {
    if children != [] {
      var init := children[..|children| - 1];
      var c := children[|children| - 1];
      FileChildrenKeys(init);
      AddItemKeys(FileChildren(init).0, c.group, c.rest);
    }
  }

  /** The sections with children are the groups of the children. */
  lemma {:induction false} SectionsOfChildren(children: seq<Child>, g: string)
    ensures g in FileChildren(children).1 <==> exists i :: 0 <= i < |children| && children[i].group == g
    decreases |children|
  {
    if children != [] {
      var init := children[..|children| - 1];
      SectionsOfChildren(init, g);
      if exists i :: 0 <= i < |init| && init[i].group == g {
        var i :| 0 <= i < |init| && init[i].group == g;
        assert children[i] == init[i];
      }
      if exists i :: 0 <= i < |children| && children[i].group == g {
        var i :| 0 <= i < |children| && children[i].group == g;
        if i < |init| {
          assert init[i] == children[i];
        }
      }
    }
  }

  /** The `index` pass keeps the keys and adds `index` exactly to the
      listed sections that pass the test. */
  lemma {:induction false} AddIndexesSpec(m: GroupMap, sections: seq<string>, st: FirstPass, h: string, x: string)
    requires forall s :: s in sections ==> s in MapKeys(m)
    ensures MapKeys(AddIndexes(m, sections, st)) == MapKeys(m)
    ensures x in ItemsAt(AddIndexes(m, sections, st), h) <==>
      x in ItemsAt(m, h) || (x == "index" && h in sections && (h in st.single || h in st.trailing))
    decreases |sections|
  {
    if sections != [] {
      var s := sections[0];
      var m' := if s in st.single || s in st.trailing then AddItem(m, s, "index") else m;
      if s in st.single || s in st.trailing {
        AddItemKeys(m, s, "index");
        AddItemItems(m, s, "index", h);
      }
      assert forall t :: t in sections[1..] ==> t in sections;
      AddIndexesSpec(m', sections[1..], st, h, x);
    }
  }

  lemma {:induction false} OrderGroupsSpec(m: GroupMap, itemOrder: map<string, seq<string>>, h: string)
    ensures MapKeys(OrderGroups(m, itemOrder)) == MapKeys(m)
    ensures ItemsAt(OrderGroups(m, itemOrder), h) == SortByOrder(ItemsAt(m, h), ItemsOf(itemOrder, h))
      || (h !in MapKeys(m) && ItemsAt(OrderGroups(m, itemOrder), h) == [])
    decreases |m|
  {
    if m != [] {
      OrderGroupsSpec(m[1..], itemOrder, h);
    }
  }

  // ----- what the classification promises -----

  /** The group map after both passes, with its sections. */
  lemma Filed(urls: seq<Option<Link>>) returns (filed: GroupMap, sections: seq<string>)
    ensures var st := Collect(urls);
      && sections == FileChildren(st.children).1 == Sections(urls)
      && filed == AddIndexes(FileChildren(st.children).0, sections, st)
      && MapKeys(filed) == sections
      && (forall g :: g in sections <==> exists i :: 0 <= i < |st.children| && st.children[i].group == g)
  {
    var st := Collect(urls);
    FileChildrenKeys(st.children);
    forall g | true
      ensures g in FileChildren(st.children).1 <==> exists i :: 0 <= i < |st.children| && st.children[i].group == g
    {
      SectionsOfChildren(st.children, g);
    }
    var m: GroupMap;
    m, sections := FileChildren(st.children).0, FileChildren(st.children).1;
    filed := AddIndexes(m, sections, st);
    AddIndexesSpec(m, sections, st, "", "");
  }

  /** The groups are exactly the sections with children, and CORE holds
      exactly the single-segment pages without children: no page is both a
      group and a CORE item. */
  lemma {:induction false} Partition(urls: seq<Option<Link>>, orders: Orders, x: string)
    ensures var r, st := ClassifyPages(urls, orders), Collect(urls);
      && MapKeys(r.groups) == Sections(urls)
      && (x in r.core <==> x in st.single && x !in Sections(urls))
      && !(x in r.core && x in MapKeys(r.groups))
  {
    var st := Collect(urls);
    var filed, sections := Filed(urls);
    OrderGroupsSpec(filed, orders.itemOrder, x);
    var coreItems := Filter(x => x !in sections, st.single);
    SortByOrderElements(coreItems, ItemsOf(orders.itemOrder, CoreKey), x);
    if x in coreItems {
      FilterSound(x => x !in sections, st.single, x);
    }
    if x in st.single && x !in sections {
      FilterKeeps(x => x !in sections, st.single, x);
    }
  }

  /** A section that also has a page of its own lists that page as
      `index`, and the page is not a CORE item. */
  lemma {:induction false} SectionIndexPage(urls: seq<Option<Link>>, orders: Orders, g: string)
    requires g in Sections(urls) && g in Collect(urls).single
    ensures var r := ClassifyPages(urls, orders);
      "index" in ItemsAt(r.groups, g) && g !in r.core
  {
    SectionIndex(urls, orders, g);
    Partition(urls, orders, g);
  }

  /** A section lists `index` exactly when it has a page of its own or a
      child called `index`. */
  lemma {:induction false} SectionIndex(urls: seq<Option<Link>>, orders: Orders, g: string)
    requires g in Sections(urls)
    ensures var r, st := ClassifyPages(urls, orders), Collect(urls);
      "index" in ItemsAt(r.groups, g) <==>
        g in st.single || exists i :: 0 <= i < |st.children| && st.children[i].group == g && st.children[i].rest == "index"
  {
    var st := Collect(urls);
    var filed, sections := Filed(urls);
    var m := FileChildren(st.children).0;
    IndexFiled(urls, g);
    OrderGroupsSpec(filed, orders.itemOrder, g);
    SortByOrderElements(ItemsAt(filed, g), ItemsOf(orders.itemOrder, g), "index");
  }

  /** Before ordering: the `index` pass adds `index` to exactly the
      sections with a page of their own. */
  lemma {:induction false} IndexFiled(urls: seq<Option<Link>>, g: string)
    requires g in Sections(urls)
    ensures var st := Collect(urls);
      var fc := FileChildren(st.children);
      "index" in ItemsAt(AddIndexes(fc.0, fc.1, st), g) <==>
        g in st.single || HasChild(st.children, g, "index")
  {
    var st := Collect(urls);
    var m := FileChildren(st.children).0;
    var sections := FileChildren(st.children).1;
    FileChildrenKeys(st.children);
    AddIndexesSpec(m, sections, st, g, "index");
    TrailingAreSingle(urls);
    assert g in st.trailing ==> g in st.single;
    ChildrenFiled(st.children, g, "index");
  }

  /** What a section's set holds before the `index` pass: the rests of its
      children. */
  lemma {:induction false} ChildrenFiled(children: seq<Child>, g: string, x: string)
    ensures x in ItemsAt(FileChildren(children).0, g) <==> HasChild(children, g, x)
    decreases |children|
  {
    if children != [] {
      var init := children[..|children| - 1];
      var c := children[|children| - 1];
      assert children == init + [c];
      ChildrenFiled(init, g, x);
      FileChildrenLast(children);
      AddItemItems(FileChildren(init).0, c.group, c.rest, g);
      HasChildSnoc(init, c, g, x);
    }
  }

  /** Some child of section `g` has the rest `x`. */
  predicate HasChild(children: seq<Child>, g: string, x: string)
  {
    exists i :: 0 <= i < |children| && children[i].group == g && children[i].rest == x
  }

  lemma HasChildSnoc(init: seq<Child>, c: Child, g: string, x: string)
    ensures HasChild(init + [c], g, x) <==> HasChild(init, g, x) || (c.group == g && c.rest == x)
  {
    var cs := init + [c];
    if HasChild(init, g, x) {
      var i :| 0 <= i < |init| && init[i].group == g && init[i].rest == x;
      assert cs[i] == init[i];
    }
    if c.group == g && c.rest == x {
      assert cs[|init|] == c;
    }
    if HasChild(cs, g, x) {
      var i :| 0 <= i < |cs| && cs[i].group == g && cs[i].rest == x;
      if i < |init| {
        assert init[i] == cs[i];
      }
    }
  }

  /** The last child is filed on top of the others. */
  lemma FileChildrenLast(children: seq<Child>)
    requires children != []
    ensures var c := children[|children| - 1];
      FileChildren(children).0 == AddItem(FileChildren(children[..|children| - 1]).0, c.group, c.rest)
  {
  }
}
