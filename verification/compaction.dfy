/** `compactifyItems` (index.ts): writes a group's item paths compactly.
    `index` comes first, then the items without a slash, sorted, then one run
    per leading path segment ("prefix"), the prefixes in `localeCompare`
    order: the run's first entry is written `prefix/first`, the others
    without the prefix. The suffixes of a prefix are compacted the same way,
    two levels deep; below that they are only sorted. */
module Compaction {
  import opened Wrappers
  import opened Seqs
  import opened Sorting
  import opened Text

  /** An entry of `prefixGroups`: a prefix and its suffixes in input order. */
  type Entry = (string, seq<string>)

  predicate HasSlash(item: string)
  {
    '/' in item
  }

  predicate NoSlash(item: string)
  {
    '/' !in item
  }

  predicate NotIndex(item: string)
  {
    item != "index"
  }

  /** `item.slice(0, item.indexOf("/"))`. */
  function PrefixOf(item: string): (r: string)
    ensures '/' !in r
  {
    var i := IndexOf(item, '/');
    if i < 0 then item else item[..i]
  }

  /** `item.slice(item.indexOf("/") + 1)`. */
  function SuffixOf(item: string): string
  {
    var i := IndexOf(item, '/');
    if i < 0 then item else item[i + 1..]
  }

  lemma SplitAtSlash(item: string)
    requires HasSlash(item)
    ensures item == PrefixOf(item) + "/" + SuffixOf(item)
  {
    var i := IndexOf(item, '/');
    assert item == item[..i] + [item[i]] + item[i + 1..];
  }

  /** The prefixes of the slashed items, one per item, in input order. */
  function Prefixes(xs: seq<string>): seq<string>
  {
    Map(PrefixOf, Filter(HasSlash, xs))
  }

  function UnderPrefix(p: string): string -> bool
  {
    x => HasSlash(x) && PrefixOf(x) == p
  }

  /** The suffixes of the items under prefix `p`, in input order. */
  function SuffixesOf(xs: seq<string>, p: string): seq<string>
  {
    Map(SuffixOf, Filter(UnderPrefix(p), xs))
  }

  function Keys(entries: seq<Entry>): seq<string>
    decreases |entries|
  {
    if entries == [] then [] else [entries[0].0] + Keys(entries[1..])
  }

  /** `if (!prefixGroups[prefix]) prefixGroups[prefix] = []` followed by
      `prefixGroups[prefix].push(rest)`. */
  function AddSuffix(entries: seq<Entry>, prefix: string, rest: string): (r: seq<Entry>)
    ensures Keys(r) == AppendNew(Keys(entries), prefix)
    decreases |entries|
  {
    if entries == [] then [(prefix, [rest])]
    else
      KeysCons(entries[0], entries[1..]);
      HeadTail(entries);
      if entries[0].0 == prefix then
        KeysCons((prefix, entries[0].1 + [rest]), entries[1..]);
        [(prefix, entries[0].1 + [rest])] + entries[1..]
      else
        var r := AddSuffix(entries[1..], prefix, rest);
        KeysCons(entries[0], r);
        AppendNewCons(entries[0].0, Keys(entries[1..]), prefix);
        [entries[0]] + r
  }

  lemma {:induction false} KeysCons(e: Entry, es: seq<Entry>)
    ensures Keys([e] + es) == [e.0] + Keys(es)
  {
    assert ([e] + es)[1..] == es;
  }

  /** The result of the loop over `itemsToProcess`: the slash-free items and
      the prefix groups, in the order they were met. */
  datatype Buckets = Buckets(standalone: seq<string>, entries: seq<Entry>)

  function Bucket(xs: seq<string>): Buckets
    decreases |xs|
  {
    if xs == [] then Buckets([], [])
    else
      var b := Bucket(xs[..|xs| - 1]);
      var item := xs[|xs| - 1];
      if NoSlash(item) then b.(standalone := b.standalone + [item])
      else b.(entries := AddSuffix(b.entries, PrefixOf(item), SuffixOf(item)))
  }

  /** `localeCompare` on the prefixes, as a "may come first" relation on entries. */
  function ByPrefix(le: (string, string) -> bool): (Entry, Entry) -> bool
  {
    (e: Entry, f: Entry) => le(e.0, f.0)
  }

  /** How many more levels may be compacted below `depth`. */
  function Budget(depth: nat): nat
  {
    if depth < 2 then 2 - depth else 0
  }

  /** `compactifyItems(items, depth)`; `le(a, b)` stands for
      `a.localeCompare(b) <= 0`. */
  function Compact(items: seq<string>, depth: nat, le: (string, string) -> bool): seq<string>
    decreases Budget(depth), 1
  {
    var b := Bucket(Filter(NotIndex, items));
    var head := if "index" in items then ["index"] else [];
    head + SortStrings(b.standalone) + EmitGroups(Sort(ByPrefix(le), b.entries), depth, le)
  }

  /** The loop over the sorted prefix groups. */
  function EmitGroups(entries: seq<Entry>, depth: nat, le: (string, string) -> bool): seq<string>
    decreases Budget(depth), 0, |entries|
  {
    if entries == [] then []
    else
      var prefix, suffixes := entries[0].0, entries[0].1;
      var compacted := if depth < 2 then Compact(suffixes, depth + 1, le) else SortStrings(suffixes);
      EmitRun(prefix, compacted) + EmitGroups(entries[1..], depth, le)
  }

  /** `result.push(`${prefix}/${first}`)` and `result.push(...rest)`; an empty
      run would print `undefined`, which cannot happen (see `CompactNonEmpty`). */
  function EmitRun(prefix: string, compacted: seq<string>): (r: seq<string>)
    ensures |r| == if compacted == [] then 1 else |compacted|
    ensures r[0] == prefix + "/" + (if compacted == [] then "undefined" else compacted[0])
  {
    if compacted == [] then [prefix + "/undefined"]
    else [prefix + "/" + compacted[0]] + compacted[1..]
  }

  // ----- what the loop over the items builds -----

  lemma {:induction false} FilterSnoc<T>(p: T -> bool, xs: seq<T>, x: T)
    ensures Filter(p, xs + [x]) == Filter(p, xs) + (if p(x) then [x] else [])
  {
    FilterConcat(p, xs, [x]);
  }

  lemma {:induction false} MapSnoc<T, U>(f: T -> U, xs: seq<T>, x: T)
    ensures Map(f, xs + [x]) == Map(f, xs) + [f(x)]
  {
    MapConcat(f, xs, [x]);
  }

  /** Every entry holds the suffixes of its prefix's items. */
  ghost predicate EntriesMatch(entries: seq<Entry>, xs: seq<string>)
  {
    forall i :: 0 <= i < |entries| ==> entries[i].1 == SuffixesOf(xs, entries[i].0)
  }

  lemma {:induction false} KeysIndex(entries: seq<Entry>, i: nat)
    requires i < |entries|
    ensures |Keys(entries)| == |entries| && Keys(entries)[i] == entries[i].0
    decreases |entries|
  {
    if i > 0 {
      KeysIndex(entries[1..], i - 1);
    } else {
      KeysLength(entries);
    }
  }

  lemma {:induction false} KeysTail(entries: seq<Entry>)
    requires entries != [] && NoDup(Keys(entries))
    ensures NoDup(Keys(entries[1..]))
  {
    var ks := Keys(entries);
    assert ks == [entries[0].0] + Keys(entries[1..]);
    assert Keys(entries[1..]) == ks[1..];
  }

  lemma {:induction false} KeysLength(entries: seq<Entry>)
    ensures |Keys(entries)| == |entries|
    decreases |entries|
  {
    if entries != [] {
      KeysLength(entries[1..]);
    }
  }

  /** A new prefix gets a new entry at the end. */
  lemma {:induction false} AddSuffixAbsent(entries: seq<Entry>, p: string, rest: string)
    requires p !in Keys(entries)
    ensures AddSuffix(entries, p, rest) == entries + [(p, [rest])]
    decreases |entries|
  {
    if entries != [] {
      assert Keys(entries) == [entries[0].0] + Keys(entries[1..]);
      AddSuffixAbsent(entries[1..], p, rest);
      AddSuffixSkip(entries, p, rest);
      HeadTail(entries);
      ConsSnoc(entries[0], entries[1..], (p, [rest]), entries, AddSuffix(entries[1..], p, rest));
    }
  }

  lemma AddSuffixSkip(entries: seq<Entry>, p: string, rest: string)
    requires entries != [] && entries[0].0 != p
    ensures AddSuffix(entries, p, rest) == [entries[0]] + AddSuffix(entries[1..], p, rest)
  {
  }

  lemma {:induction false} AddSuffixLength(entries: seq<Entry>, p: string, rest: string)
    ensures |AddSuffix(entries, p, rest)| == |entries| + (if p in Keys(entries) then 0 else 1)
  {
    KeysLength(entries);
    KeysLength(AddSuffix(entries, p, rest));
  }

  /** With distinct keys, the entry of `p` gets `rest` appended and every
      other entry stays as it was. */
  lemma {:induction false} AddSuffixAt(entries: seq<Entry>, p: string, rest: string, i: nat)
    requires NoDup(Keys(entries)) && i < |entries|
    ensures i < |AddSuffix(entries, p, rest)|
    ensures AddSuffix(entries, p, rest)[i]
      == if entries[i].0 == p then (p, entries[i].1 + [rest]) else entries[i]
    decreases |entries|
  {
    AddSuffixLength(entries, p, rest);
    if entries[0].0 == p {
      AddSuffixAtHead(entries, p, rest, i);
    } else if i > 0 {
      KeysTail(entries);
      AddSuffixAt(entries[1..], p, rest, i - 1);
      AddSuffixPastHead(entries, p, rest);
    }
  }

  lemma {:induction false} AddSuffixAtHead(entries: seq<Entry>, p: string, rest: string, i: nat)
    requires NoDup(Keys(entries)) && i < |entries| && entries[0].0 == p
    ensures AddSuffix(entries, p, rest) == [(p, entries[0].1 + [rest])] + entries[1..]
    ensures i > 0 ==> entries[i].0 != p
  {
    if i > 0 {
      KeysIndex(entries, 0);
      KeysIndex(entries, i);
    }
  }

  lemma {:induction false} AddSuffixPastHead(entries: seq<Entry>, p: string, rest: string)
    requires entries != [] && entries[0].0 != p
    ensures AddSuffix(entries, p, rest) == [entries[0]] + AddSuffix(entries[1..], p, rest)
  {
  }

  lemma {:induction false} MapMember<T, U>(f: T -> U, xs: seq<T>, x: T)
    requires x in xs
    ensures f(x) in Map(f, xs)
  {
    var i :| 0 <= i < |xs| && xs[i] == x;
    MapIndex(f, xs, i);
  }

  /** What the loop over the items builds: the slash-free items in input
      order, one entry per prefix in first-seen order, and each entry holding
      its prefix's suffixes in input order. */
  ghost predicate BucketsOf(b: Buckets, xs: seq<string>)
  {
    && b.standalone == Filter(NoSlash, xs)
    && Keys(b.entries) == FirstSeen(Prefixes(xs))
    && EntriesMatch(b.entries, xs)
  }

  /** Suffix lists grow by the suffix of a new item under their prefix. */
  lemma SuffixesOfSnoc(ys: seq<string>, item: string, q: string)
    ensures SuffixesOf(ys + [item], q)
      == SuffixesOf(ys, q) + (if HasSlash(item) && PrefixOf(item) == q then [SuffixOf(item)] else [])
  {
    FilterSnoc(UnderPrefix(q), ys, item);
    MapConcat(SuffixOf, Filter(UnderPrefix(q), ys), if UnderPrefix(q)(item) then [item] else []);
  }

  /** A prefix no item has has no suffixes. */
  lemma SuffixesOfUnseen(ys: seq<string>, p: string)
    requires p !in Prefixes(ys)
    ensures SuffixesOf(ys, p) == []
  {
    if Filter(UnderPrefix(p), ys) != [] {
      var y := Filter(UnderPrefix(p), ys)[0];
      FilterSound(UnderPrefix(p), ys, y);
      FilterKeeps(HasSlash, ys, y);
      MapMember(PrefixOf, Filter(HasSlash, ys), y);
    }
  }

  lemma {:induction false} BucketSlashStep(ys: seq<string>, item: string)
    requires HasSlash(item)
    requires BucketsOf(Bucket(ys), ys) && NoDup(Keys(Bucket(ys).entries))
    ensures EntriesMatch(AddSuffix(Bucket(ys).entries, PrefixOf(item), SuffixOf(item)), ys + [item])
  {
    var es := Bucket(ys).entries;
    var p := PrefixOf(item);
    var r := AddSuffix(es, p, SuffixOf(item));
    var xs := ys + [item];
    AddSuffixLength(es, p, SuffixOf(item));
    forall i | 0 <= i < |r|
      ensures r[i].1 == SuffixesOf(xs, r[i].0)
    {
      if i < |es| {
        AddSuffixAt(es, p, SuffixOf(item), i);
        SuffixesOfSnoc(ys, item, es[i].0);
      } else {
        AddSuffixAbsent(es, p, SuffixOf(item));
        FirstSeenElements(Prefixes(ys));
        SuffixesOfUnseen(ys, p);
        SuffixesOfSnoc(ys, item, p);
      }
    }
  }

  lemma {:induction false} BucketSpec(xs: seq<string>)
    ensures BucketsOf(Bucket(xs), xs)
    ensures NoDup(Keys(Bucket(xs).entries))
    decreases |xs|
  {
    if xs != [] {
      var ys, item := xs[..|xs| - 1], xs[|xs| - 1];
      assert xs == ys + [item];
      BucketSpec(ys);
      var b := Bucket(ys);
      FilterSnoc(NoSlash, ys, item);
      FilterSnoc(HasSlash, ys, item);
      FirstSeenElements(Prefixes(ys));
      if HasSlash(item) {
        var p := PrefixOf(item);
        MapSnoc(PrefixOf, Filter(HasSlash, ys), item);
        assert Prefixes(xs) == Prefixes(ys) + [p];
        FirstSeenSnoc(Prefixes(ys), p);
        BucketSlashStep(ys, item);
      } else {
        forall i | 0 <= i < |b.entries|
          ensures b.entries[i].1 == SuffixesOf(xs, b.entries[i].0)
        {
          SuffixesOfSnoc(ys, item, b.entries[i].0);
        }
        assert Filter(HasSlash, xs) == Filter(HasSlash, ys);
      }
    }
  }

  // ----- the order of the input does not matter -----

  function EntryKey(e: Entry): string
  {
    e.0
  }

  lemma {:induction false} KeysIsMap(es: seq<Entry>)
    ensures Keys(es) == Map(EntryKey, es)
    decreases |es|
  {
    if es != [] {
      KeysIsMap(es[1..]);
    }
  }

  lemma ByPrefixPreorder(le: (string, string) -> bool)
    requires TotalOrder(le)
    ensures TotalPreorder(ByPrefix(le))
  {
    var r := ByPrefix(le);
    forall e: Entry, f: Entry, g: Entry | r(e, f) && r(f, g)
      ensures r(e, g)
    {
      assert le(e.0, f.0) && le(f.0, g.0);
    }
    forall e: Entry, f: Entry
      ensures r(e, f) || r(f, e)
    {
      assert le(e.0, f.0) || le(f.0, e.0);
    }
  }

  /** Entries sorted by prefix have sorted keys. */
  lemma {:induction false} SortedKeys(le: (string, string) -> bool, es: seq<Entry>)
    requires SortedBy(ByPrefix(le), es)
    ensures SortedBy(le, Keys(es))
  {
    KeysLength(es);
    forall i, j | 0 <= i < j < |Keys(es)|
      ensures le(Keys(es)[i], Keys(es)[j])
    {
      KeysIndex(es, i);
      KeysIndex(es, j);
      assert ByPrefix(le)(es[i], es[j]);
    }
  }

  /** Two runs of prefix groups that name the same prefixes in the same order,
      each prefix with the same suffixes up to order. */
  ghost predicate SameRuns(ea: seq<Entry>, eb: seq<Entry>)
  {
    && |ea| == |eb|
    && forall i :: 0 <= i < |ea| ==> ea[i].0 == eb[i].0 && multiset(ea[i].1) == multiset(eb[i].1)
  }

  lemma SuffixesPermutation(a: seq<string>, b: seq<string>, p: string)
    requires multiset(a) == multiset(b)
    ensures multiset(SuffixesOf(a, p)) == multiset(SuffixesOf(b, p))
  {
    FilterPermutation(UnderPrefix(p), a, b);
    MapPermutation(SuffixOf, Filter(UnderPrefix(p), a), Filter(UnderPrefix(p), b));
  }

  /** Permuted items have the same prefixes, up to order. */
  lemma PrefixesPermutation(a: seq<string>, b: seq<string>)
    requires multiset(a) == multiset(b)
    ensures forall q :: q in Prefixes(a) <==> q in Prefixes(b)
  {
    FilterPermutation(HasSlash, a, b);
    MapPermutation(PrefixOf, Filter(HasSlash, a), Filter(HasSlash, b));
    forall q
      ensures q in Prefixes(a) <==> q in Prefixes(b)
    {
      assert q in Prefixes(a) <==> q in multiset(Prefixes(a));
      assert q in Prefixes(b) <==> q in multiset(Prefixes(b));
    }
  }

  /** The keys of the sorted prefix groups: the distinct prefixes, sorted. */
  lemma {:induction false} SortedGroupKeys(xs: seq<string>, le: (string, string) -> bool)
    requires TotalOrder(le)
    ensures var es := Sort(ByPrefix(le), Bucket(xs).entries);
      && SortedBy(le, Keys(es)) && NoDup(Keys(es))
      && forall q :: q in Keys(es) <==> q in Prefixes(xs)
  {
    var e := Bucket(xs).entries;
    var es := Sort(ByPrefix(le), e);
    BucketSpec(xs);
    FirstSeenElements(Prefixes(xs));
    ByPrefixPreorder(le);
    SortSorted(ByPrefix(le), e);
    SortedKeys(le, es);
    KeysIsMap(e);
    KeysIsMap(es);
    MapPermutation(EntryKey, e, es);
    PermutationNoDup(Keys(e), Keys(es));
    forall q
      ensures q in Keys(es) <==> q in Keys(e)
    {
      assert q in Keys(es) <==> q in multiset(Keys(es));
      assert q in Keys(e) <==> q in multiset(Keys(e));
    }
  }

  /** Every sorted prefix group holds the suffixes of its prefix. */
  lemma {:induction false} SortedGroupSuffixes(xs: seq<string>, le: (string, string) -> bool, i: nat)
    requires i < |Sort(ByPrefix(le), Bucket(xs).entries)|
    ensures var e := Sort(ByPrefix(le), Bucket(xs).entries)[i];
      e.1 == SuffixesOf(xs, e.0) && e.0 in Prefixes(xs)
  {
    var b := Bucket(xs).entries;
    var es := Sort(ByPrefix(le), b);
    BucketSpec(xs);
    assert es[i] in multiset(b);
    var k :| 0 <= k < |b| && b[k] == es[i];
    KeysIndex(b, k);
    FirstSeenElements(Prefixes(xs));
  }

  /** Permuted items give the same prefix groups after sorting, each with
      the same suffixes up to order. */
  lemma {:induction false} GroupsPermutation(a: seq<string>, b: seq<string>, le: (string, string) -> bool)
    requires TotalOrder(le) && multiset(a) == multiset(b)
    ensures SameRuns(Sort(ByPrefix(le), Bucket(a).entries), Sort(ByPrefix(le), Bucket(b).entries))
  {
    var ea := Sort(ByPrefix(le), Bucket(a).entries);
    var eb := Sort(ByPrefix(le), Bucket(b).entries);
    SortedGroupKeys(a, le);
    SortedGroupKeys(b, le);
    PrefixesPermutation(a, b);
    NoDupSameElements(Keys(ea), Keys(eb));
    SortedUnique(le, Keys(ea), Keys(eb));
    KeysLength(ea);
    KeysLength(eb);
    forall i | 0 <= i < |ea|
      ensures ea[i].0 == eb[i].0 && multiset(ea[i].1) == multiset(eb[i].1)
    {
      KeysIndex(ea, i);
      KeysIndex(eb, i);
      SortedGroupSuffixes(a, le, i);
      SortedGroupSuffixes(b, le, i);
      SuffixesPermutation(a, b, ea[i].0);
    }
  }

  /** With a total order for the prefixes, the output depends only on the
      multiset of the items, not on their order. */
  lemma {:induction false} CompactPermutation(a: seq<string>, b: seq<string>, depth: nat, le: (string, string) -> bool)
    requires TotalOrder(le) && multiset(a) == multiset(b)
    ensures Compact(a, depth, le) == Compact(b, depth, le)
    decreases Budget(depth), 1
  {
    assert "index" in a <==> "index" in multiset(a);
    assert "index" in b <==> "index" in multiset(b);
    var fa, fb := Filter(NotIndex, a), Filter(NotIndex, b);
    FilterPermutation(NotIndex, a, b);
    BucketSpec(fa);
    BucketSpec(fb);
    FilterPermutation(NoSlash, fa, fb);
    CodeUnitOrderIsTotal();
    SortPermutationInvariant(CodeUnitLe, Bucket(fa).standalone, Bucket(fb).standalone);
    GroupsPermutation(fa, fb, le);
    EmitGroupsPermutation(Sort(ByPrefix(le), Bucket(fa).entries), Sort(ByPrefix(le), Bucket(fb).entries), depth, le);
  }

  lemma {:induction false} EmitGroupsPermutation(ea: seq<Entry>, eb: seq<Entry>, depth: nat, le: (string, string) -> bool)
    requires TotalOrder(le) && SameRuns(ea, eb)
    ensures EmitGroups(ea, depth, le) == EmitGroups(eb, depth, le)
    decreases Budget(depth), 0, |ea|
  {
    if ea != [] {
      if depth < 2 {
        CompactPermutation(ea[0].1, eb[0].1, depth + 1, le);
      } else {
        CodeUnitOrderIsTotal();
        SortPermutationInvariant(CodeUnitLe, ea[0].1, eb[0].1);
      }
      SameRunsTail(ea, eb);
      EmitGroupsPermutation(ea[1..], eb[1..], depth, le);
      EmitGroupsStep(ea, eb, depth, le);
    }
  }

  lemma SameRunsTail(ea: seq<Entry>, eb: seq<Entry>)
    requires ea != [] && SameRuns(ea, eb)
    ensures ea[0].0 == eb[0].0 && SameRuns(ea[1..], eb[1..])
  {
    assert forall i :: 0 <= i < |ea| - 1 ==> ea[1..][i] == ea[i + 1] && eb[1..][i] == eb[i + 1];
  }

  /** Groups that emit the same first run and the same rest emit the same lines. */
  lemma EmitGroupsStep(ea: seq<Entry>, eb: seq<Entry>, depth: nat, le: (string, string) -> bool)
    requires ea != [] && eb != [] && ea[0].0 == eb[0].0
    requires depth < 2 ==> Compact(ea[0].1, depth + 1, le) == Compact(eb[0].1, depth + 1, le)
    requires depth >= 2 ==> SortStrings(ea[0].1) == SortStrings(eb[0].1)
    requires EmitGroups(ea[1..], depth, le) == EmitGroups(eb[1..], depth, le)
    ensures EmitGroups(ea, depth, le) == EmitGroups(eb, depth, le)
  {
  }

  // ----- nothing is lost or added -----

  /** The number of suffixes across the prefix groups. */
  function SuffixCount(es: seq<Entry>): nat
    decreases |es|
  {
    if es == [] then 0 else |es[0].1| + SuffixCount(es[1..])
  }

  lemma {:induction false} SuffixCountConcat(a: seq<Entry>, b: seq<Entry>)
    ensures SuffixCount(a + b) == SuffixCount(a) + SuffixCount(b)
    decreases |a|
  {
    if a == [] {
      assert a + b == b;
    } else {
      assert (a + b)[1..] == a[1..] + b;
      SuffixCountConcat(a[1..], b);
    }
  }

  lemma {:induction false} SuffixCountPermutation(a: seq<Entry>, b: seq<Entry>)
    requires multiset(a) == multiset(b)
    ensures SuffixCount(a) == SuffixCount(b)
    decreases |a|
  {
    if a == [] {
      assert |b| == |multiset(b)| == 0;
    } else {
      var i := PermutationHead(a, b);
      SuffixCountPermutation(a[1..], b[..i] + b[i + 1..]);
      assert b == b[..i] + ([b[i]] + b[i + 1..]);
      SuffixCountConcat(b[..i], [b[i]] + b[i + 1..]);
      SuffixCountConcat(b[..i], b[i + 1..]);
    }
  }

  lemma {:induction false} SuffixCountAddSuffix(es: seq<Entry>, p: string, rest: string)
    ensures SuffixCount(AddSuffix(es, p, rest)) == SuffixCount(es) + 1
    decreases |es|
  {
    if es != [] && es[0].0 != p {
      AddSuffixPastHead(es, p, rest);
      SuffixCountAddSuffix(es[1..], p, rest);
    }
  }

  /** Every item lands in exactly one place: among the slash-free items or
      in one prefix group. */
  lemma {:induction false} BucketCount(xs: seq<string>)
    ensures |Bucket(xs).standalone| + SuffixCount(Bucket(xs).entries) == |xs|
    decreases |xs|
  {
    if xs != [] {
      BucketCount(xs[..|xs| - 1]);
      var item := xs[|xs| - 1];
      if !NoSlash(item) {
        SuffixCountAddSuffix(Bucket(xs[..|xs| - 1]).entries, PrefixOf(item), SuffixOf(item));
      }
    }
  }

  /** Without duplicates, dropping `index` drops at most one item. */
  lemma {:induction false} NotIndexLength(items: seq<string>)
    requires NoDup(items)
    ensures |Filter(NotIndex, items)| + (if "index" in items then 1 else 0) == |items|
  {
    if "index" in items {
      var k :| 0 <= k < |items| && items[k] == "index";
      var u, v := items[..k], items[k + 1..];
      assert items == u + ["index"] + v;
      assert forall j :: 0 <= j < |u| ==> u[j] == items[j] && u[j] != items[k];
      assert forall j :: 0 <= j < |v| ==> v[j] == items[k + 1 + j] && v[j] != items[k];
      FilterConcat(NotIndex, u + ["index"], v);
      FilterConcat(NotIndex, u, ["index"]);
      FilterAll(NotIndex, u);
      FilterAll(NotIndex, v);
    } else {
      FilterAll(NotIndex, items);
    }
  }

  /** Distinct items under one prefix have distinct suffixes. */
  lemma SuffixesNoDup(xs: seq<string>, p: string)
    requires NoDup(xs)
    ensures NoDup(SuffixesOf(xs, p))
  {
    var ys := Filter(UnderPrefix(p), xs);
    FilterNoDup(UnderPrefix(p), xs);
    var zs := Map(SuffixOf, ys);
    forall i, j | 0 <= i < j < |zs|
      ensures zs[i] != zs[j]
    {
      MapIndex(SuffixOf, ys, i);
      MapIndex(SuffixOf, ys, j);
      FilterSound(UnderPrefix(p), xs, ys[i]);
      FilterSound(UnderPrefix(p), xs, ys[j]);
      SplitAtSlash(ys[i]);
      SplitAtSlash(ys[j]);
    }
  }

  /** A prefix some item has has at least one suffix. */
  lemma SuffixesNonEmpty(xs: seq<string>, p: string)
    requires p in Prefixes(xs)
    ensures SuffixesOf(xs, p) != []
  {
    var hs := Filter(HasSlash, xs);
    var i :| 0 <= i < |Prefixes(xs)| && Prefixes(xs)[i] == p;
    MapIndex(PrefixOf, hs, i);
    FilterSound(HasSlash, xs, hs[i]);
    FilterKeeps(UnderPrefix(p), xs, hs[i]);
  }

  /** Every run of the sorted prefix groups has suffixes, without duplicates
      when the items have none. */
  ghost predicate ProperRuns(es: seq<Entry>)
  {
    forall i :: 0 <= i < |es| ==> es[i].1 != [] && NoDup(es[i].1)
  }

  lemma SortStringsLength(xs: seq<string>)
    ensures |SortStrings(xs)| == |xs|
  {
  }

  /** For duplicate-free items the output has exactly one line per item. */
  lemma {:induction false} CompactLength(items: seq<string>, depth: nat, le: (string, string) -> bool)
    requires NoDup(items)
    ensures |Compact(items, depth, le)| == |items|
    decreases Budget(depth), 1
  {
    var f := Filter(NotIndex, items);
    NotIndexLength(items);
    FilterNoDup(NotIndex, items);
    BucketCount(f);
    var b := Bucket(f);
    var es := Sort(ByPrefix(le), b.entries);
    SuffixCountPermutation(b.entries, es);
    forall i | 0 <= i < |es|
      ensures es[i].1 != [] && NoDup(es[i].1)
    {
      SortedGroupSuffixes(f, le, i);
      SuffixesNonEmpty(f, es[i].0);
      SuffixesNoDup(f, es[i].0);
    }
    EmitGroupsLength(es, depth, le);
    SortStringsLength(b.standalone);
  }

  lemma {:induction false} EmitGroupsLength(es: seq<Entry>, depth: nat, le: (string, string) -> bool)
    requires ProperRuns(es)
    ensures |EmitGroups(es, depth, le)| == SuffixCount(es)
    decreases Budget(depth), 0, |es|
  {
    if es != [] {
      if depth < 2 {
        CompactLength(es[0].1, depth + 1, le);
      } else {
        SortStringsLength(es[0].1);
      }
      assert ProperRuns(es[1..]) by {
        assert forall i :: 0 <= i < |es| - 1 ==> es[1..][i] == es[i + 1];
      }
      EmitGroupsLength(es[1..], depth, le);
    }
  }

  /** The output is empty exactly when the input is. */
  lemma {:induction false} CompactNonEmpty(items: seq<string>, depth: nat, le: (string, string) -> bool)
    ensures Compact(items, depth, le) != [] <==> items != []
  {
    var f := Filter(NotIndex, items);
    var b := Bucket(f);
    BucketCount(f);
    if items != [] && "index" !in items {
      FilterAll(NotIndex, items);
      SortStringsLength(b.standalone);
      if b.standalone == [] {
        assert b.entries != [];
        assert |Sort(ByPrefix(le), b.entries)| > 0;
      }
    }
  }

  /** Every prefix group the loop emits has a non-empty compacted run, so the
      `undefined` text of `EmitRun` never appears. */
  lemma RunsNeverEmpty(items: seq<string>, depth: nat, le: (string, string) -> bool, i: nat)
    requires i < |Sort(ByPrefix(le), Bucket(Filter(NotIndex, items)).entries)|
    ensures var e := Sort(ByPrefix(le), Bucket(Filter(NotIndex, items)).entries)[i];
      && e.1 != [] && Compact(e.1, depth + 1, le) != [] && SortStrings(e.1) != []
  {
    var f := Filter(NotIndex, items);
    var e := Sort(ByPrefix(le), Bucket(f).entries)[i];
    SortedGroupSuffixes(f, le, i);
    SuffixesNonEmpty(f, e.0);
    CompactNonEmpty(e.1, depth + 1, le);
    SortStringsLength(e.1);
  }

  /** The first line of a prefix group run carries a slash. */
  lemma {:induction false} GroupsFirstHasSlash(es: seq<Entry>, depth: nat, le: (string, string) -> bool)
    requires es != []
    ensures var r := EmitGroups(es, depth, le);
      r != [] && '/' in r[0]
  {
    var run := if depth < 2 then Compact(es[0].1, depth + 1, le) else SortStrings(es[0].1);
    var first := EmitRun(es[0].0, run)[0];
    assert EmitGroups(es, depth, le)[0] == first;
    assert first[|es[0].0|] == '/';
  }

  /** The sorted slash-free items never include `index`. */
  lemma {:induction false} StandaloneNotIndex(items: seq<string>, x: string)
    requires x in SortStrings(Bucket(Filter(NotIndex, items)).standalone)
    ensures x != "index"
  {
    var f := Filter(NotIndex, items);
    BucketSpec(f);
    assert x in multiset(Bucket(f).standalone);
    FilterSound(NoSlash, f, x);
    FilterSound(NotIndex, items, x);
  }

  lemma {:induction false} CompactWithoutIndex(items: seq<string>, depth: nat, le: (string, string) -> bool)
    requires "index" !in items
    ensures var b := Bucket(Filter(NotIndex, items));
      Compact(items, depth, le) == SortStrings(b.standalone) + EmitGroups(Sort(ByPrefix(le), b.entries), depth, le)
  {
    var b := Bucket(Filter(NotIndex, items));
    var h: seq<string> := [];
    assert h + SortStrings(b.standalone) == SortStrings(b.standalone);
  }

  /** After the optional `index`, the output continues with exactly the
      slash-free items other than `index`, in code-unit order. */
  lemma CompactStandalone(items: seq<string>, depth: nat, le: (string, string) -> bool)
    ensures var r := Compact(items, depth, le);
      var h := if "index" in items then 1 else 0;
      var ss := Filter(NoSlash, Filter(NotIndex, items));
      && h + |ss| <= |r|
      && SortedBy(CodeUnitLe, r[h..h + |ss|])
      && multiset(r[h..h + |ss|]) == multiset(ss)
  {
    var f := Filter(NotIndex, items);
    var b := Bucket(f);
    BucketSpec(f);
    var head: seq<string> := if "index" in items then ["index"] else [];
    var ss := SortStrings(b.standalone);
    var gs := EmitGroups(Sort(ByPrefix(le), b.entries), depth, le);
    assert Compact(items, depth, le) == head + ss + gs;
    CodeUnitOrderIsTotal();
    SortSorted(CodeUnitLe, b.standalone);
    MiddleSlice(head, ss, gs);
  }

  /** `index` is the first line exactly when it is one of the items. */
  lemma {:induction false} CompactIndexFirst(items: seq<string>, depth: nat, le: (string, string) -> bool)
    ensures var r := Compact(items, depth, le);
      (r != [] && r[0] == "index") <==> "index" in items
  {
    if "index" in items {
      CompactWithIndex(items, depth, le);
    } else {
      CompactNoIndexFirst(items, depth, le);
    }
  }

  lemma {:induction false} CompactWithIndex(items: seq<string>, depth: nat, le: (string, string) -> bool)
    requires "index" in items
    ensures var r := Compact(items, depth, le); r != [] && r[0] == "index"
  {
    var b := Bucket(Filter(NotIndex, items));
    var head: seq<string> := ["index"];
    var ss, gs := SortStrings(b.standalone), EmitGroups(Sort(ByPrefix(le), b.entries), depth, le);
    assert Compact(items, depth, le) == head + ss + gs;
    assert (head + ss + gs)[0] == head[0];
  }

  lemma {:induction false} CompactNoIndexFirst(items: seq<string>, depth: nat, le: (string, string) -> bool)
    requires "index" !in items
    ensures var r := Compact(items, depth, le); r == [] || r[0] != "index"
  {
    var r := Compact(items, depth, le);
    var b := Bucket(Filter(NotIndex, items));
    var ss := SortStrings(b.standalone);
    var es := Sort(ByPrefix(le), b.entries);
    CompactWithoutIndex(items, depth, le);
    if ss != [] {
      assert r[0] == ss[0];
      StandaloneNotIndex(items, ss[0]);
    } else if es != [] {
      assert r == EmitGroups(es, depth, le);
      GroupsFirstHasSlash(es, depth, le);
      IndexHasNoSlash();
    }
  }

  lemma IndexHasNoSlash()
    ensures '/' !in "index"
  {
  }

  // ----- examples -----

  /** Splitting a two-segment item at its slash. */
  lemma PrefixSuffix(item: string, p: string, q: string)
    requires '/' !in p && item == p + "/" + q
    ensures PrefixOf(item) == p && SuffixOf(item) == q && HasSlash(item) && !NoSlash(item)
  {
    IndexOfConcat(p, '/', "/" + q);
    assert item == p + ("/" + q);
    assert item[|p|] == '/';
    assert item[..|p|] == p && item[|p| + 1..] == q;
  }

  /** A prefix group of one slash-free, non-`index` suffix is written as the
      joined item. */
  lemma {:induction false} SingleRun(p: string, x: string, depth: nat, le: (string, string) -> bool)
    requires NoSlash(x) && NotIndex(x)
    ensures EmitGroups([(p, [x])], depth, le) == [p + "/" + x]
  {
    CompactOfPlain([x], depth + 1, le);
    assert SortStrings([x]) == [x];
    var es := [(p, [x])];
    assert es[1..] == [];
  }

  /** Items without a slash stay as they are, sorted. */
  lemma {:induction false} CompactOfPlain(xs: seq<string>, depth: nat, le: (string, string) -> bool)
    requires forall i :: 0 <= i < |xs| ==> NoSlash(xs[i]) && NotIndex(xs[i])
    ensures Compact(xs, depth, le) == SortStrings(xs)
  {
    FilterAll(NotIndex, xs);
    BucketSpec(xs);
    FilterAll(NoSlash, xs);
    var b := Bucket(xs);
    assert Filter(HasSlash, xs) == [] by {
      if Filter(HasSlash, xs) != [] {
        FilterSound(HasSlash, xs, Filter(HasSlash, xs)[0]);
      }
    }
    KeysLength(b.entries);
    assert "index" !in xs;
    CompactWithoutIndex(xs, depth, le);
  }

  /** One more item: a slash-free item is kept aside, a slashed one filed
      under its prefix. */
  lemma {:induction false} BucketSnoc(ys: seq<string>, item: string)
    ensures Bucket(ys + [item]) == if NoSlash(item)
      then Bucket(ys).(standalone := Bucket(ys).standalone + [item])
      else Bucket(ys).(entries := AddSuffix(Bucket(ys).entries, PrefixOf(item), SuffixOf(item)))
  {
    assert (ys + [item])[..|ys|] == ys;
  }

  /** Sorting two prefix groups already in prefix order keeps them. */
  lemma SortTwoGroups(e: Entry, f: Entry, le: (string, string) -> bool)
    requires le(e.0, f.0)
    ensures Sort(ByPrefix(le), [e, f]) == [e, f]
  {
    assert [e, f][1..] == [f];
    assert Sort(ByPrefix(le), [f]) == [f] by {
      assert [f][1..] == [];
    }
  }

  /** Two items under prefix `p` and one under `q` (scenario `a/x, a/y, b/z`):
      `p` qualifies only the first line of its run, `q` its own. */
  lemma {:induction false} CompactExample(p: string, q: string, x: string, y: string, z: string, le: (string, string) -> bool)
    requires NoSlash(p) && NoSlash(q) && p != q && le(p, q)
    requires NoSlash(x) && NoSlash(y) && NoSlash(z) && NotIndex(x) && NotIndex(y) && NotIndex(z)
    requires CodeUnitLe(x, y)
    ensures Compact([p + "/" + x, p + "/" + y, q + "/" + z], 0, le) == [p + "/" + x, y, q + "/" + z]
  {
    var items := [p + "/" + x, p + "/" + y, q + "/" + z];
    var es := [(p, [x, y]), (q, [z])];
    ExampleBuckets(p, q, x, y, z);
    SortTwoGroups(es[0], es[1], le);
    ExampleRuns(p, q, x, y, z, le);
    ExampleHasNoIndex(p, q, x, y, z);
    CompactWithoutIndex(items, 0, le);
  }

  lemma ExampleHasNoIndex(p: string, q: string, x: string, y: string, z: string)
    requires NoSlash(p) && NoSlash(q)
    ensures "index" !in [p + "/" + x, p + "/" + y, q + "/" + z]
  {
    var items := [p + "/" + x, p + "/" + y, q + "/" + z];
    PrefixSuffix(items[0], p, x);
    PrefixSuffix(items[1], p, y);
    PrefixSuffix(items[2], q, z);
  }

  lemma {:induction false} ExampleRuns(p: string, q: string, x: string, y: string, z: string, le: (string, string) -> bool)
    requires NoSlash(x) && NoSlash(y) && NoSlash(z) && NotIndex(x) && NotIndex(y) && NotIndex(z)
    requires CodeUnitLe(x, y)
    ensures EmitGroups([(p, [x, y]), (q, [z])], 0, le) == [p + "/" + x, y, q + "/" + z]
  {
    var es := [(p, [x, y]), (q, [z])];
    EmitGroupsCons(es, 0, le);
    RunPair(p, x, y, le);
    assert es[1..] == [(q, [z])];
    SingleRun(q, z, 0, le);
  }

  lemma {:induction false} RunPair(p: string, x: string, y: string, le: (string, string) -> bool)
    requires NoSlash(x) && NoSlash(y) && NotIndex(x) && NotIndex(y) && CodeUnitLe(x, y)
    ensures EmitRun(p, Compact([x, y], 1, le)) == [p + "/" + x, y]
  {
    PlainPair(x, y);
    CompactOfPlain([x, y], 1, le);
    SortPair(x, y);
    EmitRunPair(p, Compact([x, y], 1, le), x, y);
  }

  lemma PlainPair(x: string, y: string)
    requires NoSlash(x) && NoSlash(y) && NotIndex(x) && NotIndex(y)
    ensures forall i :: 0 <= i < |[x, y]| ==> NoSlash([x, y][i]) && NotIndex([x, y][i])
  {
  }

  lemma EmitRunPair(p: string, c: seq<string>, x: string, y: string)
    requires c == [x, y]
    ensures EmitRun(p, c) == [p + "/" + x, y]
  {
    assert c[1..] == [y];
  }

  lemma {:induction false} EmitGroupsCons(es: seq<Entry>, depth: nat, le: (string, string) -> bool)
    requires es != [] && depth < 2
    ensures EmitGroups(es, depth, le) == EmitRun(es[0].0, Compact(es[0].1, depth + 1, le)) + EmitGroups(es[1..], depth, le)
  {
  }

  lemma {:induction false} SortPair(x: string, y: string)
    requires CodeUnitLe(x, y)
    ensures SortStrings([x, y]) == [x, y]
  {
    assert [x, y][1..] == [y];
    assert Sort(CodeUnitLe, [y]) == [y] by {
      assert [y][1..] == [];
    }
  }

  lemma ExampleBuckets(p: string, q: string, x: string, y: string, z: string)
    requires NoSlash(p) && NoSlash(q) && p != q
    ensures var items := [p + "/" + x, p + "/" + y, q + "/" + z];
      && Filter(NotIndex, items) == items
      && Bucket(items) == Buckets([], [(p, [x, y]), (q, [z])])
  {
    var a, b, c := p + "/" + x, p + "/" + y, q + "/" + z;
    SlashedNotIndex(p, x);
    SlashedNotIndex(p, y);
    SlashedNotIndex(q, z);
    FilterAll(NotIndex, [a, b, c]);
    BucketFirst(p, x);
    BucketSamePrefix([a], p, [x], y);
    assert [a] + [b] == [a, b] && [x] + [y] == [x, y];
    BucketNewPrefix([a, b], (p, [x, y]), q, z);
    assert [a, b] + [c] == [a, b, c];
  }

  /** An item with a slash is never `index`. */
  lemma SlashedNotIndex(p: string, x: string)
    requires NoSlash(p)
    ensures NotIndex(p + "/" + x) && HasSlash(p + "/" + x)
  {
    assert (p + "/" + x)[|p|] == '/';
    IndexHasNoSlash();
  }

  /** The first item under a prefix opens its group. */
  lemma BucketFirst(p: string, x: string)
    requires NoSlash(p)
    ensures Bucket([p + "/" + x]) == Buckets([], [(p, [x])])
  {
    PrefixSuffix(p + "/" + x, p, x);
    BucketSnoc([], p + "/" + x);
    assert [] + [p + "/" + x] == [p + "/" + x];
  }

  /** A further item under the only prefix joins its group. */
  lemma {:induction false} BucketSamePrefix(ys: seq<string>, p: string, xs: seq<string>, y: string)
    requires NoSlash(p) && Bucket(ys) == Buckets([], [(p, xs)])
    ensures Bucket(ys + [p + "/" + y]) == Buckets([], [(p, xs + [y])])
  {
    PrefixSuffix(p + "/" + y, p, y);
    BucketSnoc(ys, p + "/" + y);
    assert [(p, xs)][1..] == [];
  }

  /** An item under a new prefix opens a second group. */
  lemma {:induction false} BucketNewPrefix(ys: seq<string>, e: Entry, q: string, z: string)
    requires NoSlash(q) && e.0 != q && Bucket(ys) == Buckets([], [e])
    ensures Bucket(ys + [q + "/" + z]) == Buckets([], [e, (q, [z])])
  {
    PrefixSuffix(q + "/" + z, q, z);
    BucketSnoc(ys, q + "/" + z);
    AddSuffixPastHead([e], q, z);
    assert [e][1..] == [];
  }


  /** Two different item lists can be written the same way: the bare line
      `q/y` may continue the run of `p` or start its own prefix group, so the
      written list does not determine the items (`a/e, a/b/c` and `a/e, b/c`
      are both written `a/e, b/c`). */
  lemma CompactNotInjective(p: string, q: string, x: string, y: string, le: (string, string) -> bool)
    requires NoSlash(p) && NoSlash(q) && p != q && le(p, q)
    requires NoSlash(x) && NoSlash(y) && NotIndex(x) && NotIndex(y)
    ensures var nested := [p + "/" + x, p + "/" + (q + "/" + y)];
      var flat := [p + "/" + x, q + "/" + y];
      && nested != flat
      && Compact(nested, 0, le) == Compact(flat, 0, le) == [p + "/" + x, q + "/" + y]
  {
    CompactNestedExample(p, q, x, y, le);
    CompactFlatExample(p, q, x, y, le);
    var a, b := p + "/" + (q + "/" + y), q + "/" + y;
    PrefixSuffix(a, p, q + "/" + y);
    PrefixSuffix(b, q, y);
  }

  lemma CompactNestedExample(p: string, q: string, x: string, y: string, le: (string, string) -> bool)
    requires NoSlash(p) && NoSlash(q) && NoSlash(x) && NoSlash(y) && NotIndex(x) && NotIndex(y)
    ensures Compact([p + "/" + x, p + "/" + (q + "/" + y)], 0, le) == [p + "/" + x, q + "/" + y]
  {
    var nested := [p + "/" + x, p + "/" + (q + "/" + y)];
    NestedBuckets(p, q, x, y);
    NestedRuns(p, q, x, y, le);
    CompactWithoutIndex(nested, 0, le);
    assert SortStrings([]) == [];
  }

  lemma NestedRuns(p: string, q: string, x: string, y: string, le: (string, string) -> bool)
    requires NoSlash(q) && NoSlash(x) && NoSlash(y) && NotIndex(x) && NotIndex(y)
    ensures EmitGroups(Sort(ByPrefix(le), [(p, [x, q + "/" + y])]), 0, le) == [p + "/" + x, q + "/" + y]
  {
    var inner := [x, q + "/" + y];
    var es := [(p, inner)];
    assert Sort(ByPrefix(le), es) == es by {
      assert es[1..] == [];
    }
    InnerCompact(q, x, y, le);
    EmitGroupsCons(es, 0, le);
    assert es[1..] == [];
    assert EmitRun(p, inner) == [p + "/" + x, q + "/" + y] by {
      assert inner[1..] == [q + "/" + y];
    }
  }

  lemma NestedBuckets(p: string, q: string, x: string, y: string)
    requires NoSlash(p) && NoSlash(q)
    ensures var nested := [p + "/" + x, p + "/" + (q + "/" + y)];
      && "index" !in nested && Filter(NotIndex, nested) == nested
      && Bucket(nested) == Buckets([], [(p, [x, q + "/" + y])])
  {
    var w := q + "/" + y;
    var a, b := p + "/" + x, p + "/" + w;
    SlashedNotIndex(p, x);
    SlashedNotIndex(p, w);
    FilterAll(NotIndex, [a, b]);
    BucketFirst(p, x);
    BucketSamePrefix([a], p, [x], w);
    assert [a] + [b] == [a, b] && [x] + [w] == [x, w];
  }


  /** One level down, `x` stays bare and `q/y` forms its own group. */
  lemma InnerCompact(q: string, x: string, y: string, le: (string, string) -> bool)
    requires NoSlash(q) && NoSlash(x) && NoSlash(y) && NotIndex(x) && NotIndex(y)
    ensures Compact([x, q + "/" + y], 1, le) == [x, q + "/" + y]
  {
    var inner := [x, q + "/" + y];
    PrefixSuffix(inner[1], q, y);
    FilterAll(NotIndex, inner);
    BucketSnoc([], x);
    assert [] + [x] == inner[..1];
    BucketSnoc(inner[..1], inner[1]);
    assert inner[..1] + [inner[1]] == inner;
    assert Bucket(inner) == Buckets([x], [(q, [y])]);
    SingleRun(q, y, 1, le);
    assert SortStrings([x]) == [x];
    assert Sort(ByPrefix(le), [(q, [y])]) == [(q, [y])] by {
      assert [(q, [y])][1..] == [];
    }
    assert "index" !in inner;
    CompactWithoutIndex(inner, 1, le);
  }

  lemma CompactFlatExample(p: string, q: string, x: string, y: string, le: (string, string) -> bool)
    requires NoSlash(p) && NoSlash(q) && p != q && le(p, q)
    requires NoSlash(x) && NoSlash(y) && NotIndex(x) && NotIndex(y)
    ensures Compact([p + "/" + x, q + "/" + y], 0, le) == [p + "/" + x, q + "/" + y]
  {
    var flat := [p + "/" + x, q + "/" + y];
    var es := [(p, [x]), (q, [y])];
    FlatBuckets(p, q, x, y);
    SortTwoGroups(es[0], es[1], le);
    FlatRuns(p, q, x, y, le);
    CompactWithoutIndex(flat, 0, le);
  }

  lemma FlatBuckets(p: string, q: string, x: string, y: string)
    requires NoSlash(p) && NoSlash(q) && p != q
    ensures var flat := [p + "/" + x, q + "/" + y];
      && "index" !in flat && Filter(NotIndex, flat) == flat
      && Bucket(flat) == Buckets([], [(p, [x]), (q, [y])])
  {
    var a, b := p + "/" + x, q + "/" + y;
    SlashedNotIndex(p, x);
    SlashedNotIndex(q, y);
    FilterAll(NotIndex, [a, b]);
    BucketFirst(p, x);
    BucketNewPrefix([a], (p, [x]), q, y);
    assert [a] + [b] == [a, b];
  }


  lemma FlatRuns(p: string, q: string, x: string, y: string, le: (string, string) -> bool)
    requires NoSlash(x) && NoSlash(y) && NotIndex(x) && NotIndex(y)
    ensures EmitGroups([(p, [x]), (q, [y])], 0, le) == [p + "/" + x, q + "/" + y]
  {
    var es := [(p, [x]), (q, [y])];
    SingleRun(p, x, 0, le);
    SingleRun(q, y, 0, le);
    assert es[1..] == [(q, [y])];
  }
}
