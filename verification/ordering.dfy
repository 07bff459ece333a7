/** `sortByOrder` (index.ts): the remembered order first, then whatever is
    new, sorted. It orders the CORE items, each group's items and the group
    names. */
module Ordering {
  import opened Seqs
  import opened Sorting
  import opened Text

  /** `sortByOrder(items, preferred)`: the preferred entries still present,
      in preferred order, followed by the other items under the default
      `sort()`. */
  function SortByOrder(items: seq<string>, preferred: seq<string>): (r: seq<string>)
    ensures |r| == |Filter(x => x in items, preferred)| + |Filter(x => x !in preferred, items)|
  {
    Filter(x => x in items, preferred) + SortStrings(Filter(x => x !in preferred, items))
  }

  /** The remembered part of the result. */
  function Kept(items: seq<string>, preferred: seq<string>): seq<string>
  {
    Filter(x => x in items, preferred)
  }

  /** The new part of the result. */
  function NewItems(items: seq<string>, preferred: seq<string>): seq<string>
  {
    Filter(x => x !in preferred, items)
  }

  /** The output holds exactly the items. */
  lemma SortByOrderElements(items: seq<string>, preferred: seq<string>, x: string)
    ensures x in SortByOrder(items, preferred) <==> x in items
  {
    var kept, added := Kept(items, preferred), NewItems(items, preferred);
    assert SortByOrder(items, preferred) == kept + SortStrings(added);
    SortElements(CodeUnitLe, added, x);
    if x in kept {
      FilterSound(x => x in items, preferred, x);
    }
    if x in added {
      FilterSound(x => x !in preferred, items, x);
    }
    if x in items {
      if x in preferred {
        FilterKeeps(x => x in items, preferred, x);
      } else {
        FilterKeeps(x => x !in preferred, items, x);
      }
    }
  }

  /** The output starts with the remembered entries that are still items,
      each of them preferred, and ends with the new items in sorted order,
      none of them preferred. */
  lemma SortByOrderShape(items: seq<string>, preferred: seq<string>)
    ensures var r, k := SortByOrder(items, preferred), |Kept(items, preferred)|;
      && k <= |r|
      && (forall i :: 0 <= i < k ==> r[i] in preferred && r[i] in items)
      && (forall i :: k <= i < |r| ==> r[i] !in preferred && r[i] in items)
      && SortedBy(CodeUnitLe, r[k..])
  {
    var kept, added := Kept(items, preferred), NewItems(items, preferred);
    var r := SortByOrder(items, preferred);
    var k := |kept|;
    assert r == kept + SortStrings(added);
    assert r[k..] == SortStrings(added);
    CodeUnitOrderIsTotal();
    SortSorted(CodeUnitLe, added);
    forall i | 0 <= i < k
      ensures r[i] in preferred && r[i] in items
    {
      assert r[i] == kept[i];
      FilterSound(x => x in items, preferred, kept[i]);
    }
    forall i | k <= i < |r|
      ensures r[i] !in preferred && r[i] in items
    {
      assert r[i] == SortStrings(added)[i - k];
      SortElements(CodeUnitLe, added, r[i]);
      FilterSound(x => x !in preferred, items, r[i]);
    }
  }

  /** The remembered entries that are still items keep their remembered
      order, whichever other entries have gone: any two of them come out
      in the order of the positions they hold in `preferred`. */
  lemma KeptInPreferredOrder(items: seq<string>, preferred: seq<string>, i: int, j: int)
    requires 0 <= i < j < |Kept(items, preferred)|
    ensures var r := SortByOrder(items, preferred);
      exists a, b :: 0 <= a < b < |preferred| && preferred[a] == r[i] && preferred[b] == r[j]
  {
    var kept := Kept(items, preferred);
    var r := SortByOrder(items, preferred);
    assert r[i] == kept[i] && r[j] == kept[j];
    FilterOrder(x => x in items, preferred, i, j);
  }

  /** When every preferred entry is still an item, they come first, in the
      remembered order. */
  lemma SortByOrderKeepsPreferred(items: seq<string>, preferred: seq<string>)
    requires forall x :: x in preferred ==> x in items
    ensures |preferred| <= |SortByOrder(items, preferred)|
    ensures SortByOrder(items, preferred)[..|preferred|] == preferred
  {
    FilterAll(x => x in items, preferred);
    var r := SortByOrder(items, preferred);
    assert r == preferred + SortStrings(NewItems(items, preferred));
  }

  /** Ordering a list by itself changes nothing. */
  lemma SortByOrderSelf(xs: seq<string>)
    ensures SortByOrder(xs, xs) == xs
  {
    FilterAll(x => x in xs, xs);
    assert NewItems(xs, xs) == [] by {
      if NewItems(xs, xs) != [] {
        FilterSound(x => x !in xs, xs, NewItems(xs, xs)[0]);
      }
    }
  }

  /** Without duplicates on either side, the output is a permutation of the
      items. */
  lemma SortByOrderPermutation(items: seq<string>, preferred: seq<string>)
    requires NoDup(items) && NoDup(preferred)
    ensures multiset(SortByOrder(items, preferred)) == multiset(items)
    ensures NoDup(SortByOrder(items, preferred))
  {
    var kept, added := Kept(items, preferred), NewItems(items, preferred);
    var inPref := Filter(x => x in preferred, items);
    FilterNoDup(x => x in items, preferred);
    FilterNoDup(x => x in preferred, items);
    forall x
      ensures x in kept <==> x in inPref
    {
      if x in kept { FilterSound(x => x in items, preferred, x); FilterKeeps(x => x in preferred, items, x); }
      if x in inPref { FilterSound(x => x in preferred, items, x); FilterKeeps(x => x in items, preferred, x); }
    }
    NoDupSameElements(kept, inPref);
    FilterPartition(x => x in preferred, x => x !in preferred, items);
    var r := SortByOrder(items, preferred);
    assert r == kept + SortStrings(added);
    assert multiset(r) == multiset(items);
    PermutationNoDup(items, r);
  }

  /** The result depends only on the multiset of the items, not on their
      order: in particular not on the key order of the record the group
      names come from. */
  lemma SortByOrderPermutationInvariant(a: seq<string>, b: seq<string>, preferred: seq<string>)
    requires multiset(a) == multiset(b)
    ensures SortByOrder(a, preferred) == SortByOrder(b, preferred)
  {
    forall x
      ensures x in a <==> x in b
    {
      assert x in a <==> x in multiset(a);
      assert x in b <==> x in multiset(b);
    }
    FilterCongruence(x => x in a, x => x in b, preferred);
    FilterPermutation(x => x !in preferred, a, b);
    CodeUnitOrderIsTotal();
    SortPermutationInvariant(CodeUnitLe, NewItems(a, preferred), NewItems(b, preferred));
  }
}
