/** Sequence utilities: duplicate-free sequences, the "push if not already
    included" idiom of index.ts (`if (!xs.includes(x)) xs.push(x)`,
    and JavaScript `Set` insertion order), and the multiset facts that the
    ordering and compaction proofs need. */
module Seqs {

  /** No element occurs twice. */
  ghost predicate NoDup<T>(xs: seq<T>)
  {
    forall i, j :: 0 <= i < j < |xs| ==> xs[i] != xs[j]
  }

  /** `if (!xs.includes(x)) xs.push(x)`; also adding `x` to a JavaScript `Set`. */
  function AppendNew<T(==,!new)>(xs: seq<T>, x: T): (r: seq<T>)
    ensures x in r
    ensures forall y :: y in r <==> y in xs || y == x
    ensures |xs| <= |r| && r[..|xs|] == xs
    ensures NoDup(xs) ==> NoDup(r)
  {
    if x in xs then xs else xs + [x]
  }

  /** Pushes every element of `ys`, in order, unless already present. */
  function AppendAll<T(==,!new)>(xs: seq<T>, ys: seq<T>): (r: seq<T>)
    ensures forall y :: y in r <==> y in xs || y in ys
    ensures |xs| <= |r| && r[..|xs|] == xs
    ensures NoDup(xs) ==> NoDup(r)
    decreases |ys|
  {
    if ys == [] then xs else AppendAll(AppendNew(xs, ys[0]), ys[1..])
  }

  /** Reference definition of "first-seen order": the elements of `s` that do
      not occur earlier in `s`, in the order of their first occurrences. */
  function FirstSeen<T(==)>(s: seq<T>): seq<T>
    decreases |s|
  {
    if s == [] then []
    else if s[|s| - 1] in s[..|s| - 1] then FirstSeen(s[..|s| - 1])
    else FirstSeen(s[..|s| - 1]) + [s[|s| - 1]]
  }

  lemma {:induction false} FirstSeenElements<T(!new)>(s: seq<T>)
    ensures forall y :: y in FirstSeen(s) <==> y in s
    decreases |s|
  {
    if s != [] {
      var p := s[..|s| - 1];
      FirstSeenElements(p);
      assert s == p + [s[|s| - 1]];
    }
  }

  /** A duplicate-free sequence is its own first-seen order. */
  lemma {:induction false} FirstSeenOfNoDup<T(!new)>(s: seq<T>)
    requires NoDup(s)
    ensures FirstSeen(s) == s
    decreases |s|
  {
    if s != [] {
      var p := s[..|s| - 1];
      FirstSeenOfNoDup(p);
      assert s[|s| - 1] !in p;
      assert p + [s[|s| - 1]] == s;
    }
  }

  lemma {:induction false} FirstSeenSnoc<T>(q: seq<T>, y: T)
    ensures y in q ==> FirstSeen(q + [y]) == FirstSeen(q)
    ensures y !in q ==> FirstSeen(q + [y]) == FirstSeen(q) + [y]
  {
    var s := q + [y];
    assert s[..|s| - 1] == q;
  }

  lemma {:induction false} AppendAllSnoc<T(!new)>(xs: seq<T>, ys: seq<T>, y: T)
    ensures AppendAll(xs, ys + [y]) == AppendNew(AppendAll(xs, ys), y)
    decreases |ys|
  {
    if ys == [] {
      assert [y][1..] == [];
    } else {
      assert (ys + [y])[0] == ys[0];
      assert (ys + [y])[1..] == ys[1..] + [y];
      AppendAllSnoc(AppendNew(xs, ys[0]), ys[1..], y);
    }
  }

  /** Pushing-if-absent realises first-seen order: starting from a
      duplicate-free `xs`, the result keeps the first occurrence of every
      element of `xs + ys`, in order. */
  lemma {:induction false} AppendAllIsFirstSeen<T(!new)>(xs: seq<T>, ys: seq<T>)
    requires NoDup(xs)
    ensures AppendAll(xs, ys) == FirstSeen(xs + ys)
    decreases |ys|
  {
    if ys == [] {
      assert xs + ys == xs;
      FirstSeenOfNoDup(xs);
    } else {
      var p := ys[..|ys| - 1];
      var y := ys[|ys| - 1];
      assert ys == p + [y];
      AppendAllIsFirstSeen(xs, p);
      AppendAllFirstSeenStep(xs, p, y);
    }
  }

  /** The induction step of `AppendAllIsFirstSeen`: one more pushed element. */
  lemma {:induction false} AppendAllFirstSeenStep<T(!new)>(xs: seq<T>, p: seq<T>, y: T)
    requires AppendAll(xs, p) == FirstSeen(xs + p)
    ensures AppendAll(xs, p + [y]) == FirstSeen(xs + (p + [y]))
  {
    AppendAllSnoc(xs, p, y);
    assert xs + (p + [y]) == (xs + p) + [y];
    FirstSeenSnoc(xs + p, y);
    FirstSeenElements(xs + p);
  }

  /** Two sequences built from equal heads and equal tails are equal. */
  lemma ConsCongruence<T>(x: seq<T>, y: seq<T>, u: T, v: T, r1: seq<T>, r2: seq<T>)
    requires x == [u] + r1 && y == [v] + r2 && u == v && r1 == r2
    ensures x == y
  {
  }

  lemma AppendAllSingle<T(!new)>(xs: seq<T>, y: T)
    ensures AppendAll(xs, [y]) == AppendNew(xs, y)
  {
    assert [y][1..] == [];
  }

  /** Pushing into an empty sequence keeps the first occurrences in order. */
  lemma AppendAllFromEmpty<T(!new)>(ys: seq<T>)
    ensures AppendAll([], ys) == FirstSeen(ys)
  {
    AppendAllIsFirstSeen([], ys);
    assert [] + ys == ys;
  }

  /** Pushing a duplicate-free sequence into an empty one gives it back. */
  lemma {:induction false} AppendAllOfNoDup<T(!new)>(ys: seq<T>)
    requires NoDup(ys)
    ensures AppendAll([], ys) == ys
  {
    AppendAllFromEmpty(ys);
    FirstSeenOfNoDup(ys);
  }

  /** Pushing two batches one after the other is pushing their concatenation. */
  lemma {:induction false} AppendAllConcat<T(!new)>(xs: seq<T>, ys: seq<T>, zs: seq<T>)
    ensures AppendAll(AppendAll(xs, ys), zs) == AppendAll(xs, ys + zs)
    decreases |ys|
  {
    if ys != [] {
      assert (ys + zs)[0] == ys[0];
      assert (ys + zs)[1..] == ys[1..] + zs;
      AppendAllConcat(AppendNew(xs, ys[0]), ys[1..], zs);
    } else {
      assert ys + zs == zs;
    }
  }

  lemma AppendNewCons<T(!new)>(y: T, ys: seq<T>, x: T)
    requires y != x
    ensures AppendNew([y] + ys, x) == [y] + AppendNew(ys, x)
  {
    assert x in [y] + ys <==> x in ys;
    if x !in ys {
      assert ([y] + ys) + [x] == [y] + (ys + [x]);
    }
  }

  /** Equality of sequences, chained through two middle terms. */
  lemma EqChain<T>(w: seq<T>, x: seq<T>, y: seq<T>, z: seq<T>)
    requires w == x && x == y && y == z
    ensures w == z
  {
  }

  /** Appending at the end commutes with putting an element in front. */
  lemma ConsSnoc<T>(e: T, t: seq<T>, x: T, s: seq<T>, y: seq<T>)
    requires s == [e] + t && y == t + [x]
    ensures [e] + y == s + [x]
  {
  }

  /** The middle part of a three-part concatenation. */
  lemma MiddleSlice<T>(a: seq<T>, b: seq<T>, c: seq<T>)
    ensures |a| + |b| <= |a + b + c| && (a + b + c)[|a|..|a| + |b|] == b
  {
  }

  lemma ConcatAssoc<T>(a: seq<T>, b: seq<T>, c: seq<T>)
    ensures a + b + c == a + (b + c)
  {
  }

  lemma HeadTail<T>(xs: seq<T>)
    requires xs != []
    ensures [xs[0]] + xs[1..] == xs
  {
  }

  /** `xs.filter(p)`. */
  function Filter<T>(p: T -> bool, xs: seq<T>): (r: seq<T>)
    ensures |r| <= |xs|
    decreases |xs|
  {
    if xs == [] then []
    else if p(xs[0]) then [xs[0]] + Filter(p, xs[1..])
    else Filter(p, xs[1..])
  }

  lemma {:induction false} FilterConcat<T>(p: T -> bool, a: seq<T>, b: seq<T>)
    ensures Filter(p, a + b) == Filter(p, a) + Filter(p, b)
    decreases |a|
  {
    if a == [] {
      assert a + b == b;
    } else {
      var h := if p(a[0]) then [a[0]] else [];
      assert (a + b)[0] == a[0];
      assert (a + b)[1..] == a[1..] + b;
      FilterConcat(p, a[1..], b);
      calc {
        Filter(p, a + b);
        h + Filter(p, a[1..] + b);
        h + (Filter(p, a[1..]) + Filter(p, b));
        (h + Filter(p, a[1..])) + Filter(p, b);
        Filter(p, a) + Filter(p, b);
      }
    }
  }

  /** Everything in `xs` that passes `p` survives the filter. */
  lemma {:induction false} FilterKeeps<T>(p: T -> bool, xs: seq<T>, x: T)
    requires x in xs && p(x)
    ensures x in Filter(p, xs)
    decreases |xs|
  {
    if xs[0] != x {
      FilterKeeps(p, xs[1..], x);
    }
  }

  /** Everything that survives the filter was in `xs` and passes `p`. */
  lemma {:induction false} FilterSound<T>(p: T -> bool, xs: seq<T>, x: T)
    requires x in Filter(p, xs)
    ensures x in xs && p(x)
    decreases |xs|
  {
    var h := if p(xs[0]) then [xs[0]] else [];
    assert Filter(p, xs) == h + Filter(p, xs[1..]);
    if x !in h {
      FilterSound(p, xs[1..], x);
    }
  }

  /** The filter keeps the relative order of what it keeps: two kept
      elements come from positions of `xs` in the same order. */
  lemma {:induction false} FilterOrder<T>(p: T -> bool, xs: seq<T>, i: int, j: int)
    requires 0 <= i < j < |Filter(p, xs)|
    ensures exists a, b :: 0 <= a < b < |xs| && xs[a] == Filter(p, xs)[i] && xs[b] == Filter(p, xs)[j]
    decreases |xs|
  {
    var f, rest := Filter(p, xs), xs[1..];
    if p(xs[0]) {
      assert f == [xs[0]] + Filter(p, rest);
      if i == 0 {
        var y := f[j];
        assert y == Filter(p, rest)[j - 1];
        FilterSound(p, rest, y);
        var b :| 0 <= b < |rest| && rest[b] == y;
        assert xs[0] == f[0] && xs[b + 1] == y;
      } else {
        FilterOrder(p, rest, i - 1, j - 1);
        var a, b :| 0 <= a < b < |rest| && rest[a] == Filter(p, rest)[i - 1] && rest[b] == Filter(p, rest)[j - 1];
        assert xs[a + 1] == f[i] && xs[b + 1] == f[j];
      }
    } else {
      assert f == Filter(p, rest);
      FilterOrder(p, rest, i, j);
      var a, b :| 0 <= a < b < |rest| && rest[a] == f[i] && rest[b] == f[j];
      assert xs[a + 1] == f[i] && xs[b + 1] == f[j];
    }
  }

  lemma {:induction false} FilterNoDup<T>(p: T -> bool, xs: seq<T>)
    requires NoDup(xs)
    ensures NoDup(Filter(p, xs))
    decreases |xs|
  {
    if xs != [] {
      FilterNoDup(p, xs[1..]);
      if p(xs[0]) {
        if xs[0] in Filter(p, xs[1..]) {
          FilterSound(p, xs[1..], xs[0]);
        }
        assert Filter(p, xs) == [xs[0]] + Filter(p, xs[1..]);
      } else {
        assert Filter(p, xs) == Filter(p, xs[1..]);
      }
    }
  }

  /** Filtering keeps everything when every element passes. */
  lemma {:induction false} FilterAll<T>(p: T -> bool, xs: seq<T>)
    requires forall x :: x in xs ==> p(x)
    ensures Filter(p, xs) == xs
    decreases |xs|
  {
    if xs != [] {
      FilterAll(p, xs[1..]);
    }
  }

  /** Filters that agree on the elements keep the same elements. */
  lemma {:induction false} FilterCongruence<T>(p: T -> bool, q: T -> bool, xs: seq<T>)
    requires forall x :: x in xs ==> p(x) == q(x)
    ensures Filter(p, xs) == Filter(q, xs)
    decreases |xs|
  {
    if xs != [] {
      assert xs[0] in xs;
      FilterCongruence(p, q, xs[1..]);
    }
  }

  /** A filter and its complement split a sequence's multiset in two. */
  lemma {:induction false} FilterPartition<T>(p: T -> bool, q: T -> bool, xs: seq<T>)
    requires forall x :: x in xs ==> q(x) == !p(x)
    ensures multiset(Filter(p, xs)) + multiset(Filter(q, xs)) == multiset(xs)
    decreases |xs|
  {
    if xs != [] {
      assert xs[0] in xs;
      FilterPartition(p, q, xs[1..]);
      assert xs == [xs[0]] + xs[1..];
    }
  }

  /** `xs.map(f)`. */
  function Map<T, U>(f: T -> U, xs: seq<T>): (r: seq<U>)
    ensures |r| == |xs|
    decreases |xs|
  {
    if xs == [] then [] else [f(xs[0])] + Map(f, xs[1..])
  }

  lemma {:induction false} MapConcat<T, U>(f: T -> U, a: seq<T>, b: seq<T>)
    ensures Map(f, a + b) == Map(f, a) + Map(f, b)
    decreases |a|
  {
    if a == [] {
      assert a + b == b;
    } else {
      assert (a + b)[1..] == a[1..] + b;
      MapConcat(f, a[1..], b);
    }
  }

  lemma {:induction false} MapIndex<T, U>(f: T -> U, xs: seq<T>, i: nat)
    requires i < |xs|
    ensures Map(f, xs)[i] == f(xs[i])
    decreases i
  {
    if i > 0 {
      MapIndex(f, xs[1..], i - 1);
    }
  }

  /** Concatenation of a sequence of sequences. */
  function Flatten<T>(xss: seq<seq<T>>): seq<T>
    decreases |xss|
  {
    if xss == [] then [] else xss[0] + Flatten(xss[1..])
  }

  lemma {:induction false} FlattenConcat<T>(a: seq<seq<T>>, b: seq<seq<T>>)
    ensures Flatten(a + b) == Flatten(a) + Flatten(b)
    decreases |a|
  {
    if a == [] {
      assert a + b == b;
    } else {
      assert (a + b)[0] == a[0];
      assert (a + b)[1..] == a[1..] + b;
      FlattenConcat(a[1..], b);
    }
  }

  /** Splitting a permutation around the position of a chosen element. */
  lemma PermutationHead<T>(a: seq<T>, b: seq<T>) returns (i: nat)
    requires a != [] && multiset(a) == multiset(b)
    ensures i < |b| && b[i] == a[0]
    ensures multiset(a[1..]) == multiset(b[..i] + b[i + 1..])
  {
    assert a[0] in multiset(a);
    assert a[0] in b;
    var k :| 0 <= k < |b| && b[k] == a[0];
    i := k;
    assert a == [a[0]] + a[1..];
    assert b == b[..i] + [b[i]] + b[i + 1..];
    calc {
      multiset(a[1..]);
      multiset(a) - multiset{a[0]};
      multiset(b) - multiset{b[i]};
      multiset(b[..i]) + multiset(b[i + 1..]);
      multiset(b[..i] + b[i + 1..]);
    }
  }

  lemma MultisetRegroup<T>(fa: seq<T>, fa1: seq<T>, fb: seq<T>, fb1: seq<T>, fb2: seq<T>, h: seq<T>)
    requires fb == fb1 + h + fb2 && fa == h + fa1
    requires multiset(fa1) == multiset(fb1 + fb2)
    ensures multiset(fa) == multiset(fb)
  {
    calc {
      multiset(fb);
      multiset(fb1) + multiset(h) + multiset(fb2);
      multiset(h) + multiset(fb1 + fb2);
      multiset(fa);
    }
  }

  /** A sequence is its part before `i`, its element at `i` and the rest. */
  lemma SplitAround<T>(b: seq<T>, i: nat)
    requires i < |b|
    ensures b == b[..i] + [b[i]] + b[i + 1..]
  {
    assert b == b[..i] + b[i..];
    assert b[i..] == [b[i]] + b[i + 1..];
  }

  lemma FilterSingle<T>(p: T -> bool, x: T, h: seq<T>)
    requires h == (if p(x) then [x] else [])
    ensures Filter(p, [x]) == h
  {
    assert [x][1..] == [];
    if p(x) {
      assert Filter(p, [x]) == [x] + Filter(p, []);
    }
  }

  lemma {:induction false} FilterJoin<T>(p: T -> bool, b1: seq<T>, x: T, b2: seq<T>, h: seq<T>)
    requires h == (if p(x) then [x] else [])
    ensures Filter(p, b1 + [x] + b2) == Filter(p, b1) + h + Filter(p, b2)
  {
    FilterConcat(p, b1 + [x], b2);
    FilterConcat(p, b1, [x]);
    FilterSingle(p, x, h);
  }

  /** Filtering a sequence around one of its elements. */
  lemma {:induction false} FilterAround<T>(p: T -> bool, b: seq<T>, i: nat, h: seq<T>)
    requires i < |b| && h == (if p(b[i]) then [b[i]] else [])
    ensures Filter(p, b) == Filter(p, b[..i]) + h + Filter(p, b[i + 1..])
  {
    SplitAround(b, i);
    FilterJoin(p, b[..i], b[i], b[i + 1..], h);
  }

  /** Mapping a sequence around one of its elements. */
  lemma {:induction false} MapAround<T, U>(f: T -> U, b: seq<T>, i: nat)
    requires i < |b|
    ensures Map(f, b) == Map(f, b[..i]) + [f(b[i])] + Map(f, b[i + 1..])
  {
    var b1, x, b2 := b[..i], b[i], b[i + 1..];
    SplitAround(b, i);
    MapConcat(f, b1 + [x], b2);
    MapConcat(f, b1, [x]);
    assert [x][1..] == [];
    assert Map(f, [x]) == [f(x)];
  }

  /** Filtering maps permutations to permutations. */
  lemma {:induction false} FilterPermutation<T>(p: T -> bool, a: seq<T>, b: seq<T>)
    requires multiset(a) == multiset(b)
    ensures multiset(Filter(p, a)) == multiset(Filter(p, b))
    decreases |a|
  {
    if a == [] {
      assert |b| == |multiset(b)| == |multiset(a)| == 0;
    } else {
      var i := PermutationHead(a, b);
      var b1, b2 := b[..i], b[i + 1..];
      var h := if p(a[0]) then [a[0]] else [];
      FilterPermutation(p, a[1..], b1 + b2);
      FilterConcat(p, b1, b2);
      FilterAround(p, b, i, h);
      assert Filter(p, a) == h + Filter(p, a[1..]);
      MultisetRegroup(Filter(p, a), Filter(p, a[1..]), Filter(p, b), Filter(p, b1), Filter(p, b2), h);
    }
  }

  /** Mapping maps permutations to permutations. */
  lemma {:induction false} MapPermutation<T, U>(f: T -> U, a: seq<T>, b: seq<T>)
    requires multiset(a) == multiset(b)
    ensures multiset(Map(f, a)) == multiset(Map(f, b))
    decreases |a|
  {
    if a == [] {
      assert |b| == |multiset(b)| == |multiset(a)| == 0;
    } else {
      var i := PermutationHead(a, b);
      var b1, b2 := b[..i], b[i + 1..];
      MapPermutation(f, a[1..], b1 + b2);
      MapConcat(f, b1, b2);
      MapAround(f, b, i);
      MultisetRegroup(Map(f, a), Map(f, a[1..]), Map(f, b), Map(f, b1), Map(f, b2), [f(a[0])]);
    }
  }

  /** A duplicate-free sequence's multiset is its set, one copy each. */
  lemma {:induction false} NoDupMultiset<T>(xs: seq<T>, x: T)
    requires NoDup(xs)
    ensures multiset(xs)[x] == if x in xs then 1 else 0
    decreases |xs|
  {
    if xs != [] {
      assert xs == [xs[0]] + xs[1..];
      NoDupMultiset(xs[1..], x);
    }
  }

  /** Two duplicate-free sequences with the same elements are permutations. */
  lemma NoDupSameElements<T>(a: seq<T>, b: seq<T>)
    requires NoDup(a) && NoDup(b)
    requires forall x :: x in a <==> x in b
    ensures multiset(a) == multiset(b)
  {
    forall x
      ensures multiset(a)[x] == multiset(b)[x]
    {
      NoDupMultiset(a, x);
      NoDupMultiset(b, x);
    }
  }

  /** A permutation of a duplicate-free sequence is duplicate-free. */
  lemma PermutationNoDup<T>(a: seq<T>, b: seq<T>)
    requires NoDup(a) && multiset(a) == multiset(b)
    ensures NoDup(b)
  {
    if !NoDup(b) {
      var i, j :| 0 <= i < j < |b| && b[i] == b[j];
      assert b == b[..i] + [b[i]] + b[i + 1..j] + [b[j]] + b[j + 1..];
      assert multiset(b)[b[i]] >= 2;
      NoDupMultiset(a, b[i]);
      assert false;
    }
  }
}
