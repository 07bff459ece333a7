/** The JavaScript string operations index.ts and test-urls.ts rely on, written
    out: `trim`, `split` on one character, `join`, `indexOf`, `startsWith`,
    `endsWith`, `replace` of the first occurrence of a literal, decimal
    rendering of numbers with `padStart`, the default `Array.prototype.sort`
    order (UTF-16 code units), and `length` (also in UTF-16 code units).
    Strings are sequences of Unicode scalar values. */
module Text {
  import opened Seqs
  import opened Sorting

  /** The characters `trim()` removes and `\s` matches: the ECMAScript
      WhiteSpace and LineTerminator productions. */
  predicate IsSpace(c: char)
  {
    || c == '\t' || c == '\n' || c == '\U{B}' || c == '\U{C}' || c == '\r' || c == ' '
    || c == '\U{A0}' || c == '\U{1680}' || ('\U{2000}' <= c <= '\U{200A}')
    || c == '\U{2028}' || c == '\U{2029}' || c == '\U{202F}' || c == '\U{205F}'
    || c == '\U{3000}' || c == '\U{FEFF}'
  }

  /** The characters a regular-expression `.` does not match. */
  predicate IsLineTerminator(c: char)
  {
    c == '\n' || c == '\r' || c == '\U{2028}' || c == '\U{2029}'
  }

  predicate NoSpace(s: string)
  {
    forall i :: 0 <= i < |s| ==> !IsSpace(s[i])
  }

  /** `s.trimStart()`: the longest suffix of `s` that does not start with white space. */
  function TrimStart(s: string): (r: string)
    ensures |r| <= |s| && r == s[|s| - |r|..]
    ensures forall i :: 0 <= i < |s| - |r| ==> IsSpace(s[i])
    ensures r == [] || !IsSpace(r[0])
    decreases |s|
  {
    if |s| > 0 && IsSpace(s[0]) then TrimStart(s[1..]) else s
  }

  /** `s.trimEnd()`: the longest prefix of `s` that does not end with white space. */
  function TrimEnd(s: string): (r: string)
    ensures |r| <= |s| && r == s[..|r|]
    ensures forall i :: |r| <= i < |s| ==> IsSpace(s[i])
    ensures r == [] || !IsSpace(r[|r| - 1])
    decreases |s|
  {
    if |s| > 0 && IsSpace(s[|s| - 1]) then TrimEnd(s[..|s| - 1]) else s
  }

  /** `s.trim()`: `s` without its leading and trailing white space. */
  function Trim(s: string): (r: string)
    ensures |r| <= |s|
    ensures r == [] || (!IsSpace(r[0]) && !IsSpace(r[|r| - 1]))
  {
    TrimEnd(TrimStart(s))
  }

  /** The trim of `s` is the piece of `s` at `k` with only white space around it. */
  lemma {:induction false} TrimInfix(s: string) returns (k: nat)
    ensures k + |Trim(s)| <= |s| && Trim(s) == s[k..k + |Trim(s)|]
    ensures forall i :: 0 <= i < k ==> IsSpace(s[i])
    ensures forall i :: k + |Trim(s)| <= i < |s| ==> IsSpace(s[i])
  {
    var t := TrimStart(s);
    var r := TrimEnd(t);
    k := |s| - |t|;
    PrefixOfSuffix(s, k, t, r);
  }

  /** A prefix `r` of the suffix `t` of `s` starting at `k`, whose
      remainder in `t` is white space. */
  lemma PrefixOfSuffix(s: string, k: nat, t: string, r: string)
    requires k <= |s| && t == s[k..] && |r| <= |t| && r == t[..|r|]
    requires forall i :: |r| <= i < |t| ==> IsSpace(t[i])
    ensures k + |r| <= |s| && r == s[k..k + |r|]
    ensures forall i :: k + |r| <= i < |s| ==> IsSpace(s[i])
  {
    assert r == s[k..k + |r|];
    forall i | k + |r| <= i < |s|
      ensures IsSpace(s[i])
    {
      assert s[i] == t[i - k];
    }
  }

  /** A string that neither starts nor ends with white space is its own trim. */
  lemma TrimIdentity(s: string)
    requires s == [] || (!IsSpace(s[0]) && !IsSpace(s[|s| - 1]))
    ensures Trim(s) == s
  {
  }

  /** Trimming removes any trailing white-space character. */
  lemma TrimSnocSpace(s: string, c: char)
    requires IsSpace(c)
    ensures Trim(s + [c]) == Trim(s)
  {
    var t := TrimStart(s);
    if t == [] {
      TrimStartAllSpace(s + [c]);
    } else {
      TrimStartSnoc(s, c);
      assert TrimStart(s + [c]) == t + [c];
      assert (t + [c])[..|t + [c]| - 1] == t;
    }
  }

  lemma {:induction false} TrimStartAllSpace(s: string)
    requires forall i :: 0 <= i < |s| ==> IsSpace(s[i])
    ensures TrimStart(s) == []
    decreases |s|
  {
    if s != [] {
      TrimStartAllSpace(s[1..]);
    }
  }

  lemma {:induction false} TrimStartSnoc(s: string, c: char)
    requires TrimStart(s) != []
    ensures TrimStart(s + [c]) == TrimStart(s) + [c]
    decreases |s|
  {
    assert s != [];
    assert (s + [c])[1..] == s[1..] + [c];
    if IsSpace(s[0]) {
      TrimStartSnoc(s[1..], c);
    }
  }

  /** Trimming removes any leading white-space character. */
  lemma TrimConsSpace(c: char, s: string)
    requires IsSpace(c)
    ensures Trim([c] + s) == Trim(s)
  {
    assert ([c] + s)[1..] == s;
  }

  predicate StartsWith(s: string, prefix: string)
  {
    |prefix| <= |s| && s[..|prefix|] == prefix
  }

  predicate EndsWith(s: string, suffix: string)
  {
    |suffix| <= |s| && s[|s| - |suffix|..] == suffix
  }

  /** `pat` occurs in `s` starting at index `i`. */
  predicate OccursAt(s: string, i: int, pat: string)
  {
    0 <= i && i + |pat| <= |s| && forall t :: 0 <= t < |pat| ==> s[i + t] == pat[t]
  }

  /** The same, as an equation between a slice of `s` and `pat`. */
  lemma OccursAtSlice(s: string, i: nat, pat: string)
    requires i + |pat| <= |s|
    ensures OccursAt(s, i, pat) <==> s[i..i + |pat|] == pat
  {
    var u := s[i..i + |pat|];
    forall t | 0 <= t < |pat|
      ensures u[t] == s[i + t]
    {
    }
  }

  /** `s.indexOf(pat, from)`, and the search a regular expression without
      alternatives makes for a literal: the first index at or after `from`
      where `pat` occurs, or -1. */
  function IndexOfFrom(s: string, pat: string, from: nat): (r: int)
    ensures r == -1 || (from <= r && OccursAt(s, r, pat))
    ensures forall j :: from <= j && (r == -1 || j < r) ==> !OccursAt(s, j, pat)
    decreases |s| - from
  {
    if from > |s| then -1
    else if OccursAt(s, from, pat) then from
    else IndexOfFrom(s, pat, from + 1)
  }

  /** An occurrence in the second part of a text is an occurrence in that part. */
  lemma OccursAtConcat(a: string, b: string, i: nat, pat: string)
    ensures OccursAt(a + b, |a| + i, pat) == OccursAt(b, i, pat)
  {
    if i + |pat| <= |b| {
      assert (a + b)[|a| + i..|a| + i + |pat|] == b[i..i + |pat|];
    }
  }

  lemma OccursAtIndex(s: string, i: nat, pat: string, t: nat)
    requires OccursAt(s, i, pat) && t < |pat|
    ensures s[i + t] == pat[t]
  {
    assert s[i..i + |pat|][t] == s[i + t];
  }

  /** An occurrence that ends inside the first part of a text is one of that part. */
  lemma OccursAtPrefix(a: string, b: string, i: nat, pat: string)
    requires i + |pat| <= |a|
    ensures OccursAt(a + b, i, pat) == OccursAt(a, i, pat)
  {
    assert (a + b)[i..i + |pat|] == a[i..i + |pat|];
  }

  /** An occurrence in a suffix of a text is one of the text. */
  lemma OccursAtSuffix(s: string, k: nat, i: nat, pat: string)
    requires k <= |s|
    ensures OccursAt(s[k..], i, pat) == OccursAt(s, k + i, pat)
  {
    if i + |pat| <= |s| - k {
      assert s[k..][i..i + |pat|] == s[k + i..k + i + |pat|];
    }
  }

  /** A character missing from every position of a range is missing from its slice. */
  lemma NotInSlice(s: string, i: nat, j: nat, c: char)
    requires i <= j <= |s|
    requires forall k :: i <= k < j ==> s[k] != c
    ensures c !in s[i..j]
  {
    assert forall k :: 0 <= k < j - i ==> s[i..j][k] == s[i + k];
  }

  /** `s.indexOf(c)`: the first index of `c`, or -1. */
  function IndexOf(s: string, c: char): (r: int)
    ensures -1 <= r < |s|
    ensures r == -1 <==> c !in s
    ensures 0 <= r ==> s[r] == c && c !in s[..r]
    decreases |s|
  {
    if |s| == 0 then -1
    else if s[0] == c then 0
    else
      var k := IndexOf(s[1..], c);
      assert s[1..][..k + 1] == s[1..k + 2] by {
        assert k >= 0 ==> s[1..][..k] == s[1..k + 1];
      }
      if k < 0 then -1 else k + 1
  }

  /** The first occurrence is the only position holding `c` with no `c` before it. */
  lemma {:induction false} IndexOfUnique(s: string, c: char, k: nat)
    requires k < |s| && s[k] == c && c !in s[..k]
    ensures IndexOf(s, c) == k
  {
    var r := IndexOf(s, c);
    forall j | 0 <= j < k
      ensures s[j] != c
    {
      assert s[..k][j] == s[j];
    }
    if r >= 0 {
      forall j | 0 <= j < r
        ensures s[j] != c
      {
        assert s[..r][j] == s[j];
      }
    }
  }

  lemma {:induction false} IndexOfConcat(a: string, c: char, b: string)
    requires c !in a
    ensures IndexOf(a + [c] + b, c) == |a|
  {
    var s := a + [c] + b;
    assert s[..|a|] == a;
    IndexOfUnique(s, c, |a|);
  }

  /** `xs.join(sep)`. */
  function Join(xs: seq<string>, sep: string): string
    decreases |xs|
  {
    if |xs| == 0 then ""
    else if |xs| == 1 then xs[0]
    else xs[0] + sep + Join(xs[1..], sep)
  }

  /** Joining from index `k` on: the piece at `k`, the separator, the rest. */
  lemma {:induction false} JoinAt(xs: seq<string>, k: nat, sep: string)
    requires k + 1 < |xs|
    ensures Join(xs[k..], sep) == xs[k] + sep + Join(xs[k + 1..], sep)
  {
    assert xs[k..][1..] == xs[k + 1..];
  }

  /** Joining two non-empty runs puts one separator between them. */
  lemma {:induction false} JoinConcat(a: seq<string>, b: seq<string>, sep: string)
    requires a != [] && b != []
    ensures Join(a + b, sep) == Join(a, sep) + sep + Join(b, sep)
    decreases |a|
  {
    if |a| == 1 {
      assert (a + b)[1..] == b;
    } else {
      assert (a + b)[1..] == a[1..] + b;
      JoinConcat(a[1..], b, sep);
    }
  }

  /** Joining one more piece adds the separator and the piece. */
  lemma {:induction false} JoinSnoc(xs: seq<string>, y: string, sep: string)
    ensures Join(xs + [y], sep) == if xs == [] then y else Join(xs, sep) + sep + y
    decreases |xs|
  {
    if |xs| == 1 {
      assert (xs + [y])[1..] == [y];
    } else if |xs| > 1 {
      assert (xs + [y])[1..] == xs[1..] + [y];
      JoinSnoc(xs[1..], y, sep);
    }
  }

  /** `s.split(sep)` for a one-character separator: the pieces between the
      separators, which joined again give back `s`. */
  function Split(s: string, sep: char): (r: seq<string>)
    ensures |r| >= 1
    ensures forall i :: 0 <= i < |r| ==> sep !in r[i]
    ensures Join(r, [sep]) == s
    decreases |s|
  {
    var i := IndexOf(s, sep);
    if i < 0 then [s]
    else
      var rest := Split(s[i + 1..], sep);
      assert s == s[..i] + [sep] + s[i + 1..];
      [s[..i]] + rest
  }

  /** One step of `Split`: the piece before the first separator, then the
      split of the rest. */
  lemma {:induction false} SplitStep(s: string, sep: char, i: nat)
    requires i < |s| && IndexOf(s, sep) == i
    ensures Split(s, sep) == [s[..i]] + Split(s[i + 1..], sep)
  {
  }

  lemma {:induction false} SplitNone(s: string, sep: char)
    requires sep !in s
    ensures Split(s, sep) == [s]
  {
  }

  /** Joining pieces that do not contain the separator and splitting again
      gives the pieces back. */
  lemma {:induction false} SplitJoin(xs: seq<string>, sep: char)
    requires |xs| >= 1
    requires forall i :: 0 <= i < |xs| ==> sep !in xs[i]
    ensures Split(Join(xs, [sep]), sep) == xs
    decreases |xs|
  {
    if |xs| == 1 {
      SplitNone(xs[0], sep);
    } else {
      var j := Join(xs[1..], [sep]);
      var s := xs[0] + [sep] + j;
      assert Join(xs, [sep]) == s;
      IndexOfConcat(xs[0], sep, j);
      SplitStep(s, sep, |xs[0]|);
      assert s[..|xs[0]|] == xs[0];
      assert s[|xs[0]| + 1..] == j;
      SplitJoin(xs[1..], sep);
      assert xs == [xs[0]] + xs[1..];
    }
  }

  /** Splitting distributes over a separator. */
  lemma {:induction false} SplitConcat(a: string, sep: char, b: string)
    ensures Split(a + [sep] + b, sep) == Split(a, sep) + Split(b, sep)
    decreases |a|
  {
    if sep !in a {
      SplitConcatFirst(a, sep, b);
    } else {
      var i := IndexOf(a, sep);
      var c := a[i + 1..];
      SplitConcat(c, sep, b);
      SplitConcatLater(a, sep, b, i, c);
    }
  }

  /** The added separator is the first one. */
  lemma {:induction false} SplitConcatFirst(a: string, sep: char, b: string)
    requires sep !in a
    ensures Split(a + [sep] + b, sep) == [a] + Split(b, sep)
    ensures Split(a, sep) == [a]
  {
    var s := a + [sep] + b;
    IndexOfConcat(a, sep, b);
    SplitStep(s, sep, |a|);
    SplitNone(a, sep);
    assert s[..|a|] == a;
    assert s[|a| + 1..] == b;
  }

  /** A separator inside `a` at `i` comes first, so the split of the rest
      `c` carries over. */
  lemma {:induction false} SplitConcatLater(a: string, sep: char, b: string, i: nat, c: string)
    requires i < |a| && IndexOf(a, sep) == i && c == a[i + 1..]
    requires Split(c + [sep] + b, sep) == Split(c, sep) + Split(b, sep)
    ensures Split(a + [sep] + b, sep) == Split(a, sep) + Split(b, sep)
  {
    var x, p, q := a[..i], Split(c, sep), Split(b, sep);
    SplitFirstPiece(a, sep, b, i, c);
    SplitStep(a, sep, i);
    ConcatAssoc([x], p, q);
  }

  lemma {:induction false} SplitFirstPiece(a: string, sep: char, b: string, i: nat, c: string)
    requires i < |a| && IndexOf(a, sep) == i && c == a[i + 1..]
    ensures Split(a + [sep] + b, sep) == [a[..i]] + Split(c + [sep] + b, sep)
  {
    var x, t := a[..i], c + [sep] + b;
    SplitAround(a, i);
    JoinRegroup(x, [sep], c, b);
    SplitConcatFirst(x, sep, t);
  }

  lemma JoinRegroup<T>(x: seq<T>, y: seq<T>, c: seq<T>, b: seq<T>)
    ensures x + y + c + y + b == x + y + (c + y + b)
  {
  }

  /** `s.replace(pat, rep)` with a string pattern: only the first occurrence
      is replaced. */
  function ReplaceFirst(s: string, pat: string, rep: string): string
    decreases |s|
  {
    if StartsWith(s, pat) then rep + s[|pat|..]
    else if s == [] then s
    else [s[0]] + ReplaceFirst(s[1..], pat, rep)
  }

  lemma OccursAtShift(s: string, i: nat, pat: string)
    requires |s| > 0
    ensures OccursAt(s, i + 1, pat) <==> OccursAt(s[1..], i, pat)
  {
    if i + 1 + |pat| <= |s| {
      assert s[i + 1..i + 1 + |pat|] == s[1..][i..i + |pat|];
    }
  }

  /** Without an occurrence of `pat`, replacing it changes nothing. */
  lemma {:induction false} ReplaceFirstAbsent(s: string, pat: string, rep: string)
    requires forall i :: 0 <= i <= |s| ==> !OccursAt(s, i, pat)
    ensures ReplaceFirst(s, pat, rep) == s
    decreases |s|
  {
    assert !OccursAt(s, 0, pat);
    if s != [] {
      forall i | 0 <= i <= |s[1..]|
        ensures !OccursAt(s[1..], i, pat)
      {
        OccursAtShift(s, i, pat);
      }
      ReplaceFirstAbsent(s[1..], pat, rep);
      assert s == [s[0]] + s[1..];
    }
  }

  /** A character of `pat` that occurs neither in `a` nor earlier in `pat`
      keeps `pat` from occurring in `a + pat + b` before `a` ends. */
  lemma NoEarlyOccurrence(a: string, pat: string, b: string, k: nat)
    requires k < |pat| && pat[k] !in a && pat[k] !in pat[..k]
    ensures forall i :: 0 <= i < |a| ==> !OccursAt(a + pat + b, i, pat)
  {
    var s := a + pat + b;
    forall i | 0 <= i < |a|
      ensures !OccursAt(s, i, pat)
    {
      if i + |pat| <= |s| {
        assert s[i..i + |pat|][k] == s[i + k];
      }
    }
  }

  /** When the first occurrence of `pat` follows `a`, exactly that
      occurrence is replaced. */
  lemma {:induction false} ReplaceFirstAt(a: string, pat: string, b: string, rep: string)
    requires forall i :: 0 <= i < |a| ==> !OccursAt(a + pat + b, i, pat)
    ensures ReplaceFirst(a + pat + b, pat, rep) == a + rep + b
    decreases |a|
  {
    var s := a + pat + b;
    if a == [] {
      assert s == pat + b;
      assert StartsWith(s, pat);
      assert s[|pat|..] == b;
    } else {
      assert !OccursAt(s, 0, pat);
      assert !StartsWith(s, pat);
      var t := a[1..] + pat + b;
      assert s[1..] == t;
      forall i | 0 <= i < |a[1..]|
        ensures !OccursAt(t, i, pat)
      {
        OccursAtShift(s, i, pat);
      }
      ReplaceFirstAt(a[1..], pat, b, rep);
      assert ReplaceFirst(s, pat, rep) == [s[0]] + ReplaceFirst(t, pat, rep);
      assert a == [a[0]] + a[1..];
    }
  }

  /** The first occurrence of `pat` in `a + pat + b` is the one after `a`
      when `pat[k]` occurs neither in `a` nor earlier in `pat`. */
  lemma {:induction false} ReplaceFirstAfter(a: string, pat: string, b: string, rep: string, k: nat)
    requires k < |pat| && pat[k] !in a && pat[k] !in pat[..k]
    ensures ReplaceFirst(a + pat + b, pat, rep) == a + rep + b
  {
    NoEarlyOccurrence(a, pat, b, k);
    ReplaceFirstAt(a, pat, b, rep);
  }

  /** `xs.split(",").map((item) => item.trim()).filter(Boolean)`: the
      non-empty trimmed comma-separated items of a line. */
  function SplitItems(line: string): seq<string>
  {
    Filter(IsNonEmpty, Map(Trim, Split(line, ',')))
  }

  predicate IsNonEmpty(s: string)
  {
    s != []
  }

  /** Splitting items across a `", "` boundary splits each side separately. */
  lemma SplitItemsConcat(a: string, b: string)
    ensures SplitItems(a + ", " + b) == SplitItems(a) + SplitItems(b)
  {
    var pa := Split(a, ',');
    var pb := Split([' '] + b, ',');
    assert Split(a + ", " + b, ',') == pa + pb by {
      assert a + ", " + b == a + [','] + ([' '] + b);
      SplitConcat(a, ',', [' '] + b);
    }
    MapConcat(Trim, pa, pb);
    MapTrimSplitConsSpace(b);
    FilterConcat(IsNonEmpty, Map(Trim, pa), Map(Trim, pb));
  }

  /** A space in front of a line does not change its trimmed pieces. */
  lemma {:induction false} MapTrimSplitConsSpace(b: string)
    ensures Map(Trim, Split([' '] + b, ',')) == Map(Trim, Split(b, ','))
  {
    var pb := Split(b, ',');
    var pb' := Split([' '] + b, ',');
    SplitConsNonSep(' ', b, ',');
    assert pb' == [[' '] + pb[0]] + pb[1..];
    assert pb == [pb[0]] + pb[1..];
    TrimConsSpace(' ', pb[0]);
    MapConcat(Trim, [pb[0]], pb[1..]);
    MapConcat(Trim, [[' '] + pb[0]], pb[1..]);
  }

  lemma {:induction false} SplitConsNonSep(c: char, s: string, sep: char)
    requires c != sep
    ensures Split([c] + s, sep) == [[c] + Split(s, sep)[0]] + Split(s, sep)[1..]
  {
    var t := [c] + s;
    if sep in s {
      var i := IndexOf(s, sep);
      assert t[..i + 1] == [c] + s[..i];
      IndexOfUnique(t, sep, i + 1);
      SplitStep(t, sep, i + 1);
      SplitStep(s, sep, i);
      assert t[i + 2..] == s[i + 1..];
    } else {
      assert sep !in t;
      SplitNone(t, sep);
      SplitNone(s, sep);
    }
  }

  /** A single item is its own item list. */
  lemma SplitItemsSingle(x: string)
    requires x != [] && ',' !in x && Trim(x) == x
    ensures SplitItems(x) == [x]
  {
    assert Split(x, ',') == [x];
    assert Map(Trim, [x]) == [x];
  }

  /** Items joined by `", "` are recovered by splitting, provided each is
      non-empty, free of commas and not padded with white space. */
  lemma {:induction false} SplitItemsOfJoin(items: seq<string>)
    requires forall i :: 0 <= i < |items| ==> items[i] != [] && ',' !in items[i] && Trim(items[i]) == items[i]
    ensures SplitItems(Join(items, ", ")) == items
    decreases |items|
  {
    if |items| == 0 {
      assert Split("", ',') == [""];
    } else if |items| == 1 {
      SplitItemsSingle(items[0]);
    } else {
      SplitItemsOfJoin(items[1..]);
      SplitItemsJoinStep(items);
    }
  }

  /** One more item in front of a list that splits back. */
  lemma {:induction false} SplitItemsJoinStep(items: seq<string>)
    requires |items| > 1
    requires items[0] != [] && ',' !in items[0] && Trim(items[0]) == items[0]
    requires SplitItems(Join(items[1..], ", ")) == items[1..]
    ensures SplitItems(Join(items, ", ")) == items
  {
    var x, rest := items[0], Join(items[1..], ", ");
    assert Join(items, ", ") == x + ", " + rest;
    SplitItemsConcat(x, rest);
    SplitItemsSingle(x);
    HeadTail(items);
  }


  /** Decimal value of a single digit character. */
  function DigitChar(d: nat): (c: char)
    requires d < 10
    ensures '0' <= c <= '9' && (c as int) - ('0' as int) == d
  {
    (('0' as int) + d) as char
  }

  predicate IsDigit(c: char)
  {
    '0' <= c <= '9'
  }

  function Pow10(k: nat): nat
  {
    if k == 0 then 1 else 10 * Pow10(k - 1)
  }

  /** Value of a string of decimal digits. */
  function DigitsValue(s: string): nat
    requires forall i :: 0 <= i < |s| ==> IsDigit(s[i])
    decreases |s|
  {
    if s == [] then 0
    else
      assert IsDigit(s[|s| - 1]);
      DigitsValue(s[..|s| - 1]) * 10 + ((s[|s| - 1] as int) - ('0' as int))
  }

  /** `String(n)` for a non-negative integer: its decimal digits, without
      leading zeros, which read back as `n`. */
  function Digits(n: nat): (r: string)
    ensures |r| >= 1 && forall i :: 0 <= i < |r| ==> IsDigit(r[i])
    ensures DigitsValue(r) == n
    ensures n < Pow10(|r|) && (|r| > 1 ==> Pow10(|r| - 1) <= n)
    decreases n
  {
    if n < 10 then [DigitChar(n)]
    else
      var p := Digits(n / 10);
      var r := p + [DigitChar(n % 10)];
      assert r[..|r| - 1] == p;
      r
  }

  /** `String(value).padStart(2, "0")`. */
  function Pad2(s: string): string
  {
    if |s| == 0 then "00" else if |s| == 1 then "0" + s else s
  }

  /** Position of a character in `Array.prototype.sort`'s default order.
      That sort compares UTF-16 code units. A character below U+10000 is the
      single unit `c`; a supplementary character is a surrogate pair whose
      high unit lies in D800-DBFF. Scaling by 1024 and adding the offset of a
      supplementary character orders characters exactly as their code-unit
      sequences compare: no BMP character is a surrogate, so a BMP character
      and a surrogate pair always differ in the first unit. */
  function CodeUnitKey(c: char): int
  {
    if c as int < 0x10000 then (c as int) * 1024
    else 0xD800 * 1024 + (c as int - 0x10000)
  }

  lemma CodeUnitKeyInjective(c: char, d: char)
    requires CodeUnitKey(c) == CodeUnitKey(d)
    ensures c == d
  {
  }

  /** `a` sorts no later than `b` under the default `sort()`: lexicographic
      comparison in UTF-16 code units. */
  predicate CodeUnitLe(a: string, b: string)
    decreases |a|
  {
    if |a| == 0 then true
    else if |b| == 0 then false
    else if a[0] == b[0] then CodeUnitLe(a[1..], b[1..])
    else CodeUnitKey(a[0]) < CodeUnitKey(b[0])
  }

  lemma {:induction false} CodeUnitLeAntisymmetric(a: string, b: string)
    requires CodeUnitLe(a, b) && CodeUnitLe(b, a)
    ensures a == b
    decreases |a|
  {
    if |a| > 0 && a[0] == b[0] {
      CodeUnitLeAntisymmetric(a[1..], b[1..]);
      assert a == [a[0]] + a[1..];
      assert b == [b[0]] + b[1..];
    }
  }

  lemma {:induction false} CodeUnitLeTransitive(a: string, b: string, c: string)
    requires CodeUnitLe(a, b) && CodeUnitLe(b, c)
    ensures CodeUnitLe(a, c)
    decreases |a|
  {
    if |a| > 0 && a[0] == b[0] && b[0] == c[0] {
      CodeUnitLeTransitive(a[1..], b[1..], c[1..]);
    }
  }

  lemma {:induction false} CodeUnitLeTotal(a: string, b: string)
    ensures CodeUnitLe(a, b) || CodeUnitLe(b, a)
    decreases |a|
  {
    if |a| > 0 && |b| > 0 {
      if a[0] == b[0] {
        CodeUnitLeTotal(a[1..], b[1..]);
      } else if CodeUnitKey(a[0]) == CodeUnitKey(b[0]) {
        CodeUnitKeyInjective(a[0], b[0]);
      }
    }
  }

  lemma {:induction false} CodeUnitLeReflexive(a: string)
    ensures CodeUnitLe(a, a)
    decreases |a|
  {
    if |a| > 0 {
      CodeUnitLeReflexive(a[1..]);
    }
  }

  /** The default sort order is a total order on strings. */
  lemma CodeUnitOrderIsTotal()
    ensures TotalOrder(CodeUnitLe)
  {
    forall a
      ensures CodeUnitLe(a, a)
    {
      CodeUnitLeReflexive(a);
    }
    forall a, b | CodeUnitLe(a, b) && CodeUnitLe(b, a)
      ensures a == b
    {
      CodeUnitLeAntisymmetric(a, b);
    }
    forall a, b, c | CodeUnitLe(a, b) && CodeUnitLe(b, c)
      ensures CodeUnitLe(a, c)
    {
      CodeUnitLeTransitive(a, b, c);
    }
    forall a, b
      ensures CodeUnitLe(a, b) || CodeUnitLe(b, a)
    {
      CodeUnitLeTotal(a, b);
    }
  }

  /** `xs.sort()` on strings. */
  function SortStrings(xs: seq<string>): (r: seq<string>)
    ensures multiset(r) == multiset(xs)
  {
    Sort(CodeUnitLe, xs)
  }

  /** `s.length`: UTF-16 code units, two for a supplementary character. */
  function JsLength(s: string): (n: nat)
    ensures |s| <= n <= 2 * |s|
    decreases |s|
  {
    if s == [] then 0
    else (if s[0] as int >= 0x10000 then 2 else 1) + JsLength(s[1..])
  }

  lemma {:induction false} JsLengthConcat(a: string, b: string)
    ensures JsLength(a + b) == JsLength(a) + JsLength(b)
    decreases |a|
  {
    if a != [] {
      assert (a + b)[0] == a[0];
      assert (a + b)[1..] == a[1..] + b;
      JsLengthConcat(a[1..], b);
    } else {
      assert a + b == b;
    }
  }

  /** ASCII upper-casing of one character. */
  function AsciiUpper(c: char): char
  {
    if 'a' <= c <= 'z' then ((c as int) - 32) as char else c
  }

  /** `s.toUpperCase().replace(/-/g, " ")` restricted to ASCII letters. */
  function DefaultLabel(s: string): (r: string)
    ensures |r| == |s|
    ensures forall i :: 0 <= i < |s| ==> r[i] == (if s[i] == '-' then ' ' else AsciiUpper(s[i]))
    decreases |s|
  {
    if s == [] then []
    else [if s[0] == '-' then ' ' else AsciiUpper(s[0])] + DefaultLabel(s[1..])
  }
}
