/** The two regular-expression scans over the sitemap XML (index.ts):
    `extractUrls` collects the `<loc>` values and `extractLastMod` keeps the
    newest `<lastmod>` date. Both are text scans, not XML parsing. */
module Sitemap {
  import opened Wrappers
  import opened Seqs
  import opened Text
  import opened Timestamp

  function OpenTag(tag: string): string
  {
    "<" + tag + ">"
  }

  function CloseTag(tag: string): string
  {
    "</" + tag + ">"
  }

  /** The end of the run of non-`<` characters starting at `i`. */
  function RunEnd(xml: string, i: nat): (j: nat)
    requires i <= |xml|
    ensures i <= j <= |xml|
    ensures j < |xml| ==> xml[j] == '<'
    decreases |xml| - i
  {
    if i == |xml| || xml[i] == '<' then i else RunEnd(xml, i + 1)
  }

  /** No `<` occurs inside the run. */
  lemma {:induction false} RunEndClear(xml: string, i: nat)
    requires i <= |xml|
    ensures forall k :: i <= k < RunEnd(xml, i) ==> xml[k] != '<'
    decreases |xml| - i
  {
    if i < |xml| && xml[i] != '<' {
      RunEndClear(xml, i + 1);
    }
  }

  /** Whether `/<tag>([^<]+)<\/tag>/` matches at `p`, and if so where the
      captured text ends. `[^<]+` cannot give characters back, because the
      closing tag has to start with `<`; so only the longest run can match. */
  function MatchAt(xml: string, tag: string, p: nat): (r: Option<nat>)
    requires p <= |xml|
    ensures r.Some? ==> p + |OpenTag(tag)| < r.value <= |xml|
  {
    var o := OpenTag(tag);
    if OccursAt(xml, p, o) then
      var j := RunEnd(xml, p + |o|);
      if p + |o| < j && OccursAt(xml, j, CloseTag(tag)) then Some(j) else None
    else None
  }

  /** A match is an opening tag, a non-empty run free of `<`, and a closing tag. */
  lemma MatchAtShape(xml: string, tag: string, p: nat)
    requires p <= |xml| && MatchAt(xml, tag, p).Some?
    ensures OccursAt(xml, p, OpenTag(tag))
    ensures OccursAt(xml, MatchAt(xml, tag, p).value, CloseTag(tag))
    ensures '<' !in xml[p + |OpenTag(tag)|..MatchAt(xml, tag, p).value]
  {
    RunEndClear(xml, p + |OpenTag(tag)|);
    NotInSlice(xml, p + |OpenTag(tag)|, MatchAt(xml, tag, p).value, '<');
  }

  /** The captures of `regex.exec` called again and again from position `p`
      of the text, each search resuming where the previous match ended. */
  function Scan(xml: string, tag: string, p: nat): seq<string>
    requires p <= |xml|
    decreases |xml| - p
  {
    match MatchAt(xml, tag, p)
    case Some(j) =>
      [xml[p + |OpenTag(tag)|..j]] + Scan(xml, tag, j + |CloseTag(tag)|)
    case None =>
      if p == |xml| then [] else Scan(xml, tag, p + 1)
  }

  /** Every value `Scan` captures is non-empty and free of `<`. */
  predicate Captures(r: seq<string>)
  {
    forall i :: 0 <= i < |r| ==> r[i] != [] && '<' !in r[i]
  }

  lemma {:induction false} ScanShape(xml: string, tag: string, p: nat)
    requires p <= |xml|
    ensures Captures(Scan(xml, tag, p))
    decreases |xml| - p
  {
    match MatchAt(xml, tag, p)
    case Some(j) =>
      MatchAtShape(xml, tag, p);
      ScanShape(xml, tag, j + |CloseTag(tag)|);
      ScanShapeCons(xml[p + |OpenTag(tag)|..j], Scan(xml, tag, j + |CloseTag(tag)|));
    case None =>
      if p < |xml| {
        ScanShape(xml, tag, p + 1);
      }
  }

  lemma ScanShapeCons(v: string, r: seq<string>)
    requires v != [] && '<' !in v && Captures(r)
    ensures Captures([v] + r)
  {
  }

  /** `extractUrls(xml)`. */
  function ExtractUrls(xml: string): (r: seq<string>)
    ensures forall i :: 0 <= i < |r| ==> r[i] != [] && '<' !in r[i]
  {
    ScanShape(xml, "loc", 0);
    Scan(xml, "loc", 0)
  }

  /** A match inside the second part of a text is a match of that part. */
  lemma MatchAtShift(a: string, b: string, tag: string, i: nat)
    requires i <= |b|
    ensures MatchAt(a + b, tag, |a| + i).Some? == MatchAt(b, tag, i).Some?
    ensures MatchAt(b, tag, i).Some? ==>
      && MatchAt(a + b, tag, |a| + i).value == |a| + MatchAt(b, tag, i).value
      && (a + b)[|a| + i + |OpenTag(tag)|..|a| + MatchAt(b, tag, i).value]
         == b[i + |OpenTag(tag)|..MatchAt(b, tag, i).value]
  {
    var s := a + b;
    var o, c := OpenTag(tag), CloseTag(tag);
    OccursAtConcat(a, b, i, o);
    if OccursAt(b, i, o) {
      var j := RunEnd(b, i + |o|);
      RunEndShift(a, b, i + |o|);
      OccursAtConcat(a, b, j, c);
      assert s[|a| + i + |o|..|a| + j] == b[i + |o|..j];
    }
  }

  /** A scan that starts inside the second part of a text only sees that part. */
  lemma {:induction false} ScanShift(a: string, b: string, tag: string, i: nat)
    requires i <= |b|
    ensures Scan(a + b, tag, |a| + i) == Scan(b, tag, i)
    decreases |b| - i
  {
    match MatchAt(b, tag, i)
    case Some(j) =>
      var k := j + |CloseTag(tag)|;
      ScanShiftMatch(a, b, tag, i, j, k);
      ScanShift(a, b, tag, k);
      ScanShiftMatchStep(a, b, tag, i, j, k);
    case None =>
      if i < |b| {
        ScanShift(a, b, tag, i + 1);
        ScanShiftSkip(a, b, tag, i);
      } else {
        ScanEnd(b, tag);
        ScanEnd(a + b, tag);
      }
  }

  /** Where an element of the second part ends. */
  lemma ScanShiftMatch(a: string, b: string, tag: string, i: nat, j: nat, k: nat)
    requires i <= |b| && MatchAt(b, tag, i) == Some(j) && k == j + |CloseTag(tag)|
    ensures i < k <= |b|
  {
  }

  /** The shifted scan where an element matches at `i`. */
  lemma ScanShiftMatchStep(a: string, b: string, tag: string, i: nat, j: nat, k: nat)
    requires i <= |b| && MatchAt(b, tag, i) == Some(j) && k == j + |CloseTag(tag)| && k <= |b|
    requires Scan(a + b, tag, |a| + k) == Scan(b, tag, k)
    ensures Scan(a + b, tag, |a| + i) == Scan(b, tag, i)
  {
    var o := |OpenTag(tag)|;
    ScanShiftSome(a, b, tag, i, j, k);
    ScanStepSome(b, tag, i, j, k);
    ConsCongruence(Scan(a + b, tag, |a| + i), Scan(b, tag, i),
      b[i + o..j], b[i + o..j], Scan(a + b, tag, |a| + k), Scan(b, tag, k));
  }

  lemma ScanShiftSome(a: string, b: string, tag: string, i: nat, j: nat, k: nat)
    requires i <= |b| && MatchAt(b, tag, i) == Some(j) && k == j + |CloseTag(tag)| && k <= |b|
    ensures Scan(a + b, tag, |a| + i) == [b[i + |OpenTag(tag)|..j]] + Scan(a + b, tag, |a| + k)
  {
    MatchAtShiftSome(a, b, tag, i, j);
  }

  lemma MatchAtShiftSome(a: string, b: string, tag: string, i: nat, j: nat)
    requires i <= |b| && MatchAt(b, tag, i) == Some(j)
    ensures MatchAt(a + b, tag, |a| + i) == Some(|a| + j)
    ensures (a + b)[|a| + i + |OpenTag(tag)|..|a| + j] == b[i + |OpenTag(tag)|..j]
  {
    MatchAtShift(a, b, tag, i);
  }

  /** The shifted scan where nothing matches at `i`. */
  lemma ScanShiftSkip(a: string, b: string, tag: string, i: nat)
    requires i < |b| && MatchAt(b, tag, i).None?
    requires Scan(a + b, tag, |a| + (i + 1)) == Scan(b, tag, i + 1)
    ensures Scan(a + b, tag, |a| + i) == Scan(b, tag, i)
  {
    ScanStepNone(b, tag, i, i + 1);
    ScanShiftNone(a, b, tag, i);
    EqChain(Scan(a + b, tag, |a| + i), Scan(a + b, tag, |a| + (i + 1)), Scan(b, tag, i + 1), Scan(b, tag, i));
  }

  lemma ScanShiftNone(a: string, b: string, tag: string, i: nat)
    requires i < |b| && MatchAt(b, tag, i).None?
    ensures Scan(a + b, tag, |a| + i) == Scan(a + b, tag, |a| + (i + 1))
  {
    MatchAtShiftNone(a, b, tag, i);
  }

  lemma MatchAtShiftNone(a: string, b: string, tag: string, i: nat)
    requires i <= |b| && MatchAt(b, tag, i).None?
    ensures MatchAt(a + b, tag, |a| + i).None?
  {
    MatchAtShift(a, b, tag, i);
  }

  /** Nothing is found at the end of a text. */
  lemma ScanEnd(s: string, tag: string)
    ensures Scan(s, tag, |s|) == []
  {
    assert !OccursAt(s, |s|, OpenTag(tag));
  }

  /** One step of `Scan` where an element matches at `p` and ends at `k`. */
  lemma ScanStepSome(s: string, tag: string, p: nat, j: nat, k: nat)
    requires p <= |s| && MatchAt(s, tag, p) == Some(j) && k == j + |CloseTag(tag)|
    ensures k <= |s| && Scan(s, tag, p) == [s[p + |OpenTag(tag)|..j]] + Scan(s, tag, k)
  {
  }

  /** One step of `Scan` where nothing matches at `p`. */
  lemma ScanStepNone(s: string, tag: string, p: nat, q: nat)
    requires p < |s| && MatchAt(s, tag, p).None? && q == p + 1
    ensures Scan(s, tag, p) == Scan(s, tag, q)
  {
  }

  lemma {:induction false} RunEndShift(a: string, b: string, i: nat)
    requires i <= |b|
    ensures RunEnd(a + b, |a| + i) == |a| + RunEnd(b, i)
    decreases |b| - i
  {
    if i < |b| && b[i] != '<' {
      RunEndShift(a, b, i + 1);
    }
  }

  /** The text `<tag>` + `u` + `</tag>`. */
  function Element(tag: string, u: string): string
  {
    OpenTag(tag) + u + CloseTag(tag)
  }

  function Elements(tag: string, us: seq<string>): string
    decreases |us|
  {
    if us == [] then "" else Element(tag, us[0]) + Elements(tag, us[1..])
  }

  /** An element with a non-empty, `<`-free value is matched as a whole. */
  lemma {:induction false} ScanElement(tag: string, u: string, rest: string)
    requires u != [] && '<' !in u
    ensures Scan(Element(tag, u) + rest, tag, 0) == [u] + Scan(rest, tag, 0)
  {
    var e := Element(tag, u);
    var s := e + rest;
    var j := |OpenTag(tag)| + |u|;
    ElementMatch(tag, u, rest, s, j);
    ScanShift(e, rest, tag, 0);
    assert |e| + 0 == |e|;
    ScanFirstElement(s, tag, u, j, |e|, rest);
  }

  /** A scan whose first match at the start captures `u` and resumes where
      the scan of `rest` starts. */
  lemma ScanFirstElement(s: string, tag: string, u: string, j: nat, k: nat, rest: string)
    requires MatchAt(s, tag, 0) == Some(j) && k == j + |CloseTag(tag)|
    requires s[0 + |OpenTag(tag)|..j] == u && k <= |s| && Scan(s, tag, k) == Scan(rest, tag, 0)
    ensures Scan(s, tag, 0) == [u] + Scan(rest, tag, 0)
  {
    assert Scan(s, tag, 0) == [s[0 + |OpenTag(tag)|..j]] + Scan(s, tag, k);
    ConsCongruence(Scan(s, tag, 0), [u] + Scan(rest, tag, 0),
      s[0 + |OpenTag(tag)|..j], u, Scan(s, tag, k), Scan(rest, tag, 0));
  }

  /** An element with a non-empty, `<`-free value matches at its start. */
  lemma ElementMatch(tag: string, u: string, rest: string, s: string, j: nat)
    requires u != [] && '<' !in u
    requires s == Element(tag, u) + rest && j == |OpenTag(tag)| + |u|
    ensures |Element(tag, u)| == j + |CloseTag(tag)| <= |s|
    ensures MatchAt(s, tag, 0) == Some(j) && s[0 + |OpenTag(tag)|..j] == u
  {
    var o, c := OpenTag(tag), CloseTag(tag);
    ElementSplit(o, u, c, rest, s);
    OccursAtPrefix(o, u + (c + rest), 0, o);
    ElementRun(o, u, c + rest);
    OccursAtConcat(o + u, c + rest, 0, c);
    OccursAtPrefix(c, rest, 0, c);
    ElementSlice(o, u, c + rest);
    MatchAtFrom(s, tag, j);
  }

  lemma ElementSplit(o: string, u: string, c: string, rest: string, s: string)
    requires s == o + u + c + rest
    ensures s == o + (u + (c + rest)) && s == (o + u) + (c + rest)
  {
  }

  /** The run after the opening tag stops at the closing tag. */
  lemma ElementRun(o: string, u: string, y: string)
    requires '<' !in u && y != [] && y[0] == '<'
    ensures RunEnd(o + (u + y), |o|) == |o| + |u|
  {
    RunEndShift(o, u + y, 0);
    RunEndAtElement(u, y);
  }

  lemma ElementSlice(o: string, u: string, y: string)
    ensures (o + (u + y))[|o|..|o| + |u|] == u
  {
    assert (o + (u + y))[|o|..] == u + y;
  }

  /** The match at the start of a text, given its parts. */
  lemma MatchAtFrom(s: string, tag: string, j: nat)
    requires OccursAt(s, 0, OpenTag(tag)) && RunEnd(s, |OpenTag(tag)|) == j
    requires |OpenTag(tag)| < j && OccursAt(s, j, CloseTag(tag))
    ensures MatchAt(s, tag, 0) == Some(j)
  {
  }

  lemma {:induction false} RunEndAtElement(u: string, rest: string)
    requires '<' !in u && rest != [] && rest[0] == '<'
    ensures RunEnd(u + rest, 0) == |u|
  {
    var s := u + rest;
    RunEndClear(s, 0);
    assert s[|u|] == '<';
    assert forall k :: 0 <= k < |u| ==> s[k] == u[k];
  }

  /** A sitemap made of `<loc>` elements yields exactly their values, in
      order. */
  lemma {:induction false} ExtractUrlsOfElements(us: seq<string>)
    requires forall i :: 0 <= i < |us| ==> us[i] != [] && '<' !in us[i]
    ensures ExtractUrls(Elements("loc", us)) == us
    decreases |us|
  {
    if us != [] {
      ScanElement("loc", us[0], Elements("loc", us[1..]));
      ExtractUrlsOfElements(us[1..]);
      HeadTail(us);
    }
  }

  /** The `newest` variable of `extractLastMod` after the values `vals`,
      starting from `acc`: a value the date parser accepts replaces the
      newest so far when it is later. */
  function Newest(vals: seq<string>, parseDate: string -> Option<Instant>, acc: Option<Instant>): (r: Option<Instant>)
    ensures acc.Some? ==> r.Some? && acc.value <= r.value
    ensures Bounds(vals, parseDate, r)
    ensures r.Some? ==> r == acc || Witnessed(vals, parseDate, r)
    decreases |vals|
  {
    if vals == [] then acc
    else
      var acc' := Later(parseDate(vals[0]), acc);
      var r := Newest(vals[1..], parseDate, acc');
      NewestStep(vals, parseDate, acc, r);
      r
  }

  /** The newest so far after one more value: `d` when it is later. */
  function Later(d: Option<Instant>, acc: Option<Instant>): Option<Instant>
  {
    if d.Some? && (acc.None? || d.value > acc.value) then d else acc
  }

  /** `r` is at least every value the date parser accepts. */
  predicate Bounds(vals: seq<string>, parseDate: string -> Option<Instant>, r: Option<Instant>)
  {
    forall i :: 0 <= i < |vals| && parseDate(vals[i]).Some? ==>
      r.Some? && parseDate(vals[i]).value <= r.value
  }

  /** `r` is what the date parser makes of one of the values. */
  predicate Witnessed(vals: seq<string>, parseDate: string -> Option<Instant>, r: Option<Instant>)
  {
    exists i :: 0 <= i < |vals| && parseDate(vals[i]) == r
  }

  /** One step of the fold: what holds of the rest and the updated newest
      holds of all values and the old one. */
  lemma NewestStep(vals: seq<string>, parseDate: string -> Option<Instant>, acc: Option<Instant>, r: Option<Instant>)
    requires vals != []
    requires var acc' := Later(parseDate(vals[0]), acc);
      && (acc'.Some? ==> r.Some? && acc'.value <= r.value)
      && Bounds(vals[1..], parseDate, r)
      && (r.Some? ==> r == acc' || Witnessed(vals[1..], parseDate, r))
    ensures acc.Some? ==> r.Some? && acc.value <= r.value
    ensures Bounds(vals, parseDate, r)
    ensures r.Some? ==> r == acc || Witnessed(vals, parseDate, r)
  {
    var d := parseDate(vals[0]);
    forall i | 0 <= i < |vals| && parseDate(vals[i]).Some?
      ensures r.Some? && parseDate(vals[i]).value <= r.value
    {
      if i > 0 {
        assert vals[i] == vals[1..][i - 1];
      }
    }
    if r.Some? && r != acc {
      if r == Later(d, acc) {
        assert parseDate(vals[0]) == r;
      } else {
        var k :| 0 <= k < |vals[1..]| && parseDate(vals[1..][k]) == r;
        assert parseDate(vals[k + 1]) == r;
      }
    }
  }

  /** `extractLastMod(xml)`: the latest of the `<lastmod>` values the date
      parser accepts, and nothing when it accepts none. */
  function ExtractLastMod(xml: string, parseDate: string -> Option<Instant>): (r: Option<Instant>)
    ensures var vals := Scan(xml, "lastmod", 0);
      && (r.Some? <==> exists i :: 0 <= i < |vals| && parseDate(vals[i]).Some?)
      && (r.Some? ==> exists i :: 0 <= i < |vals| && parseDate(vals[i]) == r)
      && (forall i :: 0 <= i < |vals| && parseDate(vals[i]).Some? ==> r.Some? && parseDate(vals[i]).value <= r.value)
  {
    Newest(Scan(xml, "lastmod", 0), parseDate, None)
  }
}
