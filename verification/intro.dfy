/** `extractIntro` (index.ts): the text between the frontmatter of the skill
    document and its `<convex-docs-list>` marker. The lemmas here show that
    the intro written by `buildSkillContent` is read back unchanged up to
    white space, for any document laid out the way that function lays it
    out. */
module Intro {
  import opened Seqs
  import opened Text
  import opened Timestamp

  const DefaultIntro: string := "ALL PAGES ARE ACCESSIBLE AS MARKDOWN, WHICH IS THE VERSION YOU MUST ACCESS AND NOT THE HTML PAGE!!!\nLIKE SO: https://docs.convex.dev/quickstart/react.md"
  const ListOpen: string := "<convex-docs-list>"

  /** What `\n*` consumes: the leading newlines. */
  function DropNewlines(s: string): (r: string)
    ensures |r| <= |s| && r == s[|s| - |r|..]
    ensures forall i :: 0 <= i < |s| - |r| ==> s[i] == '\n'
    ensures r == [] || r[0] != '\n'
    decreases |s|
  {
    if s != [] && s[0] == '\n' then DropNewlines(s[1..]) else s
  }

  /** The removal of the first match of `^---[\s\S]*?---\n*`: from a text
      that starts with `---`, everything up to the next `---` and the
      newlines after it goes; any other text is kept. */
  function StripFrontmatter(content: string): string
  {
    if !StartsWith(content, "---") then content
    else
      var j := IndexOfFrom(content, "---", 3);
      if j < 0 then content else DropNewlines(content[j + 3..])
  }

  /** `extractIntro(content)`: the trimmed text between the frontmatter and
      the first `<convex-docs-list>`, or the default intro when there is no
      such marker. The `m` flag does not matter: the lazy group starting at
      index 0 reaches the first marker. */
  function ExtractIntro(content: string): string
  {
    var a := StripFrontmatter(content);
    var k := IndexOfFrom(a, ListOpen, 0);
    if k < 0 then DefaultIntro else Trim(a[..k])
  }

  /** `pat` occurs nowhere in `s`. */
  predicate Absent(s: string, pat: string)
  {
    forall i :: 0 <= i <= |s| ==> !OccursAt(s, i, pat)
  }

  lemma ListOpenShape()
    ensures ListOpen != [] && ListOpen[0] == '<' && '\n' !in ListOpen
  {
  }

  // ----- no `--` inside the frontmatter -----

  /** No two `-` in a row. */
  predicate NoDoubleDash(s: string)
    decreases |s|
  {
    |s| < 2 || (!(s[0] == '-' && s[1] == '-') && NoDoubleDash(s[1..]))
  }

  lemma {:induction false} NoDoubleDashAt(s: string, i: nat)
    requires NoDoubleDash(s) && i + 1 < |s|
    ensures !(s[i] == '-' && s[i + 1] == '-')
    decreases i
  {
    if i > 0 {
      NoDoubleDashAt(s[1..], i - 1);
    }
  }

  lemma {:induction false} NoDoubleDashConcat(a: string, b: string)
    requires NoDoubleDash(a) && NoDoubleDash(b)
    requires a == [] || b == [] || a[|a| - 1] != '-' || b[0] != '-'
    ensures NoDoubleDash(a + b)
    decreases |a|
  {
    if |a| == 1 {
      assert (a + b)[1..] == b;
    } else if |a| > 1 {
      assert NoDoubleDash(a[1..]);
      assert a[1..][|a| - 2] == a[|a| - 1];
      NoDoubleDashConcat(a[1..], b);
      assert (a + b)[1..] == a[1..] + b;
      assert (a + b)[0] == a[0] && (a + b)[1] == a[1];
    } else {
      assert a + b == b;
    }
  }

  lemma {:induction false} DigitsNoDoubleDash(s: string)
    requires forall i :: 0 <= i < |s| ==> IsDigit(s[i])
    ensures NoDoubleDash(s)
    decreases |s|
  {
    if |s| >= 2 {
      DigitsNoDoubleDash(s[1..]);
    }
  }

  lemma {:induction false} AppendDigits(a: string, b: string)
    requires NoDoubleDash(a) && b != [] && forall i :: 0 <= i < |b| ==> IsDigit(b[i])
    ensures NoDoubleDash(a + b)
  {
    DigitsNoDoubleDash(b);
    NoDoubleDashConcat(a, b);
  }

  lemma {:induction false} AppendAfterDigit(a: string, b: string)
    requires NoDoubleDash(a) && NoDoubleDash(b) && a != [] && IsDigit(a[|a| - 1])
    ensures NoDoubleDash(a + b)
  {
    NoDoubleDashConcat(a, b);
  }

  lemma YearNoDoubleDash(y: int)
    ensures var t := YearText(y); NoDoubleDash(t) && IsDigit(t[|t| - 1])
  {
    var t := YearText(y);
    if y < 0 {
      var ds := Digits(-y);
      DigitsNoDoubleDash(ds);
      NoDoubleDashConcat("-", ds);
      assert t[|t| - 1] == ds[|ds| - 1];
    } else {
      DigitsNoDoubleDash(t);
    }
  }

  lemma DateNoDoubleDash(d: DateTime)
    ensures var t := DateText(d); NoDoubleDash(t) && t != [] && IsDigit(t[|t| - 1])
  {
    var y := YearText(d.year);
    YearNoDoubleDash(d.year);
    NoDoubleDashConcat(y, "-");
    var s := y + "-" + Two(d.monthIndex + 1);
    AppendDigits(y + "-", Two(d.monthIndex + 1));
    AppendAfterDigit(s, "-");
    AppendDigits(s + "-", Two(d.day));
  }

  lemma ClockNoDoubleDash(d: DateTime)
    ensures var t := ClockText(d); NoDoubleDash(t) && t != [] && IsDigit(t[|t| - 1])
  {
    var h := Two(d.hour);
    DigitsNoDoubleDash(h);
    AppendAfterDigit(h, ":");
    var s := h + ":" + Two(d.minute);
    AppendDigits(h + ":", Two(d.minute));
    AppendAfterDigit(s, ":");
    AppendDigits(s + ":", Two(d.second));
  }

  /** A printed timestamp never holds `--`, even for a negative year. */
  lemma FormatUtcNoDoubleDash(d: DateTime)
    ensures NoDoubleDash(FormatUtc(d))
  {
    var a, b := DateText(d), ClockText(d);
    DateNoDoubleDash(d);
    ClockNoDoubleDash(d);
    AppendAfterDigit(a, " ");
    NoDoubleDashConcat(a + " ", b);
    AppendAfterDigit(a + " " + b, " UTC");
  }

  lemma {:induction false} NoDashNoDoubleDash(s: string)
    requires '-' !in s
    ensures NoDoubleDash(s)
    decreases |s|
  {
    if |s| >= 2 {
      assert s[0] != '-';
      assert '-' !in s[1..] by {
        assert forall i :: 0 <= i < |s| - 1 ==> s[1..][i] == s[i + 1];
      }
      NoDashNoDoubleDash(s[1..]);
    }
  }

  /** Lines free of `--` joined by newlines stay free of `--`. */
  lemma {:induction false} JoinNoDoubleDash(xs: seq<string>)
    requires forall i :: 0 <= i < |xs| ==> NoDoubleDash(xs[i])
    ensures NoDoubleDash(Join(xs, "\n"))
    decreases |xs|
  {
    if |xs| > 1 {
      JoinNoDoubleDash(xs[1..]);
      NoDoubleDashConcat(xs[0], "\n");
      NoDoubleDashConcat(xs[0] + "\n", Join(xs[1..], "\n"));
    }
  }

  // ----- the frontmatter ends at the second `---` -----

  /** In a text that opens with `---`, has no `--` after that, and puts a
      newline right before the next `---`, the search for the closing `---`
      stops there. */
  lemma {:induction false} ClosingDashes(f: string, rest: string)
    requires |f| >= 4 && f[..3] == "---" && NoDoubleDash(f[3..]) && f[|f| - 1] == '\n'
    ensures IndexOfFrom(f + "---" + rest, "---", 3) == |f|
  {
    var s := f + "---" + rest;
    assert OccursAt(s, |f|, "---") by {
      assert s[|f|..|f| + 3] == "---";
    }
    var r := IndexOfFrom(s, "---", 3);
    if r != |f| {
      assert 3 <= r < |f|;
      assert s[r..r + 3] == "---";
      assert s[r] == "---"[0] && s[r + 1] == "---"[1];
      if r + 1 < |f| - 1 {
        assert f[3..][r - 3] == s[r] && f[3..][r - 2] == s[r + 1];
        NoDoubleDashAt(f[3..], r - 3);
      }
    }
  }

  // ----- `\n*` and the intro -----

  lemma {:induction false} DropNewlinesConcat(a: string, b: string)
    ensures DropNewlines(a + b) == if DropNewlines(a) == [] then DropNewlines(b) else DropNewlines(a) + b
    decreases |a|
  {
    if a == [] {
      assert a + b == b;
    } else if a[0] == '\n' {
      assert (a + b)[1..] == a[1..] + b;
      DropNewlinesConcat(a[1..], b);
    }
  }

  lemma {:induction false} TrimDropNewlines(s: string)
    ensures Trim(DropNewlines(s)) == Trim(s)
    decreases |s|
  {
    if s != [] && s[0] == '\n' {
      var t := s[1..];
      assert DropNewlines(s) == DropNewlines(t);
      TrimDropNewlines(t);
      TrimConsSpace('\n', t);
      HeadTail(s);
    }
  }

  lemma {:induction false} DropNewlineCons(s: string)
    ensures DropNewlines("\n" + s) == DropNewlines(s)
  {
    assert ("\n" + s)[1..] == s;
  }

  /** What is left once the frontmatter is stripped: the intro without its
      leading newlines and a blank line after it (or nothing, for an intro
      of newlines only), then the marker. */
  lemma AfterFrontmatter(intro: string, marker: string, rest: string) returns (w: string)
    requires marker != [] && marker[0] != '\n'
    ensures DropNewlines("\n" + ("\n" + (intro + ("\n" + ("\n" + (marker + rest)))))) == w + (marker + rest)
    ensures w == [] ==> DropNewlines(intro) == []
    ensures w != [] ==> w == DropNewlines(intro) + "\n" + "\n"
  {
    var m := marker + rest;
    var b := "\n" + ("\n" + m);
    DropNewlineCons("\n" + (intro + b));
    DropNewlineCons(intro + b);
    DropNewlinesConcat(intro, b);
    var di := DropNewlines(intro);
    if di == [] {
      w := [];
      DropNewlineCons("\n" + m);
      DropNewlineCons(m);
      assert m[0] == marker[0];
      assert [] + m == m;
    } else {
      w := di + "\n" + "\n";
      ConcatAssoc(di + "\n", "\n", m);
      ConcatAssoc(di, "\n", "\n" + m);
    }
  }

  /** The first marker after the intro is the one the document writes. */
  lemma {:induction false} FirstMarker(intro: string, w: string, marker: string, rest: string)
    requires marker != [] && '\n' !in marker && Absent(intro, marker)
    requires w == [] || w == DropNewlines(intro) + "\n" + "\n"
    ensures IndexOfFrom(w + (marker + rest), marker, 0) == |w|
  {
    var a := w + (marker + rest);
    OccursAtConcat(w, marker + rest, 0, marker);
    assert OccursAt(marker + rest, 0, marker) by {
      assert (marker + rest)[0..|marker|] == marker;
    }
    var r := IndexOfFrom(a, marker, 0);
    if r != |w| {
      assert 0 <= r < |w| && OccursAt(a, r, marker);
      var di := DropNewlines(intro);
      var m := |di|;
      if r + |marker| <= m {
        ConcatAssoc(di + "\n", "\n", marker + rest);
        ConcatAssoc(di, "\n", "\n" + (marker + rest));
        OccursAtPrefix(di, "\n" + ("\n" + (marker + rest)), r, marker);
        OccursAtSuffix(intro, |intro| - m, r, marker);
      } else {
        var t := if r <= m then m else m + 1;
        assert a[t] == w[t] == '\n';
        OccursAtIndex(a, r, marker, t - r);
      }
    }
  }

  /** The trim of what the search returns is the trim of the intro. */
  lemma {:induction false} TrimBlankLine(intro: string, w: string)
    requires w == [] ==> DropNewlines(intro) == []
    requires w != [] ==> w == DropNewlines(intro) + "\n" + "\n"
    ensures Trim(w) == Trim(intro)
  {
    TrimDropNewlines(intro);
    if w != [] {
      var di := DropNewlines(intro);
      TrimSnocSpace(di, '\n');
      TrimSnocSpace(di + "\n", '\n');
    }
  }

  /** The lines of a document up to the marker, with the joined remainder:
      `lines.join("\n")` unfolds line by line. */
  lemma {:induction false} JoinHead(L: seq<string>)
    requires |L| >= 11
    ensures Join(L, "\n") == Join(L[..5], "\n") + ("\n" + (L[5] + ("\n" + (L[6] + ("\n" + (L[7] + ("\n"
      + (L[8] + ("\n" + (L[9] + ("\n" + Join(L[10..], "\n"))))))))))))
  {
    JoinConcat(L[..5], L[5..], "\n");
    assert L[..5] + L[5..] == L;
    ConcatAssoc(Join(L[..5], "\n"), "\n", Join(L[5..], "\n"));
    JoinStep(L, 5);
    JoinStep(L, 6);
    JoinStep(L, 7);
    JoinStep(L, 8);
    JoinStep(L, 9);
  }

  lemma JoinStep(L: seq<string>, k: nat)
    requires k + 1 < |L|
    ensures Join(L[k..], "\n") == L[k] + ("\n" + Join(L[k + 1..], "\n"))
  {
    JoinAt(L, k, "\n");
    ConcatAssoc(L[k], "\n", Join(L[k + 1..], "\n"));
  }

  /** The frontmatter lines `---`, then four lines free of `--`, joined. */
  lemma FrontmatterText(L: seq<string>) returns (f: string)
    requires |L| >= 5 && L[0] == "---"
    requires NoDoubleDash(L[1]) && NoDoubleDash(L[2]) && NoDoubleDash(L[3]) && NoDoubleDash(L[4])
    ensures f == Join(L[..5], "\n") + "\n"
    ensures |f| >= 4 && f[..3] == "---" && NoDoubleDash(f[3..]) && f[|f| - 1] == '\n'
  {
    var t := L[1..5];
    assert L[..5][1..] == t;
    assert forall i :: 0 <= i < |t| ==> NoDoubleDash(t[i]) by {
      forall i | 0 <= i < |t| ensures NoDoubleDash(t[i]) {
        assert t[i] == L[i + 1];
        assert i == 0 || i == 1 || i == 2 || i == 3;
      }
    }
    JoinNoDoubleDash(t);
    var j := Join(t, "\n");
    f := Join(L[..5], "\n") + "\n";
    assert f == "---" + ("\n" + j + "\n");
    assert f[3..] == "\n" + j + "\n";
    NoDoubleDashConcat("\n", j);
    NoDoubleDashConcat("\n" + j, "\n");
  }

  lemma EmptyLeft(s: string)
    ensures "" + s == s
  {
  }

  /** The joined lines regrouped around the closing `---`. */
  lemma Regroup(j5: string, intro: string, mk: string, j10: string, tr: string)
    ensures (j5 + ("\n" + ("---" + ("\n" + ("" + ("\n" + (intro + ("\n" + ("" + ("\n" + (mk + ("\n" + j10)))))))))))) + tr
      == j5 + "\n" + "---" + ("\n" + ("\n" + (intro + ("\n" + ("\n" + (mk + ("\n" + j10 + tr)))))))
  {
    var m := mk + ("\n" + j10);
    EmptyLeft("\n" + m);
    var t := intro + ("\n" + ("\n" + m));
    EmptyLeft("\n" + t);
    var z := "\n" + ("\n" + t);
    ConcatAssoc(j5, "\n" + ("---" + z), tr);
    ConcatAssoc("\n", "---" + z, tr);
    ConcatAssoc("---", z, tr);
    ConcatAssoc("\n", "\n" + t, tr);
    ConcatAssoc("\n", t, tr);
    ConcatAssoc(intro, "\n" + ("\n" + m), tr);
    ConcatAssoc("\n", "\n" + m, tr);
    ConcatAssoc("\n", m, tr);
    ConcatAssoc(mk, "\n" + j10, tr);
    ConcatAssoc(j5 + "\n", "---", z + tr);
    ConcatAssoc(j5, "\n", "---" + (z + tr));
  }

  /** Stripping the frontmatter of such a document leaves the intro
      (without leading newlines, and followed by a blank line unless it is
      empty), then the marker. */
  lemma StripLayout(L: seq<string>, trailer: string) returns (w: string, rest: string)
    requires |L| >= 11 && L[0] == "---" && L[5] == "---" && L[6] == "" && L[8] == "" && L[9] == ListOpen
    requires NoDoubleDash(L[1]) && NoDoubleDash(L[2]) && NoDoubleDash(L[3]) && NoDoubleDash(L[4])
    ensures StripFrontmatter(Join(L, "\n") + trailer) == w + (ListOpen + rest)
    ensures w == [] ==> DropNewlines(L[7]) == []
    ensures w != [] ==> w == DropNewlines(L[7]) + "\n" + "\n"
  {
    ListOpenShape();
    var intro := L[7];
    var f := FrontmatterText(L);
    JoinHead(L);
    rest := "\n" + Join(L[10..], "\n") + trailer;
    var after := "\n" + ("\n" + (intro + ("\n" + ("\n" + (ListOpen + rest)))));
    var content := Join(L, "\n") + trailer;
    Regroup(Join(L[..5], "\n"), intro, ListOpen, Join(L[10..], "\n"), trailer);
    assert content == f + "---" + after;
    ClosingDashes(f, after);
    assert StartsWith(content, "---") by {
      assert content[..3] == f[..3];
    }
    assert content[|f| + 3..] == after;
    w := AfterFrontmatter(intro, ListOpen, rest);
  }

  /** A document whose lines are the frontmatter (`---`, four lines free of
      `--`, `---`), a blank line, the intro, a blank line and the marker, in
      that order, hands back its intro trimmed, when the intro does not
      itself contain the marker. */
  lemma {:induction false} ExtractIntroOfLayout(L: seq<string>, trailer: string)
    requires |L| >= 11 && L[0] == "---" && L[5] == "---" && L[6] == "" && L[8] == "" && L[9] == ListOpen
    requires NoDoubleDash(L[1]) && NoDoubleDash(L[2]) && NoDoubleDash(L[3]) && NoDoubleDash(L[4])
    requires Absent(L[7], ListOpen)
    ensures ExtractIntro(Join(L, "\n") + trailer) == Trim(L[7])
  {
    ListOpenShape();
    var w, rest := StripLayout(L, trailer);
    var a := w + (ListOpen + rest);
    FirstMarker(L[7], w, ListOpen, rest);
    assert a[..|w|] == w;
    TrimBlankLine(L[7], w);
    ExtractIntroAt(Join(L, "\n") + trailer, a, |w|);
  }

  lemma {:induction false} ExtractIntroAt(content: string, a: string, k: nat)
    requires StripFrontmatter(content) == a && IndexOfFrom(a, ListOpen, 0) == k
    ensures ExtractIntro(content) == Trim(a[..k])
  {
  }

  /** A document without the marker yields the default intro. */
  lemma ExtractIntroDefault(content: string)
    requires Absent(content, ListOpen)
    ensures ExtractIntro(content) == DefaultIntro
  {
    var a := StripFrontmatter(content);
    StripFrontmatterSuffix(content);
    AbsentSuffix(content, |content| - |a|, ListOpen);
    AbsentDefault(content, a);
  }

  lemma AbsentDefault(content: string, a: string)
    requires a == StripFrontmatter(content) && Absent(a, ListOpen)
    ensures ExtractIntro(content) == DefaultIntro
  {
  }

  /** Stripping the frontmatter leaves a suffix of the document. */
  lemma StripFrontmatterSuffix(content: string)
    ensures var a := StripFrontmatter(content);
      |a| <= |content| && a == content[|content| - |a|..]
  {
    if StartsWith(content, "---") {
      var j := IndexOfFrom(content, "---", 3);
      if j >= 0 {
        var r := content[j + 3..];
        assert DropNewlines(r) == r[|r| - |DropNewlines(r)|..];
      }
    }
  }

  /** A pattern absent from a text is absent from each of its suffixes. */
  lemma AbsentSuffix(s: string, k: nat, pat: string)
    requires k <= |s| && Absent(s, pat)
    ensures Absent(s[k..], pat)
  {
    forall i | 0 <= i <= |s| - k
      ensures !OccursAt(s[k..], i, pat)
    {
      OccursAtSuffix(s, k, i, pat);
    }
  }
}
