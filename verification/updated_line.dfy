/** The two regular expressions `updateSkill` (index.ts) applies to the
    `updated:` line of the skill document: `/updated:\s*(.+)/`, whose capture
    is the printed timestamp, and `/^\s*updated:\s*.+$/m`, whose first match
    `stripTimestamp` deletes before two documents are compared. Both are
    written out as searches, with the backtracking the patterns allow. */
module UpdatedLine {
  import opened Wrappers
  import opened Seqs
  import opened Text

  const Key: string := "updated:"

  /** The end of the run of white space starting at `i`: `\s*`, greedy. */
  function SpaceEnd(s: string, i: nat): (k: nat)
    requires i <= |s|
    ensures i <= k <= |s|
    ensures k < |s| ==> !IsSpace(s[k])
    decreases |s| - i
  {
    if i < |s| && IsSpace(s[i]) then SpaceEnd(s, i + 1) else i
  }

  /** The first line terminator at or after `i`, or the end: where a greedy
      `.+` stops. */
  function LineEnd(s: string, i: nat): (e: nat)
    requires i <= |s|
    ensures i <= e <= |s|
    ensures i < |s| && !IsLineTerminator(s[i]) ==> i < e
    decreases |s| - i
  {
    if i < |s| && !IsLineTerminator(s[i]) then LineEnd(s, i + 1) else i
  }

  /** The last position in `[lo, k)` that `.` matches: where `.+` starts
      once `\s*` has given back characters one at a time. */
  function LastDot(s: string, lo: nat, k: nat): (r: Option<nat>)
    requires lo <= k <= |s|
    ensures r.Some? ==> lo <= r.value < k && !IsLineTerminator(s[r.value])
    decreases k - lo
  {
    if k == lo then None
    else if !IsLineTerminator(s[k - 1]) then Some(k - 1)
    else LastDot(s, lo, k - 1)
  }

  /** Where `\s*(.+)` matches from `i`, as the bounds of the capture. The
      greedy `\s*` is tried first; only when it has eaten the rest of the
      text does it give characters back. The capture runs to the end of its
      line, so a following `$` (multiline) always holds. */
  function Tail(s: string, i: nat): (r: Option<(nat, nat)>)
    requires i <= |s|
    ensures r.Some? ==> i <= r.value.0 < r.value.1 <= |s|
  {
    var k := SpaceEnd(s, i);
    if k < |s| then Some((k, LineEnd(s, k)))
    else
      match LastDot(s, i, k)
      case Some(j) => Some((j, LineEnd(s, j)))
      case None => None
  }

  /** Whether `updated:\s*(.+)` matches at `p`. */
  predicate CaptureAt(s: string, key: string, p: nat)
  {
    OccursAt(s, p, key) && Tail(s, p + |key|).Some?
  }

  /** The capture of the leftmost match of `/<key>\s*(.+)/` at or after `p`. */
  function CaptureFrom(s: string, key: string, p: nat): (r: Option<string>)
    requires p <= |s|
    decreases |s| - p
  {
    if CaptureAt(s, key, p) then
      var c := Tail(s, p + |key|).value;
      Some(s[c.0..c.1])
    else if p == |s| then None
    else CaptureFrom(s, key, p + 1)
  }

  /** `existing.match(/updated:\s*(.+)/)?.[1]`: the text after the first
      `updated:` that is followed by something on a line. */
  function ExtractUpdated(s: string): (r: Option<string>)
  {
    CaptureFrom(s, Key, 0)
  }

  /** The multiline `^`: the start of the text or just after a line terminator. */
  predicate LineStart(s: string, p: nat)
    requires p <= |s|
  {
    p == 0 || IsLineTerminator(s[p - 1])
  }

  /** Where `/^\s*<key>\s*.+$/m` ends when it matches at `p`. The leading
      `\s*` may cross blank lines; it cannot give characters back when the
      key starts with a visible character. */
  function LineMatch(s: string, key: string, p: nat): (r: Option<nat>)
    requires p <= |s|
    ensures r.Some? ==> p < r.value <= |s|
  {
    var k := SpaceEnd(s, p);
    if LineStart(s, p) && OccursAt(s, k, key) then
      match Tail(s, k + |key|)
      case Some(c) => Some(c.1)
      case None => None
    else None
  }

  /** The leftmost match at or after `p`, as its start and end. */
  function FirstLineMatch(s: string, key: string, p: nat): (r: Option<(nat, nat)>)
    requires p <= |s|
    ensures r.Some? ==> p <= r.value.0 < r.value.1 <= |s|
    decreases |s| - p
  {
    match LineMatch(s, key, p)
    case Some(e) => Some((p, e))
    case None => if p == |s| then None else FirstLineMatch(s, key, p + 1)
  }

  /** `content.replace(/^\s*updated:\s*.+$/m, "")`: the first match is cut
      out, and a text without one is returned as it is. */
  function StripTimestamp(s: string): (r: string)
    ensures FirstLineMatch(s, Key, 0).None? ==> r == s
    ensures FirstLineMatch(s, Key, 0).Some? ==>
      var (p, e) := FirstLineMatch(s, Key, 0).value;
      |r| == |s| - (e - p) && r[..p] == s[..p] && r[p..] == s[e..]
  {
    match FirstLineMatch(s, Key, 0)
    case Some((p, e)) => s[..p] + s[e..]
    case None => s
  }

  // ----- searches in the second part of a text -----

  /** `b` is what `s` holds from position `n` on. */
  predicate SuffixAt(s: string, n: nat, b: string)
  {
    n + |b| == |s| && forall x :: 0 <= x < |b| ==> s[n + x] == b[x]
  }

  lemma ConcatSuffix(a: string, b: string, n: nat)
    requires n == |a|
    ensures SuffixAt(a + b, n, b)
  {
  }

  /** A span found in the second part of a text, as a span of the whole. */
  function Shift(r: Option<(nat, nat)>, n: nat): Option<(nat, nat)>
  {
    if r.None? then None else Some((n + r.value.0, n + r.value.1))
  }

  /** A position found in the second part of a text, as a position of the whole. */
  function ShiftPos(r: Option<nat>, n: nat): Option<nat>
  {
    if r.None? then None else Some(n + r.value)
  }

  lemma {:induction false} SpaceEndShift(s: string, n: nat, b: string, i: nat)
    requires SuffixAt(s, n, b) && i <= |b|
    ensures SpaceEnd(s, n + i) == n + SpaceEnd(b, i)
    decreases |b| - i
  {
    if i < |b| {
      assert s[n + i] == b[i];
      if IsSpace(b[i]) {
        SpaceEndShift(s, n, b, i + 1);
      }
    }
  }

  lemma {:induction false} LineEndShift(s: string, n: nat, b: string, i: nat)
    requires SuffixAt(s, n, b) && i <= |b|
    ensures LineEnd(s, n + i) == n + LineEnd(b, i)
    decreases |b| - i
  {
    if i < |b| {
      assert s[n + i] == b[i];
      if !IsLineTerminator(b[i]) {
        LineEndShift(s, n, b, i + 1);
      }
    }
  }

  lemma {:induction false} LastDotShift(s: string, n: nat, b: string, lo: nat, k: nat)
    requires SuffixAt(s, n, b) && lo <= k <= |b|
    ensures LastDot(s, n + lo, n + k) == ShiftPos(LastDot(b, lo, k), n)
    decreases k - lo
  {
    if k > lo {
      assert s[n + (k - 1)] == b[k - 1];
      if IsLineTerminator(b[k - 1]) {
        LastDotShift(s, n, b, lo, k - 1);
      }
    }
  }

  lemma TailShift(s: string, n: nat, b: string, i: nat)
    requires SuffixAt(s, n, b) && i <= |b|
    ensures Tail(s, n + i) == Shift(Tail(b, i), n)
  {
    SpaceEndShift(s, n, b, i);
    var k := SpaceEnd(b, i);
    if k < |b| {
      LineEndShift(s, n, b, k);
    } else {
      LastDotShift(s, n, b, i, k);
      if LastDot(b, i, k).Some? {
        LineEndShift(s, n, b, LastDot(b, i, k).value);
      }
    }
  }

  lemma TailShiftSome(s: string, n: nat, b: string, j: nat)
    requires SuffixAt(s, n, b) && j <= |b| && Tail(b, j).Some?
    ensures Tail(s, n + j).Some?
    ensures Tail(s, n + j).value.0 == n + Tail(b, j).value.0
    ensures Tail(s, n + j).value.1 == n + Tail(b, j).value.1
  {
    TailShift(s, n, b, j);
  }

  lemma TailShiftNone(s: string, n: nat, b: string, j: nat)
    requires SuffixAt(s, n, b) && j <= |b| && Tail(b, j).None?
    ensures Tail(s, n + j).None?
  {
    TailShift(s, n, b, j);
  }

  lemma OccursInSuffix(s: string, n: nat, b: string, i: nat, key: string)
    requires SuffixAt(s, n, b) && i <= |b|
    ensures OccursAt(s, n + i, key) == OccursAt(b, i, key)
  {
    if i + |key| <= |b| {
      SliceInSuffix(s, n, b, i, i + |key|);
    }
  }

  /** `CaptureAt`, with the end of the key named. */
  lemma CaptureAtUnfold(s: string, key: string, p: nat, j: nat)
    requires j == p + |key| <= |s|
    ensures CaptureAt(s, key, p) == (OccursAt(s, p, key) && Tail(s, j).Some?)
  {
  }

  /** One step of `CaptureFrom` where the pattern matches, with the end of
      the key named. */
  lemma {:induction false} CaptureFromUnfold(s: string, key: string, p: nat, j: nat)
    requires p <= |s| && j == p + |key| && CaptureAt(s, key, p)
    ensures CaptureFrom(s, key, p) == Some(s[Tail(s, j).value.0..Tail(s, j).value.1])
  {
  }

  lemma CaptureAtShift(s: string, n: nat, b: string, key: string, i: nat)
    requires SuffixAt(s, n, b) && i <= |b|
    ensures CaptureAt(s, key, n + i) == CaptureAt(b, key, i)
  {
    OccursInSuffix(s, n, b, i, key);
    if OccursAt(b, i, key) {
      var j := i + |key|;
      if Tail(b, j).Some? {
        TailShiftSome(s, n, b, j);
      } else {
        TailShiftNone(s, n, b, j);
      }
      CaptureAtUnfold(b, key, i, j);
      CaptureAtUnfold(s, key, n + i, n + j);
    }
  }

  lemma {:induction false} CaptureValueShift(s: string, n: nat, b: string, key: string, i: nat)
    requires SuffixAt(s, n, b) && i <= |b| && CaptureAt(b, key, i)
    ensures CaptureFrom(s, key, n + i) == CaptureFrom(b, key, i)
  {
    CaptureAtShift(s, n, b, key, i);
    var j := i + |key|;
    TailShiftSome(s, n, b, j);
    CaptureFromUnfold(b, key, i, j);
    CaptureFromUnfold(s, key, n + i, n + j);
    SliceInSuffix(s, n, b, Tail(b, j).value.0, Tail(b, j).value.1);
  }

  lemma SliceInSuffix(s: string, n: nat, b: string, x: nat, y: nat)
    requires SuffixAt(s, n, b) && x <= y <= |b|
    ensures s[n + x..n + y] == b[x..y]
  {
    var u := s[n + x..n + y];
    var v := b[x..y];
    forall t | 0 <= t < y - x
      ensures u[t] == v[t]
    {
      assert s[n + (x + t)] == b[x + t];
    }
    assert u == v;
  }

  /** A search that starts inside the second part of a text only sees that part. */
  lemma {:induction false} CaptureShift(s: string, n: nat, b: string, key: string, i: nat)
    requires SuffixAt(s, n, b) && i <= |b|
    ensures CaptureFrom(s, key, n + i) == CaptureFrom(b, key, i)
    decreases |b| - i
  {
    if CaptureAt(b, key, i) {
      CaptureValueShift(s, n, b, key, i);
    } else {
      CaptureAtShift(s, n, b, key, i);
      if i < |b| {
        CaptureShift(s, n, b, key, i + 1);
      }
    }
  }

  lemma LineStartShift(s: string, n: nat, b: string, i: nat)
    requires SuffixAt(s, n, b) && i <= |b|
    requires i > 0 || n == 0 || IsLineTerminator(s[n - 1])
    ensures LineStart(s, n + i) == LineStart(b, i)
  {
    if i > 0 {
      assert s[n + (i - 1)] == b[i - 1];
    }
  }

  lemma LineMatchShift(s: string, n: nat, b: string, key: string, i: nat)
    requires SuffixAt(s, n, b) && i <= |b|
    requires i > 0 || n == 0 || IsLineTerminator(s[n - 1])
    ensures LineMatch(s, key, n + i) == ShiftPos(LineMatch(b, key, i), n)
  {
    SpaceEndShift(s, n, b, i);
    LineStartShift(s, n, b, i);
    var k := SpaceEnd(b, i);
    OccursInSuffix(s, n, b, k, key);
    if LineStart(b, i) && OccursAt(b, k, key) {
      var j := k + |key|;
      UnfoldBoth(s, n, b, key, i, k, j);
      TailShift(s, n, b, j);
      MatchedLineShift(s, n, b, key, i, j);
    }
  }

  /** `LineMatch` at the same line start, in the part and in the whole. */
  lemma UnfoldBoth(s: string, n: nat, b: string, key: string, i: nat, k: nat, j: nat)
    requires i <= |b| && k == SpaceEnd(b, i) && LineStart(b, i) && OccursAt(b, k, key) && j == k + |key|
    requires n + i <= |s| && n + k == SpaceEnd(s, n + i) && LineStart(s, n + i) && OccursAt(s, n + k, key)
    ensures LineMatch(b, key, i) == End(Tail(b, j))
    ensures LineMatch(s, key, n + i) == End(Tail(s, n + j))
  {
    LineMatchUnfold(b, key, i, k, j);
    LineMatchUnfold(s, key, n + i, n + k, n + j);
  }

  lemma MatchedLineShift(s: string, n: nat, b: string, key: string, i: nat, j: nat)
    requires i <= |b| && j <= |b| && n + i <= |s| && n + j <= |s|
    requires LineMatch(b, key, i) == End(Tail(b, j))
    requires LineMatch(s, key, n + i) == End(Tail(s, n + j))
    requires Tail(s, n + j) == Shift(Tail(b, j), n)
    ensures LineMatch(s, key, n + i) == ShiftPos(LineMatch(b, key, i), n)
  {
    EndShift(Tail(b, j), n);
  }

  /** Where a capture ends, if there is one. */
  function End(t: Option<(nat, nat)>): Option<nat>
  {
    if t.Some? then Some(t.value.1) else None
  }

  /** A capture moved by `n` ends `n` later. */
  lemma EndShift(t: Option<(nat, nat)>, n: nat)
    ensures End(Shift(t, n)) == ShiftPos(End(t), n)
  {
  }

  /** One step of `LineMatch` where the key follows the indentation, with
      the end of the key named. */
  lemma {:induction false} LineMatchUnfold(s: string, key: string, p: nat, k: nat, j: nat)
    requires p <= |s| && k == SpaceEnd(s, p) && LineStart(s, p) && OccursAt(s, k, key) && j == k + |key|
    ensures LineMatch(s, key, p) == End(Tail(s, j))
  {
  }

  lemma {:induction false} FirstLineMatchShift(s: string, n: nat, b: string, key: string, i: nat)
    requires SuffixAt(s, n, b) && i <= |b|
    requires i > 0 || n == 0 || IsLineTerminator(s[n - 1])
    ensures FirstLineMatch(s, key, n + i) == Shift(FirstLineMatch(b, key, i), n)
    decreases |b| - i
  {
    LineMatchShift(s, n, b, key, i);
    if LineMatch(b, key, i).Some? {
      FirstLineMatchShiftHere(s, n, b, key, i);
    } else if i < |b| {
      FirstLineMatchShift(s, n, b, key, i + 1);
      FirstLineMatchShiftLater(s, n, b, key, i);
    }
  }

  /** The shifted search where the part matches at `i`. */
  lemma FirstLineMatchShiftHere(s: string, n: nat, b: string, key: string, i: nat)
    requires i <= |b| && n + i <= |s| && LineMatch(b, key, i).Some?
    requires LineMatch(s, key, n + i) == ShiftPos(LineMatch(b, key, i), n)
    ensures FirstLineMatch(s, key, n + i) == Shift(FirstLineMatch(b, key, i), n)
  {
    FirstLineMatchHere(s, key, n + i);
    FirstLineMatchHere(b, key, i);
    SamePair(FirstLineMatch(s, key, n + i), Shift(FirstLineMatch(b, key, i), n));
  }

  /** The shifted search where the part does not match at `i`. */
  lemma FirstLineMatchShiftLater(s: string, n: nat, b: string, key: string, i: nat)
    requires i < |b| && n + i < |s| && LineMatch(b, key, i).None?
    requires LineMatch(s, key, n + i) == ShiftPos(LineMatch(b, key, i), n)
    requires FirstLineMatch(s, key, n + (i + 1)) == Shift(FirstLineMatch(b, key, i + 1), n)
    ensures FirstLineMatch(s, key, n + i) == Shift(FirstLineMatch(b, key, i), n)
  {
    FirstLineMatchLater(s, key, n + i, n + (i + 1));
    FirstLineMatchLater(b, key, i, i + 1);
  }

  /** A match at `p` is the first one from `p`. */
  lemma {:induction false} FirstLineMatchHere(s: string, key: string, p: nat)
    requires p <= |s| && LineMatch(s, key, p).Some?
    ensures FirstLineMatch(s, key, p).Some?
    ensures FirstLineMatch(s, key, p).value.0 == p
    ensures FirstLineMatch(s, key, p).value.1 == LineMatch(s, key, p).value
  {
  }

  /** Without a match at `p`, the search moves on to `q`, the next position. */
  lemma {:induction false} FirstLineMatchLater(s: string, key: string, p: nat, q: nat)
    requires p < |s| && q == p + 1 && LineMatch(s, key, p).None?
    ensures FirstLineMatch(s, key, p) == FirstLineMatch(s, key, q)
  {
  }

  lemma SamePair(x: Option<(nat, nat)>, y: Option<(nat, nat)>)
    requires x.Some? == y.Some?
    requires x.Some? ==> x.value.0 == y.value.0 && x.value.1 == y.value.1
    ensures x == y
  {
  }

  // ----- skipping lines that cannot match -----

  predicate NoBreak(s: string)
  {
    forall t :: 0 <= t < |s| ==> !IsLineTerminator(s[t])
  }

  lemma NoBreakConcat(a: string, b: string)
    requires NoBreak(a) && NoBreak(b)
    ensures NoBreak(a + b)
  {
    assert forall t :: |a| <= t < |a + b| ==> (a + b)[t] == b[t - |a|];
  }

  /** A line no `^\s*<key>` match can start in: it is one line and starts
      with a visible character other than the key's first. */
  predicate Quiet(l: string, key: string)
  {
    l != [] && key != [] && !IsSpace(l[0]) && l[0] != key[0] && NoBreak(l)
  }

  /** A line in which the key does not occur. */
  predicate NoKey(l: string, key: string)
  {
    forall p :: 0 <= p <= |l| ==> !OccursAt(l, p, key)
  }

  /** A line whose only colon sits too early, or not after `updated`, holds
      no `updated:`. */
  lemma NoKeyByColon(l: string, c: nat)
    requires forall t :: 0 <= t < |l| && t != c ==> l[t] != ':'
    requires c < 7 || c >= |l| || l[c - 7] != 'u'
    ensures NoKey(l, Key)
  {
    forall p | 0 <= p <= |l| && OccursAt(l, p, Key)
      ensures false
    {
      OccursAtIndex(l, p, Key, 7);
      OccursAtIndex(l, p, Key, 0);
    }
  }

  lemma {:induction false} QuietPrefix(l: string, b: string, key: string, p: nat)
    requires Quiet(l, key) && p <= |l|
    ensures FirstLineMatch(l + "\n" + b, key, p) == FirstLineMatch(l + "\n" + b, key, |l| + 1)
    decreases |l| - p
  {
    var s := l + "\n" + b;
    if p == 0 {
      assert s[0] == l[0];
    } else {
      assert s[p - 1] == l[p - 1];
    }
    if p < |l| {
      QuietPrefix(l, b, key, p + 1);
    }
  }

  /** Nothing in a quiet line starts a match: the search resumes on the next line. */
  lemma {:induction false} SkipQuietLine(l: string, b: string, key: string)
    requires Quiet(l, key)
    ensures FirstLineMatch(l + "\n" + b, key, 0) == Shift(FirstLineMatch(b, key, 0), |l| + 1)
  {
    QuietPrefix(l, b, key, 0);
    NextLineMatch(l, b, key);
  }

  /** A search that starts on the line after `l` sees only what follows. */
  lemma {:induction false} NextLineMatch(l: string, b: string, key: string)
    ensures FirstLineMatch(l + "\n" + b, key, |l| + 1) == Shift(FirstLineMatch(b, key, 0), |l| + 1)
  {
    var s := l + "\n" + b;
    var n := |l| + 1;
    ConcatSuffix(l + "\n", b, n);
    assert s[n - 1] == '\n';
    FirstLineMatchShift(s, n, b, key, 0);
  }

  lemma {:induction false} NoKeyPrefix(l: string, b: string, key: string, p: nat)
    requires NoKey(l, key) && '\n' !in key && p <= |l|
    ensures CaptureFrom(l + "\n" + b, key, p) == CaptureFrom(l + "\n" + b, key, |l| + 1)
    decreases |l| - p
  {
    var s := l + "\n" + b;
    if OccursAt(s, p, key) {
      if p + |key| <= |l| {
        assert s == l + ("\n" + b);
        OccursAtPrefix(l, "\n" + b, p, key);
      } else {
        OccursAtIndex(s, p, key, |l| - p);
      }
    }
    if p < |l| {
      NoKeyPrefix(l, b, key, p + 1);
    }
  }

  /** A line without the key cannot hold the capture either. */
  lemma {:induction false} SkipNoKeyLine(l: string, b: string, key: string)
    requires NoKey(l, key) && '\n' !in key
    ensures CaptureFrom(l + "\n" + b, key, 0) == CaptureFrom(b, key, 0)
  {
    NoKeyPrefix(l, b, key, 0);
    ConcatSuffix(l + "\n", b, |l| + 1);
    CaptureShift(l + "\n" + b, |l| + 1, b, key, 0);
  }

  // ----- what the searches find -----

  /** `\s*` covers only white space. */
  lemma {:induction false} SpaceEndSpec(s: string, i: nat)
    requires i <= |s|
    ensures forall t :: i <= t < SpaceEnd(s, i) ==> IsSpace(s[t])
    decreases |s| - i
  {
    if i < |s| && IsSpace(s[i]) {
      SpaceEndSpec(s, i + 1);
    }
  }

  /** `.+` stops at the first line terminator. */
  lemma {:induction false} LineEndSpec(s: string, i: nat)
    requires i <= |s|
    ensures forall t :: i <= t < LineEnd(s, i) ==> !IsLineTerminator(s[t])
    ensures LineEnd(s, i) < |s| ==> IsLineTerminator(s[LineEnd(s, i)])
    decreases |s| - i
  {
    if i < |s| && !IsLineTerminator(s[i]) {
      LineEndSpec(s, i + 1);
    }
  }

  /** A run free of line terminators that ends at one (or at the end) is
      where `.+` stops. */
  lemma {:induction false} LineEndAt(s: string, i: nat, j: nat)
    requires i <= j <= |s|
    requires forall t :: i <= t < j ==> !IsLineTerminator(s[t])
    requires j == |s| || IsLineTerminator(s[j])
    ensures LineEnd(s, i) == j
    decreases j - i
  {
    if i < j {
      LineEndAt(s, i + 1, j);
    }
  }

  lemma {:induction false} LastDotSpec(s: string, lo: nat, k: nat)
    requires lo <= k <= |s|
    ensures LastDot(s, lo, k).Some? ==> forall t :: LastDot(s, lo, k).value < t < k ==> IsLineTerminator(s[t])
    ensures LastDot(s, lo, k).None? ==> forall t :: lo <= t < k ==> IsLineTerminator(s[t])
    decreases k - lo
  {
    if k > lo && IsLineTerminator(s[k - 1]) {
      LastDotSpec(s, lo, k - 1);
    }
  }

  /** `\s*(.+)` matches unless only line terminators are left; its capture
      follows white space, holds one line's characters and runs to the end
      of that line. */
  lemma TailSpec(s: string, i: nat)
    requires i <= |s|
    ensures var r := Tail(s, i);
      && (r.None? <==> forall t :: i <= t < |s| ==> IsLineTerminator(s[t]))
      && (r.Some? ==>
        && (forall t :: i <= t < r.value.0 ==> IsSpace(s[t]))
        && (forall t :: r.value.0 <= t < r.value.1 ==> !IsLineTerminator(s[t]))
        && (r.value.1 == |s| || IsLineTerminator(s[r.value.1])))
  {
    var k := SpaceEnd(s, i);
    SpaceEndSpec(s, i);
    if k < |s| {
      LineEndSpec(s, k);
    } else {
      LastDotSpec(s, i, k);
      if LastDot(s, i, k).Some? {
        LineEndSpec(s, LastDot(s, i, k).value);
      }
    }
  }

  /** The pattern matches at no position in `[p, q)`. */
  predicate NoCaptureIn(s: string, key: string, p: nat, q: nat)
  {
    forall q' :: p <= q' < q ==> !CaptureAt(s, key, q')
  }

  /** The pattern matches at `q` and its capture there is `v`. */
  predicate CapturedAt(s: string, key: string, q: nat, v: string)
  {
    && CaptureAt(s, key, q)
    && v == s[Tail(s, q + |key|).value.0..Tail(s, q + |key|).value.1]
  }

  lemma NoCaptureCons(s: string, key: string, p: nat, q: nat)
    requires p < q
    ensures NoCaptureIn(s, key, p, q) <==> !CaptureAt(s, key, p) && NoCaptureIn(s, key, p + 1, q)
  {
  }

  /** The case where the pattern matches right at `p`. */
  lemma {:induction false} CaptureFromHere(s: string, key: string, p: nat)
    requires p <= |s| && CaptureAt(s, key, p)
    ensures CaptureFrom(s, key, p).Some?
    ensures CapturedAt(s, key, p, CaptureFrom(s, key, p).value)
    ensures !NoCaptureIn(s, key, p, |s| + 1)
  {
  }

  /** The case where it does not match at `p` and `p` is the end. */
  lemma {:induction false} CaptureFromEnd(s: string, key: string, p: nat)
    requires p == |s| && !CaptureAt(s, key, p)
    ensures CaptureFrom(s, key, p).None?
    ensures NoCaptureIn(s, key, p, |s| + 1)
  {
  }

  /** The capture comes from the leftmost position where the pattern
      matches, and there is none exactly when it matches nowhere. */
  lemma {:induction false} CaptureFromSpec(s: string, key: string, p: nat) returns (q: nat)
    requires p <= |s|
    ensures CaptureFrom(s, key, p).None? <==> NoCaptureIn(s, key, p, |s| + 1)
    ensures CaptureFrom(s, key, p).Some? ==>
      && p <= q <= |s| && NoCaptureIn(s, key, p, q)
      && CapturedAt(s, key, q, CaptureFrom(s, key, p).value)
    decreases |s| - p
  {
    q := p;
    if CaptureAt(s, key, p) {
      CaptureFromHere(s, key, p);
    } else if p == |s| {
      CaptureFromEnd(s, key, p);
    } else {
      q := CaptureFromSpec(s, key, p + 1);
      assert CaptureFrom(s, key, p) == CaptureFrom(s, key, p + 1);
      NoCaptureCons(s, key, p, |s| + 1);
      if CaptureFrom(s, key, p).Some? {
        NoCaptureCons(s, key, p, q);
      }
    }
  }

  /** The match `stripTimestamp` cuts is the leftmost one. */
  lemma {:induction false} FirstLineMatchSpec(s: string, key: string, p: nat)
    requires p <= |s|
    ensures var r := FirstLineMatch(s, key, p);
      && (r.None? ==> forall q :: p <= q <= |s| ==> LineMatch(s, key, q).None?)
      && (r.Some? ==> LineMatch(s, key, r.value.0) == Some(r.value.1)
                      && forall q :: p <= q < r.value.0 ==> LineMatch(s, key, q).None?)
    decreases |s| - p
  {
    if LineMatch(s, key, p).None? && p < |s| {
      FirstLineMatchSpec(s, key, p + 1);
    }
  }

  // ----- a text laid out in lines -----

  /** Lines, each followed by a line feed. */
  function Lines(ls: seq<string>): string
    decreases |ls|
  {
    if ls == [] then "" else ls[0] + "\n" + Lines(ls[1..])
  }

  /** Joined lines, split after the first `k`. */
  lemma {:induction false} JoinAfterLines(L: seq<string>, k: nat)
    requires k < |L|
    ensures Join(L, "\n") == Lines(L[..k]) + Join(L[k..], "\n")
    decreases k
  {
    if k == 0 {
      assert L[..0] == [] && L[0..] == L;
      assert Lines([]) + Join(L, "\n") == Join(L, "\n");
    } else {
      JoinAfterLines(L[1..], k - 1);
      assert L[1..][..k - 1] == L[..k][1..];
      assert L[1..][k - 1..] == L[k..];
      ConcatAssoc(L[0] + "\n", Lines(L[..k][1..]), Join(L[k..], "\n"));
    }
  }

  /** Quiet lines before the rest of a text only move its first match. */
  lemma {:induction false} SkipQuietLines(ls: seq<string>, b: string, key: string)
    requires forall i :: 0 <= i < |ls| ==> Quiet(ls[i], key)
    ensures FirstLineMatch(Lines(ls) + b, key, 0) == Shift(FirstLineMatch(b, key, 0), |Lines(ls)|)
    decreases |ls|
  {
    if ls != [] {
      SkipQuietLines(ls[1..], b, key);
      SkipQuietLine(ls[0], Lines(ls[1..]) + b, key);
      ConcatAssoc(ls[0], "\n", Lines(ls[1..]) + b);
      SkipQuietStep(ls[0] + "\n", Lines(ls[1..]), b, key, Lines(ls));
    } else {
      assert Lines(ls) + b == b;
    }
  }

  /** One more quiet line in front: the shifts add up. */
  lemma SkipQuietStep(u: string, rest: string, b: string, key: string, t: string)
    requires t == u + rest
    requires FirstLineMatch(u + (rest + b), key, 0) == Shift(FirstLineMatch(rest + b, key, 0), |u|)
    requires FirstLineMatch(rest + b, key, 0) == Shift(FirstLineMatch(b, key, 0), |rest|)
    ensures FirstLineMatch(t + b, key, 0) == Shift(FirstLineMatch(b, key, 0), |t|)
  {
    ConcatAssoc(u, rest, b);
    ShiftTwice(FirstLineMatch(b, key, 0), |rest|, |u|);
  }

  lemma ShiftTwice(r: Option<(nat, nat)>, m: nat, n: nat)
    ensures Shift(Shift(r, m), n) == Shift(r, n + m)
  {
  }

  /** Lines without the key before the rest of a text do not change its capture. */
  lemma {:induction false} SkipNoKeyLines(ls: seq<string>, b: string, key: string)
    requires forall i :: 0 <= i < |ls| ==> NoKey(ls[i], key)
    requires '\n' !in key
    ensures CaptureFrom(Lines(ls) + b, key, 0) == CaptureFrom(b, key, 0)
    decreases |ls|
  {
    if ls != [] {
      SkipNoKeyLines(ls[1..], b, key);
      ConcatAssoc(ls[0] + "\n", Lines(ls[1..]), b);
      SkipNoKeyLine(ls[0], Lines(ls[1..]) + b, key);
    } else {
      assert Lines(ls) + b == b;
    }
  }

  /** The start of a line `  <key>...`: the indentation is skipped and the
      key found after it, and nowhere earlier. */
  lemma {:induction false} KeyLineStart(key: string, s: string)
    requires key != [] && !IsSpace(key[0])
    requires |key| + 2 <= |s| && s[..|key| + 2] == "  " + key
    ensures SpaceEnd(s, 0) == 2 && OccursAt(s, 2, key) && !OccursAt(s, 1, key)
  {
    var w := "  " + key;
    assert s[0] == w[0] && s[1] == w[1] && s[2] == w[2];
    assert SpaceEnd(s, 2) == 2;
    assert SpaceEnd(s, 1) == 2;
    assert s[2..2 + |key|] == w[2..];
  }

  /** After `w`, one space and a one-line value ended by a line break:
      `\s*(.+)` captures exactly the value. */
  lemma ValueTail(w: string, v: string, t: string)
    requires v != [] && !IsSpace(v[0]) && NoBreak(v)
    requires t != [] && IsLineTerminator(t[0])
    ensures var s := w + " " + v + t; var n := |w| + 1;
      && Tail(s, |w|) == Some((n, n + |v|)) && s[n..n + |v|] == v && s[..|w|] == w
  {
    var s := w + " " + v + t;
    var n := |w| + 1;
    assert s[n - 1] == ' ' && s[n] == v[0];
    assert SpaceEnd(s, n) == n;
    assert SpaceEnd(s, n - 1) == n;
    LineEndAt(s, n, n + |v|) by {
      assert forall k :: n <= k < n + |v| ==> s[k] == v[k - n];
      assert s[n + |v|] == t[0];
    }
    assert s[n..n + |v|] == v;
    assert s[..|w|] == w;
  }

  /** The line `  <key> <value>`, followed by a line break: the first
      `^\s*<key>\s*.+$` match is that line. */
  lemma {:induction false} KeyLineMatch(key: string, v: string, t: string)
    requires key != [] && !IsSpace(key[0])
    requires v != [] && !IsSpace(v[0]) && NoBreak(v)
    requires t != [] && IsLineTerminator(t[0])
    ensures FirstLineMatch("  " + key + " " + v + t, key, 0) == Some((0, |"  " + key| + 1 + |v|))
  {
    var w := "  " + key;
    var s := w + " " + v + t;
    ValueTail(w, v, t);
    KeyLineStart(key, s);
    MatchAtStart(s, key, 2, |w|, |w| + 1 + |v|);
  }

  /** A match at the very start is the first one. */
  lemma {:induction false} MatchAtStart(s: string, key: string, k: nat, j: nat, e: nat)
    requires k == SpaceEnd(s, 0) && OccursAt(s, k, key)
    requires j == k + |key| <= |s| && Tail(s, j).Some? && Tail(s, j).value.1 == e
    ensures FirstLineMatch(s, key, 0) == Some((0, e))
  {
    LineMatchUnfold(s, key, 0, k, j);
  }


  /** ... and the capture of `<key>\s*(.+)` is the value. */
  lemma {:induction false} KeyLineCapture(key: string, v: string, t: string)
    requires key != [] && !IsSpace(key[0])
    requires v != [] && !IsSpace(v[0]) && NoBreak(v)
    requires t != [] && IsLineTerminator(t[0])
    ensures CaptureFrom("  " + key + " " + v + t, key, 0) == Some(v)
  {
    var s := "  " + key + " " + v + t;
    ValueTail("  " + key, v, t);
    KeyLineStart(key, s);
    assert CaptureAt(s, key, 2);
    assert CaptureFrom(s, key, 2) == Some(v);
    assert CaptureFrom(s, key, 1) == Some(v);
  }

}
