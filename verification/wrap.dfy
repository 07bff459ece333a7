/** `wrapList` (index.ts): the items of a section joined with ", " into
    lines of at most `maxLen` UTF-16 code units, breaking only between items;
    an item longer than that sits on a line of its own. */
module Wrap {
  import opened Seqs
  import opened Text

  /** The width the renderer wraps at. */
  const MaxLen: nat := 100

  /** The loop variables: the finished lines and the line being filled. */
  datatype WrapState = WrapState(lines: seq<string>, line: string)

  /** The loop body for one item: an empty line takes the item, otherwise the
      item is appended after ", " when the result fits, and starts a new line
      when it does not. */
  function WrapStep(st: WrapState, item: string, maxLen: nat): WrapState
  {
    if st.line == "" then st.(line := item)
    else if JsLength(st.line + ", " + item) <= maxLen then st.(line := st.line + ", " + item)
    else WrapState(st.lines + [st.line], item)
  }

  /** The loop variables after the given items. */
  function WrapRun(items: seq<string>, maxLen: nat): WrapState
    decreases |items|
  {
    if items == [] then WrapState([], "")
    else WrapStep(WrapRun(items[..|items| - 1], maxLen), items[|items| - 1], maxLen)
  }

  predicate NoEmptyItem(items: seq<string>)
  {
    forall i :: 0 <= i < |items| ==> items[i] != ""
  }

  /** The lines of `wrapList(items, maxLen)` before they are joined with
      newlines: the finished lines and, when it is not empty, the last one. */
  function WrapLines(items: seq<string>, maxLen: nat): (r: seq<string>)
    ensures forall i :: 0 <= i < |r| ==> r[i] != ""
  {
    var st := WrapRun(items, maxLen);
    RunLinesNonEmpty(items, maxLen);
    if st.line == "" then st.lines else st.lines + [st.line]
  }

  /** `wrapList(items, maxLen)`. */
  function WrapList(items: seq<string>, maxLen: nat): string
  {
    Join(WrapLines(items, maxLen), "\n")
  }

  lemma {:induction false} RunLinesNonEmpty(items: seq<string>, maxLen: nat)
    ensures forall i :: 0 <= i < |WrapRun(items, maxLen).lines| ==> WrapRun(items, maxLen).lines[i] != ""
    decreases |items|
  {
    if items != [] {
      RunLinesNonEmpty(items[..|items| - 1], maxLen);
    }
  }

  /** With non-empty items the line being filled is empty only before the
      first item. */
  lemma {:induction false} RunLineEmpty(items: seq<string>, maxLen: nat)
    requires NoEmptyItem(items)
    ensures WrapRun(items, maxLen).line == "" <==> items == []
    decreases |items|
  {
    if items != [] {
      var p := items[..|items| - 1];
      RunLineEmpty(p, maxLen);
      if WrapRun(p, maxLen).line != "" {
        assert (WrapRun(p, maxLen).line + ", " + items[|items| - 1])[0] == WrapRun(p, maxLen).line[0];
      }
    }
  }

  /** The lines so far, joined with ", ", give back the items so far. */
  lemma {:induction false} RunRejoin(items: seq<string>, maxLen: nat)
    requires NoEmptyItem(items) && items != []
    ensures var st := WrapRun(items, maxLen);
      Join(st.lines + [st.line], ", ") == Join(items, ", ")
    decreases |items|
  {
    var p, item := items[..|items| - 1], items[|items| - 1];
    assert items == p + [item];
    JoinSnoc(p, item, ", ");
    if p != [] {
      var st := WrapRun(p, maxLen);
      RunRejoin(p, maxLen);
      RunLineEmpty(p, maxLen);
      if JsLength(st.line + ", " + item) <= maxLen {
        JoinSnoc(st.lines, st.line + ", " + item, ", ");
        JoinSnoc(st.lines, st.line, ", ");
      } else {
        JoinSnoc(st.lines + [st.line], item, ", ");
      }
    }
  }

  /** Every line is within the width or is a single item. */
  lemma {:induction false} RunLinesFit(items: seq<string>, maxLen: nat)
    ensures var st := WrapRun(items, maxLen);
      && (forall l :: l in st.lines ==> JsLength(l) <= maxLen || l in items)
      && (JsLength(st.line) <= maxLen || st.line in items)
    decreases |items|
  {
    if items != [] {
      var p, item := items[..|items| - 1], items[|items| - 1];
      assert items == p + [item];
      RunLinesFit(p, maxLen);
    }
  }

  /** An item longer than the width ends up as a line of its own. */
  lemma {:induction false} RunLongItems(items: seq<string>, maxLen: nat)
    ensures var st := WrapRun(items, maxLen);
      forall x :: x in items && JsLength(x) > maxLen ==> x in st.lines || x == st.line
    decreases |items|
  {
    if items != [] {
      var p, item := items[..|items| - 1], items[|items| - 1];
      assert items == p + [item];
      RunLongItems(p, maxLen);
      var st := WrapRun(p, maxLen);
      JsLengthConcat(st.line + ", ", item);
      JsLengthConcat(st.line, ", ");
    }
  }

  /** Re-joining the lines with ", " gives the items joined with ", ": no item
      is split, lost or reordered. */
  lemma {:induction false} WrapRejoin(items: seq<string>, maxLen: nat)
    requires NoEmptyItem(items)
    ensures Join(WrapLines(items, maxLen), ", ") == Join(items, ", ")
  {
    if items != [] {
      RunRejoin(items, maxLen);
      RunLineEmpty(items, maxLen);
    }
  }

  /** A line longer than the width is a single item. */
  lemma WrapLinesFit(items: seq<string>, maxLen: nat)
    ensures forall l :: l in WrapLines(items, maxLen) ==> JsLength(l) <= maxLen || l in items
  {
    RunLinesFit(items, maxLen);
  }

  /** An over-long item is a line by itself. */
  lemma {:induction false} WrapLongItemAlone(items: seq<string>, maxLen: nat, x: string)
    requires x in items && JsLength(x) > maxLen
    ensures x in WrapLines(items, maxLen)
  {
    RunLongItems(items, maxLen);
  }

  /** Items whose joined text fits make a single line: no break is made
      without need. */
  lemma {:induction false} WrapFits(items: seq<string>, maxLen: nat)
    requires NoEmptyItem(items) && items != []
    requires JsLength(Join(items, ", ")) <= maxLen
    ensures WrapLines(items, maxLen) == [Join(items, ", ")]
  {
    RunFits(items, maxLen);
  }

  lemma {:induction false} RunFits(items: seq<string>, maxLen: nat)
    requires NoEmptyItem(items) && items != []
    requires JsLength(Join(items, ", ")) <= maxLen
    ensures WrapRun(items, maxLen) == WrapState([], Join(items, ", "))
    decreases |items|
  {
    var p, item := items[..|items| - 1], items[|items| - 1];
    assert items == p + [item];
    JoinSnoc(p, item, ", ");
    if p != [] {
      JsLengthConcat(Join(p, ", ") + ", ", item);
      JsLengthConcat(Join(p, ", "), ", ");
      RunFits(p, maxLen);
    }
  }
}
