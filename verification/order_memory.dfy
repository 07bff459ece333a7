/** `parseExistingOrders` (index.ts): reads an existing skill document back
    into the group order, group labels and per-group item order that the
    next rendering should keep. It folds over the lines with a "current
    group" cursor. */
module OrderMemory {
  import opened Wrappers
  import opened Seqs
  import opened Text

  /** The pseudo-group the `CORE ` section is remembered under. */
  const CoreKey: string := "__core__"

  datatype Orders = Orders(
    groupOrder: seq<string>,
    groupLabels: map<string, string>,
    itemOrder: map<string, seq<string>>)

  /** `record[key] ?? []` on the item-order record. */
  function ItemsOf(m: map<string, seq<string>>, key: string): seq<string>
  {
    if key in m then m[key] else []
  }

  /** The remembered orders are duplicate-free. */
  ghost predicate WellFormed(o: Orders)
  {
    NoDup(o.groupOrder) && forall g :: g in o.itemOrder ==> NoDup(o.itemOrder[g])
  }

  /** `content.split(/\r?\n/)`: the pieces between line feeds, where a
      carriage return right before a line feed belongs to the separator. */
  function SplitLines(s: string): (r: seq<string>)
    ensures |r| == |Split(s, '\n')|
  {
    var p := Split(s, '\n');
    Map(DropCR, p[..|p| - 1]) + [p[|p| - 1]]
  }

  function DropCR(x: string): string
  {
    if x != [] && x[|x| - 1] == '\r' then x[..|x| - 1] else x
  }

  /** Once every line is trimmed, the carriage returns `split(/\r?\n/)`
      removes make no difference. */
  lemma {:induction false} TrimmedSplitLines(s: string)
    ensures Map(Trim, SplitLines(s)) == Map(Trim, Split(s, '\n'))
  {
    var p := Split(s, '\n');
    var init := p[..|p| - 1];
    assert p == init + [p[|p| - 1]];
    MapConcat(Trim, Map(DropCR, init), [p[|p| - 1]]);
    MapConcat(Trim, init, [p[|p| - 1]]);
    TrimDropCR(init);
  }

  lemma {:induction false} TrimDropCR(xs: seq<string>)
    ensures Map(Trim, Map(DropCR, xs)) == Map(Trim, xs)
    decreases |xs|
  {
    if xs != [] {
      TrimDropCR(xs[1..]);
      var x := xs[0];
      if x != [] && x[|x| - 1] == '\r' {
        assert x == x[..|x| - 1] + ['\r'];
        TrimSnocSpace(x[..|x| - 1], '\r');
      }
    }
  }

  /** The characters of a heading label: `[A-Z0-9 ]`. */
  predicate IsLabelChar(c: char)
  {
    ('A' <= c <= 'Z') || ('0' <= c <= '9') || c == ' '
  }

  predicate IsLabel(s: string)
  {
    s != [] && forall i :: 0 <= i < |s| ==> IsLabelChar(s[i])
  }

  /** The two captures of `/^([A-Z0-9 ]+) \/([^/]+)\/$/`. A label has no
      slash, so the ` /` after it is the first slash of the line and the
      split is unique. */
  function HeadingParts(t: string): (r: Option<(string, string)>)
    ensures r.Some? ==>
      && t == r.value.0 + " /" + r.value.1 + "/"
      && IsLabel(r.value.0) && r.value.1 != [] && '/' !in r.value.1
  {
    var i := IndexOf(t, '/');
    if 2 <= i && t[i - 1] == ' ' && i + 3 <= |t| && t[|t| - 1] == '/'
      && '/' !in t[i + 1..|t| - 1] && IsLabel(t[..i - 1])
    then
      var a, b := t[..i - 1], t[i + 1..|t| - 1];
      assert t == a + " /" + b + "/";
      Some((a, b))
    else None
  }

  /** The recogniser accepts every line of the heading shape, with those
      captures: together with the postcondition of `HeadingParts` this is
      an exact description of the pattern. */
  lemma HeadingPartsComplete(a: string, b: string)
    requires IsLabel(a) && b != [] && '/' !in b
    ensures HeadingParts(a + " /" + b + "/") == Some((a, b))
  {
    var t := a + " /" + b + "/";
    var i := |a| + 1;
    LabelHasNoSlash(a);
    IndexOfConcat(a + " ", '/', b + "/");
    assert t == (a + " ") + ['/'] + (b + "/");
    assert IndexOf(t, '/') == i;
    assert t[i - 1] == ' ' && t[|t| - 1] == '/';
    assert t[..i - 1] == a;
    assert t[i + 1..|t| - 1] == b;
  }

  lemma LabelHasNoSlash(a: string)
    requires IsLabel(a)
    ensures '/' !in a + " "
  {
    assert forall k :: 0 <= k < |a| ==> a[k] != '/';
  }

  datatype ParseState = ParseState(orders: Orders, current: Option<string>)

  const Initial: ParseState := ParseState(Orders([], map[], map[]), None)

  /** What a trimmed line is to the parser. */
  datatype LineKind = Blank | CoreLine | HeadingLine(title: string, segment: string) | ItemLine

  function Kind(t: string): LineKind
  {
    if t == "" then Blank
    else if StartsWith(t, "CORE ") then CoreLine
    else match HeadingParts(t)
      case Some((a, b)) => HeadingLine(Trim(a), Trim(b))
      case None => ItemLine
  }

  /** `addItems(group, line)`: makes sure the group has an entry and pushes
      the line's new items onto it. */
  function AddItems(o: Orders, group: string, line: string): (r: Orders)
    ensures r.groupOrder == o.groupOrder && r.groupLabels == o.groupLabels
    ensures group in r.itemOrder && r.itemOrder == o.itemOrder[group := r.itemOrder[group]]
  {
    var pushed := AppendAll(ItemsOf(o.itemOrder, group), SplitItems(line));
    o.(itemOrder := o.itemOrder[group := pushed])
  }

  /** One iteration of the loop over lines. */
  function Step(st: ParseState, line: string): (r: ParseState)
    ensures WellFormed(st.orders) ==> WellFormed(r.orders)
  {
    var t := Trim(line);
    match Kind(t)
    case Blank => st.(current := None)
    case CoreLine =>
      ParseState(st.orders.(groupOrder := AppendNew(st.orders.groupOrder, CoreKey)), Some(CoreKey))
    case HeadingLine(title, segment) =>
      ParseState(
        st.orders.(groupOrder := AppendNew(st.orders.groupOrder, segment),
                   groupLabels := st.orders.groupLabels[segment := title]),
        Some(segment))
    case ItemLine =>
      if st.current.Some? && st.current.value != "" then
        var o := AddItems(st.orders, st.current.value, t);
        assert WellFormed(st.orders) ==> WellFormed(o) by {
          if WellFormed(st.orders) {
            forall g | g in o.itemOrder
              ensures NoDup(o.itemOrder[g])
            {
              if g != st.current.value {
                assert g in st.orders.itemOrder;
              }
            }
          }
        }
        st.(orders := o)
      else st
  }

  function Run(st: ParseState, lines: seq<string>): (r: ParseState)
    ensures WellFormed(st.orders) ==> WellFormed(r.orders)
    decreases |lines|
  {
    if lines == [] then st else Run(Step(st, lines[0]), lines[1..])
  }

  /** `parseExistingOrders(content)`: it accepts every text, and what it
      remembers is duplicate-free. */
  function ParseExistingOrders(content: string): (r: Orders)
    ensures WellFormed(r)
  {
    Run(Initial, SplitLines(content)).orders
  }

  lemma {:induction false} RunConcat(st: ParseState, a: seq<string>, b: seq<string>)
    ensures Run(st, a + b) == Run(Run(st, a), b)
    decreases |a|
  {
    if a != [] {
      assert (a + b)[0] == a[0];
      assert (a + b)[1..] == a[1..] + b;
      RunConcat(Step(st, a[0]), a[1..], b);
    } else {
      assert a + b == b;
    }
  }

  /** The parser sees each line only through its trim. */
  lemma {:induction false} RunTrimmed(st: ParseState, lines: seq<string>)
    ensures Run(st, Map(Trim, lines)) == Run(st, lines)
    decreases |lines|
  {
    if lines != [] {
      var l, rest := lines[0], lines[1..];
      assert Map(Trim, lines) == [Trim(l)] + Map(Trim, rest);
      RunCons(st, Trim(l), Map(Trim, rest));
      StepTrim(st, l);
      RunTrimmed(Step(st, l), rest);
    }
  }

  lemma RunCons(st: ParseState, x: string, xs: seq<string>)
    ensures Run(st, [x] + xs) == Run(Step(st, x), xs)
  {
    assert ([x] + xs)[0] == x && ([x] + xs)[1..] == xs;
  }

  lemma StepTrim(st: ParseState, line: string)
    ensures Step(st, Trim(line)) == Step(st, line)
  {
    TrimIdempotent(line);
  }

  lemma TrimIdempotent(s: string)
    ensures Trim(Trim(s)) == Trim(s)
  {
    TrimIdentity(Trim(s));
  }

  /** A line feed with or without a carriage return before it ends a line
      the same way. */
  lemma {:induction false} ParseIgnoresCR(content: string)
    ensures ParseExistingOrders(content) == Run(Initial, Split(content, '\n')).orders
  {
    TrimmedSplitLines(content);
    RunTrimmed(Initial, SplitLines(content));
    RunTrimmed(Initial, Split(content, '\n'));
  }

  /** A blank line forgets the current group and changes nothing else. */
  lemma BlankLineResets(st: ParseState, line: string)
    requires Trim(line) == ""
    ensures Step(st, line) == st.(current := None)
  {
  }

  /** Without a (non-empty) current group, item lines are ignored: after a
      blank line nothing is recorded until the next `CORE ` line or heading. */
  lemma {:induction false} ItemLinesIgnoredWithoutGroup(st: ParseState, lines: seq<string>)
    requires st.current == None || st.current == Some("")
    requires forall i :: 0 <= i < |lines| ==> Kind(Trim(lines[i])) == ItemLine
    ensures Run(st, lines) == st
    decreases |lines|
  {
    if lines != [] {
      assert Kind(Trim(lines[0])) == ItemLine;
      ItemLineIgnored(st, lines[0]);
      ItemLinesIgnoredWithoutGroup(st, lines[1..]);
    }
  }

  lemma ItemLineIgnored(st: ParseState, line: string)
    requires st.current == None || st.current == Some("")
    requires Kind(Trim(line)) == ItemLine
    ensures Step(st, line) == st
  {
  }

  /** The groups a line names: `__core__` for a `CORE ` line, the trimmed
      segment for a heading. */
  function NamedGroups(lines: seq<string>): seq<string>
    decreases |lines|
  {
    if lines == [] then [] else LineGroups(lines[0]) + NamedGroups(lines[1..])
  }

  /** The groups one line names. */
  function LineGroups(line: string): seq<string>
  {
    match Kind(Trim(line))
    case CoreLine => [CoreKey]
    case HeadingLine(_, segment) => [segment]
    case _ => []
  }

  lemma StepGroupOrder(st: ParseState, line: string)
    ensures Step(st, line).orders.groupOrder == AppendAll(st.orders.groupOrder, LineGroups(line))
  {
    match Kind(Trim(line))
    case CoreLine =>
      AppendAllSingle(st.orders.groupOrder, CoreKey);
    case HeadingLine(_, segment) =>
      AppendAllSingle(st.orders.groupOrder, segment);
    case _ =>
  }

  lemma {:induction false} RunGroupOrder(st: ParseState, lines: seq<string>)
    ensures Run(st, lines).orders.groupOrder == AppendAll(st.orders.groupOrder, NamedGroups(lines))
    decreases |lines|
  {
    if lines != [] {
      var st' := Step(st, lines[0]);
      RunGroupOrder(st', lines[1..]);
      StepGroupOrder(st, lines[0]);
      AppendAllConcat(st.orders.groupOrder, LineGroups(lines[0]), NamedGroups(lines[1..]));
    }
  }

  /** The group order is the first-seen order of the groups the lines name. */
  lemma {:induction false} GroupOrderIsFirstSeen(content: string)
    ensures ParseExistingOrders(content).groupOrder == FirstSeen(NamedGroups(Split(content, '\n')))
  {
    var ls := Split(content, '\n');
    ParseIgnoresCR(content);
    RunGroupOrder(Initial, ls);
    AppendAllFromEmpty(NamedGroups(ls));
  }

  /** The cursor after a line. */
  function NextCursor(current: Option<string>, t: string): Option<string>
  {
    match Kind(t)
    case Blank => None
    case CoreLine => Some(CoreKey)
    case HeadingLine(_, segment) => Some(segment)
    case ItemLine => current
  }

  /** The items the lines file under group `g`, in order, when the cursor
      starts at `current`. */
  function ItemsFiled(current: Option<string>, lines: seq<string>, g: string): seq<string>
    decreases |lines|
  {
    if lines == [] then []
    else
      var t := Trim(lines[0]);
      LineItems(current, t, g) + ItemsFiled(NextCursor(current, t), lines[1..], g)
  }

  /** The items one trimmed line files under `g`. */
  function LineItems(current: Option<string>, t: string, g: string): seq<string>
  {
    if Kind(t) == ItemLine && current == Some(g) && g != "" then SplitItems(t) else []
  }

  /** An item line under a named group goes to `addItems`. */
  lemma StepFiles(st: ParseState, line: string)
    requires Kind(Trim(line)) == ItemLine && st.current.Some? && st.current.value != ""
    ensures Step(st, line) == st.(orders := AddItems(st.orders, st.current.value, Trim(line)))
  {
  }

  /** Every other line leaves the item lists alone. */
  lemma StepKeepsItems(st: ParseState, line: string)
    requires !(Kind(Trim(line)) == ItemLine && st.current.Some? && st.current.value != "")
    ensures Step(st, line).orders.itemOrder == st.orders.itemOrder
  {
  }

  /** One step moves the cursor as the line says. */
  lemma StepCursor(st: ParseState, line: string)
    ensures Step(st, line).current == NextCursor(st.current, Trim(line))
  {
  }

  /** An item line under `g` itself pushes its items onto `g`'s list. */
  lemma StepFilesHere(st: ParseState, line: string, g: string)
    requires Kind(Trim(line)) == ItemLine && st.current == Some(g) && g != ""
    ensures ItemsOf(Step(st, line).orders.itemOrder, g)
      == AppendAll(ItemsOf(st.orders.itemOrder, g), LineItems(st.current, Trim(line), g))
  {
    StepFiles(st, line);
  }

  /** An item line under another group leaves `g`'s list alone. */
  lemma StepFilesElsewhere(st: ParseState, line: string, g: string)
    requires Kind(Trim(line)) == ItemLine && st.current.Some? && st.current.value != ""
    requires st.current.value != g
    ensures ItemsOf(Step(st, line).orders.itemOrder, g) == ItemsOf(st.orders.itemOrder, g)
  {
    StepFiles(st, line);
  }

  /** One step files the line's items under `g`. */
  lemma StepItemOrder(st: ParseState, line: string, g: string)
    ensures ItemsOf(Step(st, line).orders.itemOrder, g)
      == AppendAll(ItemsOf(st.orders.itemOrder, g), LineItems(st.current, Trim(line), g))
  {
    var t := Trim(line);
    var before := ItemsOf(st.orders.itemOrder, g);
    if Kind(t) == ItemLine && st.current == Some(g) && g != "" {
      StepFilesHere(st, line, g);
    } else {
      if Kind(t) == ItemLine && st.current.Some? && st.current.value != "" {
        StepFilesElsewhere(st, line, g);
      } else {
        StepKeepsItems(st, line);
      }
      assert LineItems(st.current, t, g) == [];
      assert AppendAll(before, []) == before;
    }
  }

  lemma {:induction false} RunItemOrder(st: ParseState, lines: seq<string>, g: string)
    ensures ItemsOf(Run(st, lines).orders.itemOrder, g)
      == AppendAll(ItemsOf(st.orders.itemOrder, g), ItemsFiled(st.current, lines, g))
    decreases |lines|
  {
    if lines != [] {
      var st' := Step(st, lines[0]);
      var here := LineItems(st.current, Trim(lines[0]), g);
      StepItemOrder(st, lines[0], g);
      StepCursor(st, lines[0]);
      RunItemOrder(st', lines[1..], g);
      assert ItemsFiled(st.current, lines, g) == here + ItemsFiled(st'.current, lines[1..], g);
      AppendAllConcat(ItemsOf(st.orders.itemOrder, g), here, ItemsFiled(st'.current, lines[1..], g));
    }
  }

  /** Every remembered item list is the first-seen order of the items filed
      under that group. */
  lemma {:induction false} ItemOrderIsFirstSeen(content: string, g: string)
    ensures ItemsOf(ParseExistingOrders(content).itemOrder, g)
      == FirstSeen(ItemsFiled(None, Split(content, '\n'), g))
  {
    ParseIgnoresCR(content);
    var items := ItemsFiled(None, Split(content, '\n'), g);
    RunItemOrder(Initial, Split(content, '\n'), g);
    AppendAllFromEmpty(items);
  }
}
