/** The JSON record processor: the recursive walk that reports every key and value of a
    decoded document, the projection of top-level records onto a list of wanted keys,
    and the parsing of that key list from comma-separated input. */
module JsonProcessing {
  import opened Values
  import opened Text

  /** One line reported by the walk. */
  datatype Event =
    | KeyNested(level: nat, key: string, kind: string)  // a key whose value is a dict or a list
    | KeyScalar(level: nat, key: string, value: Value)  // a key whose value is not a container
    | ListHeader(level: nat, count: nat)                // a list, with its length
    | ElementHeader(level: nat, index: nat)             // the position of the list element that follows
    | Leaf(level: nat, value: Value)                    // a non-container reached as the root or as a list element

  /** The line reported for one key of a dict, before any nested walk. */
  function KeyEvent(key: string, child: Value, level: nat): Event {
    if IsContainer(child) then KeyNested(level, key, TypeName(child)) else KeyScalar(level, key, child)
  }

  // ---------------------------------------------------------------------------
  // The walk as intended: every node is reported, scalars at the root and inside
  // lists by a Leaf line.
  // ---------------------------------------------------------------------------

  function Walk(v: Value, level: nat): seq<Event>
    decreases v
  {
    match v
    case Map(entries) => WalkEntries(entries, level)
    case List(items) => [ListHeader(level, |items|)] + WalkElements(items, 0, level)
    case _ => [Leaf(level, v)]
  }

  function WalkEntries(entries: Dict, level: nat): seq<Event>
    decreases entries
  {
    if entries == [] then []
    else
      var child := entries[0].1;
      assert child < entries[0];
      [KeyEvent(entries[0].0, child, level)]
        + (if IsContainer(child) then Walk(child, level + 1) else [])
        + WalkEntries(entries[1..], level)
  }

  function WalkElements(items: seq<Value>, from: nat, level: nat): seq<Event>
    decreases items
  {
    if items == [] then []
    else [ElementHeader(level, from)] + Walk(items[0], level + 1) + WalkElements(items[1..], from + 1, level)
  }

  // ---------------------------------------------------------------------------
  // The walk as written: the scalar branch formats `type(valor)`, a name bound
  // only by the dict branch's loop, so reaching it raises before anything is
  // printed, and the exception unwinds every enclosing call.
  // ---------------------------------------------------------------------------

  /** What a walk printed, and whether it ended by raising. */
  datatype Trace = Trace(lines: seq<Event>, raised: bool)

  function Emit(e: Event, t: Trace): Trace {
    Trace([e] + t.lines, t.raised)
  }

  /** Run `a`, then `b` unless `a` raised. */
  function Then(a: Trace, b: Trace): Trace {
    if a.raised then a else Trace(a.lines + b.lines, b.raised)
  }

  function WalkAsWritten(v: Value, level: nat): Trace
    decreases v
  {
    match v
    case Map(entries) => EntriesAsWritten(entries, level)
    case List(items) => Emit(ListHeader(level, |items|), ElementsAsWritten(items, 0, level))
    case _ => Trace([], true)
  }

  function EntriesAsWritten(entries: Dict, level: nat): Trace
    decreases entries
  {
    if entries == [] then Trace([], false)
    else
      var child := entries[0].1;
      assert child < entries[0];
      if IsContainer(child) then
        Emit(KeyEvent(entries[0].0, child, level),
             Then(WalkAsWritten(child, level + 1), EntriesAsWritten(entries[1..], level)))
      else
        Emit(KeyEvent(entries[0].0, child, level), EntriesAsWritten(entries[1..], level))
  }

  function ElementsAsWritten(items: seq<Value>, from: nat, level: nat): Trace
    decreases items
  {
    if items == [] then Trace([], false)
    else Emit(ElementHeader(level, from),
              Then(WalkAsWritten(items[0], level + 1), ElementsAsWritten(items[1..], from + 1, level)))
  }

  /** The longest prefix of `events` without a Leaf line, and whether a Leaf line cut it short. */
  function Cut(events: seq<Event>): Trace {
    if events == [] then Trace([], false)
    else if events[0].Leaf? then Trace([], true)
    else Emit(events[0], Cut(events[1..]))
  }

  /** `Cut` keeps a prefix of the lines, free of Leaf lines, and stops short exactly at the first Leaf line. */
  lemma {:induction false} CutSpec(events: seq<Event>)
    ensures var t := Cut(events);
      && |t.lines| <= |events| && t.lines == events[..|t.lines|]
      && (forall i :: 0 <= i < |t.lines| ==> !events[i].Leaf?)
      && (t.raised <==> |t.lines| < |events|)
      && (t.raised ==> events[|t.lines|].Leaf?)
  {
    if events != [] && !events[0].Leaf? {
      CutSpec(events[1..]);
      var t := Cut(events[1..]);
      assert Cut(events).lines == [events[0]] + t.lines;
      assert events == [events[0]] + events[1..];
    }
  }

  lemma {:induction false} CutAppend(a: seq<Event>, b: seq<Event>)
    ensures Cut(a + b) == Then(Cut(a), Cut(b))
  {
    if a == [] {
      assert a + b == b;
    } else if a[0].Leaf? {
      assert (a + b)[0] == a[0];
    } else {
      assert (a + b)[0] == a[0];
      assert (a + b)[1..] == a[1..] + b;
      CutAppend(a[1..], b);
      var t := Cut(a[1..]);
      assert Cut(a + b) == Emit(a[0], Then(t, Cut(b)));
      assert Cut(a) == Emit(a[0], t);
      if !t.raised {
        assert [a[0]] + (t.lines + Cut(b).lines) == ([a[0]] + t.lines) + Cut(b).lines;
      }
    }
  }

  /** The walk as written prints exactly the intended lines up to the first Leaf line,
      and raises exactly when the intended walk has a Leaf line. */
  lemma {:induction false} AsWrittenIsCut(v: Value, level: nat)
    ensures WalkAsWritten(v, level) == Cut(Walk(v, level))
    decreases v
  {
    match v
    case Map(entries) => EntriesAsWrittenIsCut(entries, level);
    case List(items) =>
      ElementsAsWrittenIsCut(items, 0, level);
      assert Walk(v, level)[1..] == WalkElements(items, 0, level);
    case _ =>
  }

  lemma {:induction false} EntriesAsWrittenIsCut(entries: Dict, level: nat)
    ensures EntriesAsWritten(entries, level) == Cut(WalkEntries(entries, level))
    decreases entries
  {
    if entries != [] {
      var child := entries[0].1;
      assert child < entries[0];
      EntriesAsWrittenIsCut(entries[1..], level);
      if IsContainer(child) {
        AsWrittenIsCut(child, level + 1);
        NestedEntryIsCut(entries, level);
      } else {
        ScalarEntryIsCut(entries, level);
      }
    }
  }

  /** One step of `EntriesAsWrittenIsCut` for a key whose value is a dict or a list. */
  lemma NestedEntryIsCut(entries: Dict, level: nat)
    requires entries != [] && IsContainer(entries[0].1)
    requires WalkAsWritten(entries[0].1, level + 1) == Cut(Walk(entries[0].1, level + 1))
    requires EntriesAsWritten(entries[1..], level) == Cut(WalkEntries(entries[1..], level))
    ensures EntriesAsWritten(entries, level) == Cut(WalkEntries(entries, level))
  {
    var e := KeyEvent(entries[0].0, entries[0].1, level);
    var nested, rest := Walk(entries[0].1, level + 1), WalkEntries(entries[1..], level);
    assert WalkEntries(entries, level) == [e] + (nested + rest);
    CutConsAppend(e, nested, rest);
  }

  /** One step of `EntriesAsWrittenIsCut` for a key whose value is not a container. */
  lemma ScalarEntryIsCut(entries: Dict, level: nat)
    requires entries != [] && !IsContainer(entries[0].1)
    requires EntriesAsWritten(entries[1..], level) == Cut(WalkEntries(entries[1..], level))
    ensures EntriesAsWritten(entries, level) == Cut(WalkEntries(entries, level))
  {
    var e := KeyEvent(entries[0].0, entries[0].1, level);
    var rest := WalkEntries(entries[1..], level);
    assert WalkEntries(entries, level) == [e] + rest;
    CutCons(e, rest);
  }

  lemma {:induction false} ElementsAsWrittenIsCut(items: seq<Value>, from: nat, level: nat)
    ensures ElementsAsWritten(items, from, level) == Cut(WalkElements(items, from, level))
    decreases items
  {
    if items != [] {
      var rest := WalkElements(items[1..], from + 1, level);
      ElementsAsWrittenIsCut(items[1..], from + 1, level);
      AsWrittenIsCut(items[0], level + 1);
      assert WalkElements(items, from, level) == [ElementHeader(level, from)] + (Walk(items[0], level + 1) + rest);
      CutConsAppend(ElementHeader(level, from), Walk(items[0], level + 1), rest);
    }
  }

  lemma CutConsAppend(e: Event, a: seq<Event>, b: seq<Event>)
    requires !e.Leaf?
    ensures Cut([e] + (a + b)) == Emit(e, Then(Cut(a), Cut(b)))
  {
    CutCons(e, a + b);
    CutAppend(a, b);
  }

  lemma CutCons(e: Event, events: seq<Event>)
    requires !e.Leaf?
    ensures Cut([e] + events) == Emit(e, Cut(events))
  {
    assert ([e] + events)[1..] == events;
  }

  // ---------------------------------------------------------------------------
  // Properties of the intended walk.
  // ---------------------------------------------------------------------------

  /** The events of `events` reported at exactly `level`, in order. */
  function AtLevel(events: seq<Event>, level: nat): seq<Event> {
    if events == [] then []
    else (if events[0].level == level then [events[0]] else []) + AtLevel(events[1..], level)
  }

  lemma {:induction false} AtLevelAppend(a: seq<Event>, b: seq<Event>, level: nat)
    ensures AtLevel(a + b, level) == AtLevel(a, level) + AtLevel(b, level)
  {
    if a == [] {
      assert a + b == b;
    } else {
      AtLevelAppend(a[1..], b, level);
      var head := if a[0].level == level then [a[0]] else [];
      assert AtLevel(a + b, level) == head + AtLevel(a[1..] + b, level) by {
        assert (a + b)[0] == a[0];
        assert (a + b)[1..] == a[1..] + b;
      }
      assert head + (AtLevel(a[1..], level) + AtLevel(b, level))
          == (head + AtLevel(a[1..], level)) + AtLevel(b, level);
    }
  }

  lemma {:induction false} AtLevelNone(events: seq<Event>, level: nat)
    requires forall i :: 0 <= i < |events| ==> events[i].level > level
    ensures AtLevel(events, level) == []
  {
    if events != [] {
      AtLevelNone(events[1..], level);
    }
  }

  /** Every line of a walk started at `level` is reported at `level` or deeper. */
  lemma {:induction false} WalkLevels(v: Value, level: nat)
    ensures forall i :: 0 <= i < |Walk(v, level)| ==> Walk(v, level)[i].level >= level
    decreases v
  {
    match v
    case Map(entries) => EntriesLevels(entries, level);
    case List(items) => ElementsLevels(items, 0, level);
    case _ =>
  }

  lemma {:induction false} EntriesLevels(entries: Dict, level: nat)
    ensures forall i :: 0 <= i < |WalkEntries(entries, level)| ==> WalkEntries(entries, level)[i].level >= level
    decreases entries
  {
    if entries != [] {
      var child := entries[0].1;
      assert child < entries[0];
      EntriesLevels(entries[1..], level);
      if IsContainer(child) {
        WalkLevels(child, level + 1);
      }
    }
  }

  lemma {:induction false} ElementsLevels(items: seq<Value>, from: nat, level: nat)
    ensures forall i :: 0 <= i < |WalkElements(items, from, level)| ==> WalkElements(items, from, level)[i].level >= level
    decreases items
  {
    if items != [] {
      ElementsLevels(items[1..], from + 1, level);
      WalkLevels(items[0], level + 1);
    }
  }

  /** For a dict, the lines at its own level are one per key, in insertion order: a type
      line for a dict or list value (whose own walk follows one level deeper) and a value
      line for anything else. */
  lemma {:induction false} MapKeysInOrder(entries: Dict, level: nat)
    ensures AtLevel(Walk(Map(entries), level), level)
         == seq(|entries|, i requires 0 <= i < |entries| => KeyEvent(entries[i].0, entries[i].1, level))
    decreases entries
  {
    if entries != [] {
      var child := entries[0].1;
      assert child < entries[0];
      var nested := if IsContainer(child) then Walk(child, level + 1) else [];
      if IsContainer(child) {
        WalkLevels(child, level + 1);
      }
      MapKeysInOrder(entries[1..], level);
      var rest := WalkEntries(entries[1..], level);
      assert WalkEntries(entries, level) == [KeyEvent(entries[0].0, child, level)] + (nested + rest);
      HeaderAtLevel(KeyEvent(entries[0].0, child, level), nested, rest, level);
      var want := seq(|entries|, i requires 0 <= i < |entries| => KeyEvent(entries[i].0, entries[i].1, level));
      assert want == [KeyEvent(entries[0].0, child, level)]
                   + seq(|entries[1..]|, i requires 0 <= i < |entries[1..]| => KeyEvent(entries[1..][i].0, entries[1..][i].1, level));
    }
  }

  /** A line at `level` followed by lines nested deeper and then `rest`: only the first line
      and the lines of `rest` are at `level`. */
  lemma HeaderAtLevel(e: Event, nested: seq<Event>, rest: seq<Event>, level: nat)
    requires e.level == level
    requires forall i :: 0 <= i < |nested| ==> nested[i].level > level
    ensures AtLevel([e] + (nested + rest), level) == [e] + AtLevel(rest, level)
  {
    AtLevelNone(nested, level);
    AtLevelAppend([e], nested + rest, level);
    AtLevelAppend(nested, rest, level);
  }

  /** For a list, the lines at its own level are the "list of N elements" line followed by
      one element line per index, in ascending order; each element is walked one level deeper. */
  lemma ListElementsInOrder(items: seq<Value>, level: nat)
    ensures AtLevel(Walk(List(items), level), level)
         == [ListHeader(level, |items|)] + seq(|items|, i requires 0 <= i < |items| => ElementHeader(level, i))
  {
    ElementsInOrder(items, 0, level);
    AtLevelAppend([ListHeader(level, |items|)], WalkElements(items, 0, level), level);
  }

  lemma {:induction false} ElementsInOrder(items: seq<Value>, from: nat, level: nat)
    ensures AtLevel(WalkElements(items, from, level), level)
         == seq(|items|, i requires 0 <= i < |items| => ElementHeader(level, from + i))
    decreases items
  {
    if items != [] {
      WalkLevels(items[0], level + 1);
      ElementsInOrder(items[1..], from + 1, level);
      var rest := WalkElements(items[1..], from + 1, level);
      assert WalkElements(items, from, level) == [ElementHeader(level, from)] + (Walk(items[0], level + 1) + rest);
      HeaderAtLevel(ElementHeader(level, from), Walk(items[0], level + 1), rest, level);
    }
  }

  /** The blocks, one after another. */
  function Flatten(blocks: seq<seq<Event>>): seq<Event> {
    if blocks == [] then [] else blocks[0] + Flatten(blocks[1..])
  }

  /** What one dict entry contributes: its key line, then, for a dict or list value, the
      value's own walk one level deeper. */
  function EntryBlock(key: string, child: Value, level: nat): seq<Event> {
    [KeyEvent(key, child, level)] + (if IsContainer(child) then Walk(child, level + 1) else [])
  }

  /** What one list element contributes: its element line, then its own walk one level deeper. */
  function ElementBlock(index: nat, item: Value, level: nat): seq<Event> {
    [ElementHeader(level, index)] + Walk(item, level + 1)
  }

  /** The walk of a dict is its entries' blocks in insertion order: each key line is followed
      by the complete walk of a dict or list value at the next level. */
  lemma MapWalkBlocks(entries: Dict, level: nat)
    ensures Walk(Map(entries), level)
         == Flatten(seq(|entries|, i requires 0 <= i < |entries| => EntryBlock(entries[i].0, entries[i].1, level)))
  {
    EntriesBlocks(entries, level);
  }

  lemma {:induction false} EntriesBlocks(entries: Dict, level: nat)
    ensures WalkEntries(entries, level)
         == Flatten(seq(|entries|, i requires 0 <= i < |entries| => EntryBlock(entries[i].0, entries[i].1, level)))
    decreases entries
  {
    if entries != [] {
      var child := entries[0].1;
      assert child < entries[0];
      EntriesBlocks(entries[1..], level);
      var blocks := seq(|entries|, i requires 0 <= i < |entries| => EntryBlock(entries[i].0, entries[i].1, level));
      var tail := seq(|entries[1..]|, i requires 0 <= i < |entries[1..]| => EntryBlock(entries[1..][i].0, entries[1..][i].1, level));
      assert blocks[1..] == tail;
      assert WalkEntries(entries, level) == blocks[0] + WalkEntries(entries[1..], level);
    }
  }

  /** The walk of a list is its count line followed by one block per element, in index order:
      each element line is followed by the complete walk of that element at the next level. */
  lemma ListWalkBlocks(items: seq<Value>, level: nat)
    ensures Walk(List(items), level)
         == [ListHeader(level, |items|)]
          + Flatten(seq(|items|, i requires 0 <= i < |items| => ElementBlock(i, items[i], level)))
  {
    ElementsBlocks(items, 0, level);
    assert seq(|items|, i requires 0 <= i < |items| => ElementBlock(0 + i, items[i], level))
        == seq(|items|, i requires 0 <= i < |items| => ElementBlock(i, items[i], level));
  }

  lemma {:induction false} ElementsBlocks(items: seq<Value>, from: nat, level: nat)
    ensures WalkElements(items, from, level)
         == Flatten(seq(|items|, i requires 0 <= i < |items| => ElementBlock(from + i, items[i], level)))
    decreases items
  {
    if items != [] {
      ElementsBlocks(items[1..], from + 1, level);
      var blocks := seq(|items|, i requires 0 <= i < |items| => ElementBlock(from + i, items[i], level));
      var tail := seq(|items[1..]|, i requires 0 <= i < |items[1..]| => ElementBlock(from + 1 + i, items[1..][i], level));
      assert blocks[1..] == tail;
      assert WalkElements(items, from, level) == blocks[0] + WalkElements(items[1..], from + 1, level);
    }
  }

  /** No list anywhere below the root. */
  predicate ListFree(v: Value)
    decreases v
  {
    match v
    case List(_) => false
    case Map(entries) => EntriesListFree(entries)
    case _ => true
  }

  predicate EntriesListFree(entries: Dict)
    decreases entries
  {
    entries == [] || (var child := entries[0].1; assert child < entries[0]; ListFree(child) && EntriesListFree(entries[1..]))
  }

  /** A dict of dicts and scalars, with no list anywhere, never reaches the broken branch:
      the walk as written prints every line of the intended walk and does not raise. */
  lemma ListFreeDictPrints(entries: Dict, level: nat)
    requires EntriesListFree(entries)
    ensures WalkAsWritten(Map(entries), level) == Trace(Walk(Map(entries), level), false)
  {
    EntriesNoLeaf(entries, level);
    AsWrittenIsCut(Map(entries), level);
    CutSpec(Walk(Map(entries), level));
  }

  lemma {:induction false} EntriesNoLeaf(entries: Dict, level: nat)
    requires EntriesListFree(entries)
    ensures forall i :: 0 <= i < |WalkEntries(entries, level)| ==> !WalkEntries(entries, level)[i].Leaf?
    decreases entries
  {
    if entries != [] {
      var child := entries[0].1;
      assert child < entries[0];
      EntriesNoLeaf(entries[1..], level);
      var nested := if IsContainer(child) then Walk(child, level + 1) else [];
      if child.Map? {
        EntriesNoLeaf(child.entries, level + 1);
        assert nested == WalkEntries(child.entries, level + 1);
      }
      assert WalkEntries(entries, level) == [KeyEvent(entries[0].0, child, level)] + nested + WalkEntries(entries[1..], level);
    }
  }

  /** The document {"x": [1, {"y": 2}]}: the intended walk reports every node, while the walk
      as written stops at the scalar 1 inside the list, raising after three lines. */
  lemma NestedListExample()
    ensures var doc := Map([("x", List([Num(1), Map([("y", Num(2))])]))]);
      && Walk(doc, 0) == [KeyNested(0, "x", "list"), ListHeader(1, 2),
                          ElementHeader(1, 0), Leaf(2, Num(1)),
                          ElementHeader(1, 1), KeyScalar(2, "y", Num(2))]
      && WalkAsWritten(doc, 0) == Trace([KeyNested(0, "x", "list"), ListHeader(1, 2), ElementHeader(1, 0)], true)
  {
    var inner := Map([("y", Num(2))]);
    var list := List([Num(1), inner]);
    assert WalkEntries([("y", Num(2))], 2) == [KeyScalar(2, "y", Num(2))];
    assert WalkElements([inner], 1, 1) == [ElementHeader(1, 1), KeyScalar(2, "y", Num(2))];
    assert WalkElements([Num(1), inner], 0, 1)
        == [ElementHeader(1, 0), Leaf(2, Num(1)), ElementHeader(1, 1), KeyScalar(2, "y", Num(2))];
    assert ElementsAsWritten([Num(1), inner], 0, 1) == Trace([ElementHeader(1, 0)], true);
  }

  // ---------------------------------------------------------------------------
  // Printing: two spaces of indentation per level.
  // ---------------------------------------------------------------------------

  /** `str(v)` for the values the walk prints. */
  function ScalarText(v: Value): string
    requires !IsContainer(v)
  {
    match v
    case Null => "None"
    case Bool(b) => if b then "True" else "False"
    case Num(n) => IntToString(n)
    case Str(s) => s
  }

  function Spaces(n: nat): (r: string)
    ensures |r| == n && forall i :: 0 <= i < n ==> r[i] == ' '
  {
    if n == 0 then "" else " " + Spaces(n - 1)
  }

  /** Only non-containers are printed as values. */
  predicate Printable(e: Event) {
    (e.KeyScalar? || e.Leaf?) ==> !IsContainer(e.value)
  }

  /** Width of a line's indentation: two spaces per level, and two more for an element line. */
  function IndentWidth(e: Event): nat {
    2 * e.level + (if e.ElementHeader? then 2 else 0)
  }

  /** The printed text of an event; the indentation is exactly `IndentWidth(e)` spaces. */
  function Render(e: Event): (line: string)
    requires Printable(e)
    ensures IndentWidth(e) < |line|
    ensures forall i :: 0 <= i < IndentWidth(e) ==> line[i] == ' '
    ensures line[IndentWidth(e)] != ' '
  {
    var body := match e
      case KeyNested(_, key, kind) => "Clave: '" + key + "' -> Tipo: " + kind
      case KeyScalar(_, key, v) => "Clave: '" + key + "' -> Valor: " + ScalarText(v) + " (Tipo: " + TypeName(v) + ")"
      case ListHeader(_, count) => "Lista con " + NatToString(count) + " elementos:"
      case ElementHeader(_, index) => "  Elemento " + NatToString(index) + ":"
      case Leaf(_, v) => "Valor: " + ScalarText(v) + " (Tipo: " + TypeName(v) + ")";
    var line := Spaces(2 * e.level) + body;
    assert line[IndentWidth(e)] == if e.ElementHeader? then 'E' else body[0];
    line
  }

  /** Every line of a walk can be printed. */
  lemma {:induction false} WalkPrintable(v: Value, level: nat)
    ensures forall i :: 0 <= i < |Walk(v, level)| ==> Printable(Walk(v, level)[i])
    decreases v
  {
    match v
    case Map(entries) => EntriesPrintable(entries, level);
    case List(items) => ElementsPrintable(items, 0, level);
    case _ =>
  }

  lemma {:induction false} EntriesPrintable(entries: Dict, level: nat)
    ensures forall i :: 0 <= i < |WalkEntries(entries, level)| ==> Printable(WalkEntries(entries, level)[i])
    decreases entries
  {
    if entries != [] {
      var child := entries[0].1;
      assert child < entries[0];
      EntriesPrintable(entries[1..], level);
      if IsContainer(child) {
        WalkPrintable(child, level + 1);
      }
    }
  }

  lemma {:induction false} ElementsPrintable(items: seq<Value>, from: nat, level: nat)
    ensures forall i :: 0 <= i < |WalkElements(items, from, level)| ==> Printable(WalkElements(items, from, level)[i])
    decreases items
  {
    if items != [] {
      ElementsPrintable(items[1..], from + 1, level);
      WalkPrintable(items[0], level + 1);
    }
  }

  // ---------------------------------------------------------------------------
  // Extraction of wanted keys from the top-level records.
  // ---------------------------------------------------------------------------

  /** The keys of `wanted` without repeats, each where it first occurs. */
  function Dedup(wanted: seq<string>): seq<string> {
    if wanted == [] then []
    else
      var init := Dedup(wanted[..|wanted| - 1]);
      if wanted[|wanted| - 1] in init then init else init + [wanted[|wanted| - 1]]
  }

  /** The filtered record built for `record`: one assignment per wanted key, in order. */
  function Project(record: Dict, wanted: seq<string>): Dict {
    if wanted == [] then []
    else
      var key := wanted[|wanted| - 1];
      Put(Project(record, wanted[..|wanted| - 1]), key, Get(record, key, Null))
  }

  /** The filtered record has the wanted keys, without repeats, in the order they were asked
      for; each maps to the record's top-level value for that key, or to null when absent. */
  lemma {:induction false} ProjectSpec(record: Dict, wanted: seq<string>)
    ensures Keys(Project(record, wanted)) == Dedup(wanted)
    ensures Distinct(Keys(Project(record, wanted)))
    ensures forall i :: 0 <= i < |Project(record, wanted)| ==>
      Project(record, wanted)[i].1 == Get(record, Project(record, wanted)[i].0, Null)
  {
    if wanted != [] {
      var init := wanted[..|wanted| - 1];
      var key := wanted[|wanted| - 1];
      var p := Project(record, init);
      ProjectSpec(record, init);
      PutSpec(p, key, Get(record, key, Null));
      var q := Put(p, key, Get(record, key, Null));
      forall i | 0 <= i < |q| ensures q[i].1 == Get(record, q[i].0, Null) {
        if i < |p| && p[i].0 != key {
          assert q[i] == p[i];
        }
      }
    }
  }

  /** Wanted keys given without repeats come out exactly as given. */
  lemma {:induction false} DedupDistinct(wanted: seq<string>)
    requires Distinct(wanted)
    ensures Dedup(wanted) == wanted
  {
    if wanted != [] {
      DedupDistinct(wanted[..|wanted| - 1]);
      assert wanted == wanted[..|wanted| - 1] + [wanted[|wanted| - 1]];
    }
  }

  /** The number of dicts in `items`. */
  function CountMaps(items: seq<Value>): nat {
    if items == [] then 0 else CountMaps(items[..|items| - 1]) + (if items[|items| - 1].Map? then 1 else 0)
  }

  /** The filtered records of the dicts among `items`, in order; other elements are skipped. */
  function ProjectAll(items: seq<Value>, wanted: seq<string>): seq<Value> {
    if items == [] then []
    else
      var last := items[|items| - 1];
      ProjectAll(items[..|items| - 1], wanted) + (if last.Map? then [Map(Project(last.entries, wanted))] else [])
  }

  /** What the extraction returns for a decoded document. */
  function Extraction(data: Value, wanted: seq<string>): seq<Value> {
    match data
    case List(items) => ProjectAll(items, wanted)
    case Map(entries) => [Map(Project(entries, wanted))]
    case _ => []
  }

  /** A list yields one filtered record per dict element, and the dict at position `i` yields
      the record at position "number of dicts before `i`": order is kept and non-dicts are skipped. */
  lemma {:induction false} ExtractionFromList(items: seq<Value>, wanted: seq<string>)
    ensures |Extraction(List(items), wanted)| == CountMaps(items)
    ensures forall i :: 0 <= i < |items| && items[i].Map? ==>
      CountMaps(items[..i]) < CountMaps(items) &&
      Extraction(List(items), wanted)[CountMaps(items[..i])] == Map(Project(items[i].entries, wanted))
  {
    if items != [] {
      var init := items[..|items| - 1];
      ExtractionFromList(init, wanted);
      forall i | 0 <= i < |items| && items[i].Map?
        ensures CountMaps(items[..i]) < CountMaps(items)
        ensures ProjectAll(items, wanted)[CountMaps(items[..i])] == Map(Project(items[i].entries, wanted))
      {
        if i < |items| - 1 {
          assert items[..i] == init[..i];
          assert init[i] == items[i];
        } else {
          assert items[..i] == init;
        }
      }
    }
  }

  /** A single dict yields exactly one filtered record; a scalar or null yields none. */
  lemma ExtractionOtherShapes(data: Value, wanted: seq<string>)
    ensures data.Map? ==> Extraction(data, wanted) == [Map(Project(data.entries, wanted))]
    ensures !IsContainer(data) ==> Extraction(data, wanted) == []
  {
  }

  /** Builds one filtered record, key by key. */
  method FilterRecord(record: Dict, wanted: seq<string>) returns (filtered: Dict)
    ensures filtered == Project(record, wanted)
    ensures Keys(filtered) == Dedup(wanted)
  {
    filtered := [];
    var j := 0;
    while j < |wanted|
      invariant 0 <= j <= |wanted|
      invariant filtered == Project(record, wanted[..j])
    {
      var key := wanted[j];
      if key in Keys(record) {
        filtered := Put(filtered, key, Get(record, key, Null));
      } else {
        filtered := Put(filtered, key, Null);
      }
      assert wanted[..j + 1][..j] == wanted[..j];
      j := j + 1;
    }
    assert wanted[..|wanted|] == wanted;
    ProjectSpec(record, wanted);
  }

  /** Extracts the wanted keys from every top-level record of `data`. */
  method ExtractKeys(data: Value, wanted: seq<string>) returns (extracted: seq<Value>)
    ensures extracted == Extraction(data, wanted)
  {
    extracted := [];
    match data {
      case List(items) =>
        var i := 0;
        while i < |items|
          invariant 0 <= i <= |items|
          invariant extracted == ProjectAll(items[..i], wanted)
        {
          if items[i].Map? {
            var filtered := FilterRecord(items[i].entries, wanted);
            extracted := extracted + [Map(filtered)];
          }
          assert items[..i + 1][..i] == items[..i];
          i := i + 1;
        }
        assert items[..|items|] == items;
      case Map(entries) =>
        var filtered := FilterRecord(entries, wanted);
        extracted := [Map(filtered)];
      case _ =>
    }
  }

  // ---------------------------------------------------------------------------
  // The comma-separated key list.
  // ---------------------------------------------------------------------------

  /** The stripped pieces that are not empty, in order. */
  function KeepStripped(pieces: seq<string>): seq<string> {
    if pieces == [] then []
    else (if Strip(pieces[0]) != "" then [Strip(pieces[0])] else []) + KeepStripped(pieces[1..])
  }

  /** The wanted keys typed as comma-separated text. */
  function ParseKeys(input: string): seq<string> {
    KeepStripped(Split(input, ','))
  }

  /** A key as the parse yields it: non-empty, no surrounding whitespace, no comma. */
  predicate CleanKey(k: string) {
    k != "" && IsStripped(k) && ',' !in k
  }

  /** Every parsed key is non-empty, has no surrounding whitespace and holds no comma. */
  lemma {:induction false} ParsedKeysClean(input: string)
    ensures forall i :: 0 <= i < |ParseKeys(input)| ==> CleanKey(ParseKeys(input)[i])
  {
    KeepStrippedClean(Split(input, ','));
  }

  lemma {:induction false} KeepStrippedClean(pieces: seq<string>)
    requires forall i :: 0 <= i < |pieces| ==> ',' !in pieces[i]
    ensures forall i :: 0 <= i < |KeepStripped(pieces)| ==> CleanKey(KeepStripped(pieces)[i])
  {
    if pieces != [] {
      KeepStrippedClean(pieces[1..]);
      var head := if Strip(pieces[0]) != "" then [Strip(pieces[0])] else [];
      assert forall i :: 0 <= i < |head| ==> CleanKey(head[i]) by {
        StripNoComma(pieces[0]);
      }
      CleanConcat(head, KeepStripped(pieces[1..]));
    }
  }

  lemma CleanConcat(a: seq<string>, b: seq<string>)
    requires forall i :: 0 <= i < |a| ==> CleanKey(a[i])
    requires forall i :: 0 <= i < |b| ==> CleanKey(b[i])
    ensures forall i :: 0 <= i < |a + b| ==> CleanKey((a + b)[i])
  {
    forall i | 0 <= i < |a + b| ensures CleanKey((a + b)[i]) {
      if i >= |a| {
        assert (a + b)[i] == b[i - |a|];
      }
    }
  }

  lemma StripNoComma(piece: string)
    requires ',' !in piece
    ensures ',' !in Strip(piece)
  {
    StripWithin(piece);
  }

  /** The text before the first comma contributes the first key (when it is not blank), and
      the rest of the input contributes the following ones. */
  lemma ParseKeysFirst(first: string, rest: string)
    requires ',' !in first
    ensures ParseKeys(first + "," + rest)
         == (if Strip(first) != "" then [Strip(first)] else []) + ParseKeys(rest)
  {
    SplitPrefix(first, rest, ',');
  }

  /** Keys that are non-empty, unpadded and comma-free survive a round trip through the
      comma-separated text. */
  lemma {:induction false} ParseKeysJoin(keys: seq<string>)
    requires |keys| >= 1
    requires forall i :: 0 <= i < |keys| ==> CleanKey(keys[i])
    ensures ParseKeys(Join(keys, ',')) == keys
  {
    SplitJoin(keys, ',');
    KeepStrippedOfClean(keys);
  }

  lemma {:induction false} KeepStrippedOfClean(keys: seq<string>)
    requires forall i :: 0 <= i < |keys| ==> keys[i] != "" && IsStripped(keys[i])
    ensures KeepStripped(keys) == keys
  {
    if keys != [] {
      StripStripped(keys[0]);
      KeepStrippedOfClean(keys[1..]);
    }
  }

  /** Nothing but commas and whitespace. */
  predicate Blank(input: string) {
    forall i :: 0 <= i < |input| ==> input[i] == ',' || IsSpace(input[i])
  }

  /** The input yields no key exactly when it holds nothing but commas and whitespace. */
  lemma NoKeysIffBlank(input: string)
    ensures ParseKeys(input) == [] <==> Blank(input)
  {
    KeepStrippedEmpty(Split(input, ','));
    SplitBlank(input);
  }

  /** Every piece is all whitespace. */
  predicate PiecesBlank(pieces: seq<string>) {
    forall j :: 0 <= j < |pieces| ==> AllSpace(pieces[j])
  }

  lemma {:induction false} KeepStrippedEmpty(pieces: seq<string>)
    ensures KeepStripped(pieces) == [] <==> PiecesBlank(pieces)
  {
    if pieces != [] {
      StripEmpty(pieces[0]);
      KeepStrippedEmpty(pieces[1..]);
      PiecesBlankCons(pieces[0], pieces[1..]);
      assert pieces == [pieces[0]] + pieces[1..];
    }
  }

  lemma PiecesBlankCons(p: string, pieces: seq<string>)
    ensures PiecesBlank([p] + pieces) <==> AllSpace(p) && PiecesBlank(pieces)
  {
    var all := [p] + pieces;
    if AllSpace(p) && PiecesBlank(pieces) {
      forall j | 0 <= j < |all| ensures AllSpace(all[j]) {
        if j > 0 { assert all[j] == pieces[j - 1]; }
      }
    }
    if PiecesBlank(all) {
      assert AllSpace(all[0]);
      forall j | 0 <= j < |pieces| ensures AllSpace(pieces[j]) {
        assert all[j + 1] == pieces[j];
        assert AllSpace(all[j + 1]);
      }
    }
  }

  lemma CharsCons(c: char, s: string)
    ensures AllSpace([c] + s) <==> IsSpace(c) && AllSpace(s)
    ensures Blank([c] + s) <==> (c == ',' || IsSpace(c)) && Blank(s)
  {
    var all := [c] + s;
    assert all[0] == c;
    assert forall i :: 1 <= i < |all| ==> all[i] == s[i - 1];
    if Blank(all) {
      forall i | 0 <= i < |s| ensures s[i] == ',' || IsSpace(s[i]) {
        assert all[i + 1] == s[i];
      }
    }
    if AllSpace(all) {
      forall i | 0 <= i < |s| ensures IsSpace(s[i]) {
        assert all[i + 1] == s[i];
      }
    }
  }

  lemma {:induction false} SplitBlank(s: string)
    ensures PiecesBlank(Split(s, ',')) <==> Blank(s)
  {
    if s != "" {
      SplitBlank(s[1..]);
      var rest := Split(s[1..], ',');
      CharsCons(s[0], s[1..]);
      assert s == [s[0]] + s[1..];
      if s[0] == ',' {
        PiecesBlankCons("", rest);
      } else {
        PiecesBlankCons([s[0]] + rest[0], rest[1..]);
        PiecesBlankCons(rest[0], rest[1..]);
        CharsCons(s[0], rest[0]);
        assert rest == [rest[0]] + rest[1..];
      }
    }
  }

  /** The extraction path: input with no key at all, nothing but commas and whitespace,
      stops it; otherwise it extracts the parsed keys. */
  function ExtractFromInput(data: Value, input: string): (r: Option<seq<Value>>)
    ensures r.None? <==> Blank(input)
    ensures r.Some? ==> r.value == Extraction(data, ParseKeys(input))
  {
    NoKeysIffBlank(input);
    var wanted := ParseKeys(input);
    if wanted == [] then None else Some(Extraction(data, wanted))
  }
}
