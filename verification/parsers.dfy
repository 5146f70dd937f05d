/**
 * `ConfigParser._parse_value`, `_parse_array`, `_parse_table` and
 * `_parse_structure`, and `parse`, which runs the whole pipeline: comments
 * out, constants declared and cut out, then the top-level structure.
 *
 * `_parse_value` recurses into arrays and tables on strict parts of its
 * text. The loops of `Loops` take the value parser as a parameter; inside
 * the recursion they are given `ItemParser`, which is `_parse_value` on
 * every text shorter than the text being parsed, and every item is.
 */
module Parsers {
  import opened Wrappers
  import opened Text
  import opened Values
  import opened Scalars
  import opened Splitters
  import opened Comments
  import opened Declarations
  import opened Loops

  /**
   * `_parse_value`: stripped, then an array when bracketed, a table when
   * written `table(...)`, and a scalar otherwise.
   */
  function ParseValue(text: string, cs: Constants): (r: Parsed<Value>)
    decreases |text|, 2
  {
    var t := Strip(text);
    if StartsWith(t, "[") && EndsWith(t, "]") then ParseArray(t, cs)
    else if StartsWith(t, "table(") && EndsWith(t, ")") then
      var entries :- ParseTable(t, cs);
      Success(Table(entries))
    else Evaluate(t, cs)
  }

  /**
   * `_parse_value` on the texts shorter than `bound`. The else branch is
   * never taken by the parsers below: every item is shorter than the text
   * it was cut from.
   */
  function ItemParser(cs: Constants, bound: nat): (f: ValueFn)
    ensures forall x | |x| < bound :: f(x) == ParseValue(x, cs)
    decreases bound, 0
  {
    x => if |x| < bound then ParseValue(x, cs) else Failure(InvalidConstantExpression(x))
  }

  /** `self._parse_value` as a value. */
  function ValueParser(cs: Constants): (f: ValueFn)
    ensures forall x :: f(x) == ParseValue(x, cs)
  {
    x => ParseValue(x, cs)
  }

  /** `self._parse_table` as a value. */
  function TableParser(cs: Constants): (g: TableFn)
    ensures forall x :: g(x) == ParseTable(x, cs)
  {
    x => ParseTable(x, cs)
  }

  /** The text between the brackets of an array, stripped. */
  function ArrayContent(t: string): (c: string)
    ensures c != [] ==> |c| + 2 <= |t|
  {
    Strip(Inner(t, 1, 1))
  }

  /** The text between `table(` and `)`, stripped. */
  function TableContent(t: string): (c: string)
    ensures c != [] ==> |c| + 7 <= |t|
  {
    Strip(Inner(t, 6, 1))
  }

  /** `_parse_array`: the items between the brackets, each parsed as a value. */
  function ParseArray(t: string, cs: Constants): (r: Parsed<Value>)
    ensures r.Success? ==> r.value.Arr?
    decreases |t|, 1
  {
    var content := ArrayContent(t);
    if content == [] then Success(Arr([]))
    else
      var vs :- MapItems(ItemParser(cs, |t|), [], ArrayItems(content));
      Success(Arr(vs))
  }

  /** `_parse_table`: the entries between `table(` and `)`, built in order. */
  function ParseTable(t: string, cs: Constants): (r: Parsed<seq<Entry>>)
    decreases |t|, 1
  {
    var content := TableContent(t);
    if content == [] then Success([])
    else TableEntries(ItemParser(cs, |t|), [], TableItems(content))
  }

  /** `_parse_structure`: the top-level items, in order, into one table. */
  function ParseStructure(text: string, cs: Constants): (r: Parsed<seq<Entry>>)
  {
    StructureEntries(ValueParser(cs), TableParser(cs), [], StructureItems(text))
  }

  /** What `parse` returns or raises, and the constants it leaves on the parser. */
  datatype Run = Run(result: Parsed<seq<Entry>>, constants: Constants)

  /**
   * `parse`: comments removed, constants declared (a failing declaration
   * ends the run, keeping the constants declared before it), the
   * declarations cut out, and what is left parsed as the top-level
   * structure once stripped.
   */
  function Parse(text: string, cs: Constants): (r: Run)
    ensures cs.Keys <= r.constants.Keys
    ensures AllScalar(cs) ==> AllScalar(r.constants)
  {
    var (o, rest) := ParseConstants(RemoveComments(text), cs);
    if o.error.Some? then Run(Failure(o.error.value), o.constants)
    else Run(ParseStructure(Strip(rest), o.constants), o.constants)
  }

  // Well-built results

  /**
   * With scalar constants, every value `_parse_value` builds is well built:
   * each table in it, at any depth, has each key once, as the dict Python
   * builds does.
   */
  lemma {:induction false} ValueWellBuilt(text: string, cs: Constants)
    requires AllScalar(cs) && ParseValue(text, cs).Success?
    ensures WellBuilt(ParseValue(text, cs).value)
    decreases |text|, 2
  {
    var t := Strip(text);
    if StartsWith(t, "[") && EndsWith(t, "]") {
      ArrayWellBuilt(t, cs);
    } else if StartsWith(t, "table(") && EndsWith(t, ")") {
      TableWellBuilt(t, cs);
    }
  }

  /** With scalar constants, an array that parses is well built. */
  lemma {:induction false} ArrayWellBuilt(t: string, cs: Constants)
    requires AllScalar(cs) && ParseArray(t, cs).Success?
    ensures WellBuilt(ParseArray(t, cs).value)
    decreases |t|, 1
  {
    var content := ArrayContent(t);
    if content != [] {
      var items := ArrayItems(content);
      var f := ItemParser(cs, |t|);
      forall i | 0 <= i < |items| && f(items[i]).Success? ensures WellBuilt(f(items[i]).value) {
        assert items[i] in items;
        ValueWellBuilt(items[i], cs);
      }
      var none: seq<Value> := [];
      ItemsBuilt(f, none, items);
    }
  }

  /** With scalar constants, a table that parses has each key once and well-built values. */
  lemma {:induction false} TableWellBuilt(t: string, cs: Constants)
    requires AllScalar(cs) && ParseTable(t, cs).Success?
    ensures EntriesWellBuilt(ParseTable(t, cs).value)
    decreases |t|, 1
  {
    var content := TableContent(t);
    if content != [] {
      var items := TableItems(content);
      var f := ItemParser(cs, |t|);
      forall i | 0 <= i < |items| && SplitEntry(items[i]).Some? && f(SplitEntry(items[i]).value.value).Success?
        ensures WellBuilt(f(SplitEntry(items[i]).value.value).value)
      {
        assert items[i] in items;
        ValueWellBuilt(SplitEntry(items[i]).value.value, cs);
      }
      var none: seq<Entry> := [];
      TableBuilt(f, none, items);
    }
  }

  /** With scalar constants, a top-level structure that parses has each key once and well-built values. */
  lemma StructureWellBuilt(text: string, cs: Constants)
    requires AllScalar(cs) && ParseStructure(text, cs).Success?
    ensures EntriesWellBuilt(ParseStructure(text, cs).value)
  {
    var items := StructureItems(text);
    var f := ValueParser(cs);
    var g := TableParser(cs);
    forall i | 0 <= i < |items| && SplitEntry(items[i]).Some? && f(SplitEntry(items[i]).value.value).Success?
      ensures WellBuilt(f(SplitEntry(items[i]).value.value).value)
    {
      ValueWellBuilt(SplitEntry(items[i]).value.value, cs);
    }
    forall i | 0 <= i < |items| && g(items[i]).Success? ensures EntriesWellBuilt(g(items[i]).value) {
      TableWellBuilt(items[i], cs);
    }
    var none: seq<Entry> := [];
    StructureBuilt(f, g, none, items);
  }

  /**
   * With scalar constants to start from, what `parse` returns has each key
   * once and well-built values: the JSON object it stands for loses nothing.
   */
  lemma ParseWellBuilt(text: string, cs: Constants)
    requires AllScalar(cs) && Parse(text, cs).result.Success?
    ensures EntriesWellBuilt(Parse(text, cs).result.value)
  {
    var (o, rest) := ParseConstants(RemoveComments(text), cs);
    StructureWellBuilt(Strip(rest), o.constants);
  }

  // Arrays

  /**
   * A non-empty array is the array loop run with `_parse_value` itself:
   * it succeeds when the loop does, with the loop's values, and otherwise
   * fails with the loop's error.
   */
  lemma ArrayIsItemLoop(t: string, cs: Constants)
    requires ArrayContent(t) != []
    ensures var loop := MapItems(ValueParser(cs), [], ArrayItems(ArrayContent(t)));
      && (ParseArray(t, cs).Success? <==> loop.Success?)
      && (loop.Success? ==> ParseArray(t, cs).value == Arr(loop.value))
      && (loop.Failure? ==> ParseArray(t, cs).error == loop.error)
  {
    var items := ArrayItems(ArrayContent(t));
    ItemsAgree(ItemParser(cs, |t|), ValueParser(cs), [], items) by {
      forall i | 0 <= i < |items| ensures ItemParser(cs, |t|)(items[i]) == ValueParser(cs)(items[i]) {
        assert items[i] in items;
      }
    }
  }

  /**
   * The values of an array that parses are its items' values, one per
   * item, in order.
   */
  lemma ArrayValues(t: string, cs: Constants)
    requires ArrayContent(t) != [] && ParseArray(t, cs).Success?
    ensures var items := ArrayItems(ArrayContent(t));
      var vs := ParseArray(t, cs).value.items;
      |vs| == |items| && forall i | 0 <= i < |items| :: ParseValue(items[i], cs) == Success(vs[i])
  {
    var items := ArrayItems(ArrayContent(t));
    ArrayIsItemLoop(t, cs);
    ItemsValues(ValueParser(cs), items, ParseArray(t, cs).value.items);
  }

  /**
   * An array that fails fails with the error of one of its items, every
   * item before which parsed.
   */
  lemma ArrayFirstFailure(t: string, cs: Constants) returns (i: nat)
    requires ArrayContent(t) != [] && ParseArray(t, cs).Failure?
    ensures var items := ArrayItems(ArrayContent(t));
      && i < |items| && ParseValue(items[i], cs) == Failure(ParseArray(t, cs).error)
      && forall j | 0 <= j < i :: ParseValue(items[j], cs).Success?
  {
    ArrayIsItemLoop(t, cs);
    i := ItemsFirstFailure(ValueParser(cs), [], ArrayItems(ArrayContent(t)));
  }

  // Tables

  /**
   * A non-empty table is the table loop run with `_parse_value` itself.
   */
  lemma TableIsEntryLoop(t: string, cs: Constants)
    requires TableContent(t) != []
    ensures ParseTable(t, cs) == TableEntries(ValueParser(cs), [], TableItems(TableContent(t)))
  {
    var items := TableItems(TableContent(t));
    TableAgree(ItemParser(cs, |t|), ValueParser(cs), [], items) by {
      forall i | 0 <= i < |items| && SplitEntry(items[i]).Some?
        ensures ItemParser(cs, |t|)(SplitEntry(items[i]).value.value) == ValueParser(cs)(SplitEntry(items[i]).value.value)
      {
        assert items[i] in items;
      }
    }
  }

  /**
   * A later duplicate key overwrites the earlier value: in a table that
   * parses, a key holds the value of the last item that names it.
   */
  lemma TableLastEntryWins(t: string, cs: Constants, i: nat)
    requires TableContent(t) != [] && ParseTable(t, cs).Success?
    requires var items := TableItems(TableContent(t));
      && i < |items| && SplitEntry(items[i]).Some?
      && forall j | i < j < |items| :: SplitEntry(items[j]).Some? ==> SplitEntry(items[j]).value.key != SplitEntry(items[i]).value.key
    ensures var p := SplitEntry(TableItems(TableContent(t))[i]).value;
      && ParseValue(p.value, cs).Success?
      && Lookup(ParseTable(t, cs).value, p.key) == Some(ParseValue(p.value, cs).value)
  {
    TableIsEntryLoop(t, cs);
    LastEntryWins(ValueParser(cs), [], TableItems(TableContent(t)), i);
  }

  /** Every item of a table that parses has "=>". */
  lemma TableItemsHaveArrows(t: string, cs: Constants)
    requires TableContent(t) != [] && ParseTable(t, cs).Success?
    ensures forall x | x in TableItems(TableContent(t)) :: SplitEntry(x).Some?
  {
    TableIsEntryLoop(t, cs);
    TableEntriesNeedArrows(ValueParser(cs), [], TableItems(TableContent(t)));
  }

  /**
   * The first item without "=>" ends the table with "Invalid table entry",
   * naming it, once the items before it have built a table.
   */
  lemma TableEntryWithoutArrow(t: string, cs: Constants, i: nat)
    requires var items := TableItems(TableContent(t));
      && TableContent(t) != [] && i < |items| && SplitEntry(items[i]).None?
      && TableEntries(ValueParser(cs), [], items[..i]).Success?
    ensures ParseTable(t, cs) == Failure(InvalidTableEntry(TableItems(TableContent(t))[i]))
  {
    TableIsEntryLoop(t, cs);
    EntryWithoutArrow(ValueParser(cs), [], TableItems(TableContent(t)), i);
  }

  /** Text without "=>": each closed piece and the open piece of its scan have none either. */
  lemma {:induction false} PiecesWithoutArrow(ps: seq<string>, o: string)
    requires FindArrow(Terminated(ps) + o).None?
    ensures forall p | p in ps :: FindArrow(p).None?
    ensures FindArrow(o).None?
    decreases |ps|
  {
    var s := Terminated(ps) + o;
    NoArrowInSlice(s, |s| - |o|, |s|);
    assert s[|s| - |o|..|s|] == o;
    if ps != [] {
      var init := ps[..|ps| - 1];
      var last := ps[|ps| - 1];
      var a := Terminated(init);
      assert s == a + last + [','] + o;
      NoArrowInSlice(s, 0, |a|);
      assert s[0..|a|] == a + [];
      PiecesWithoutArrow(init, []);
      NoArrowInSlice(s, |a|, |a| + |last|);
      assert s[|a|..|a| + |last|] == last;
      assert ps == init + [last];
    }
  }

  /** A text without "=>" splits into table items without "=>", and into at least one when not empty. */
  lemma TableItemsWithoutArrow(content: string)
    requires content != [] && FindArrow(content).None?
    ensures TableItems(content) != []
    ensures forall x | x in TableItems(content) :: FindArrow(x).None?
  {
    var st := Scan(content, true);
    ScanRoundTrip(content, true);
    PiecesWithoutArrow(st.closed, st.open);
    forall p | p in st.closed ensures FindArrow(Strip(p)).None? {
      NoArrowInStrip(p);
    }
    NoArrowInStrip(st.open);
    assert st.closed != [] || st.open != [];
    var stripped := StripAll(st.closed);
    assert forall i | 0 <= i < |stripped| :: stripped[i] == Strip(st.closed[i]) by {
      StripAllAt(st.closed);
    }
    forall x | x in TableItems(content) ensures FindArrow(x).None? {
      if x in stripped {
        var i :| 0 <= i < |stripped| && stripped[i] == x;
        assert st.closed[i] in st.closed;
      }
    }
  }

  lemma {:induction false} StripAllAt(ps: seq<string>)
    ensures forall i | 0 <= i < |ps| :: StripAll(ps)[i] == Strip(ps[i])
    decreases |ps|
  {
    if ps != [] {
      StripAllAt(ps[..|ps| - 1]);
    }
  }

  /** The content of `table(c)` is `c`, stripped. */
  lemma TableText(c: string)
    ensures TableContent("table(" + c + ")") == Strip(c)
  {
    var t := "table(" + c + ")";
    assert Inner(t, 6, 1) == c;
  }

  /** `table(c)`, with `c` stripped, not empty and without "=>", fails on its first item. */
  lemma TableFailsOnFirstItem(c: string, cs: Constants)
    requires c != [] && Strip(c) == c && FindArrow(c).None?
    ensures TableItems(c) != []
    ensures ParseTable("table(" + c + ")", cs) == Failure(InvalidTableEntry(TableItems(c)[0]))
  {
    TableText(c);
    TableWithoutArrow("table(" + c + ")", cs);
  }

  /** A non-empty table whose text has no "=>" fails on its first item. */
  lemma TableWithoutArrow(t: string, cs: Constants)
    requires TableContent(t) != [] && FindArrow(TableContent(t)).None?
    ensures TableItems(TableContent(t)) != []
    ensures ParseTable(t, cs) == Failure(InvalidTableEntry(TableItems(TableContent(t))[0]))
  {
    var items := TableItems(TableContent(t));
    TableItemsWithoutArrow(TableContent(t));
    assert items[0] in items;
    TableStepNoArrow(ItemParser(cs, |t|), [], items);
  }

  /**
   * A top-level `table(...)` item reaches the merge branch only when it has
   * no "=>"; then its table is empty or it fails. So the merge at the top
   * level never adds an entry.
   */
  lemma TopLevelTableMergesNothing(item: string, cs: Constants)
    requires SplitEntry(item).None?
    requires StartsWith(item, "table(") && EndsWith(item, ")")
    ensures ParseTable(item, cs).Success? <==> TableContent(item) == []
    ensures ParseTable(item, cs).Success? ==> ParseTable(item, cs).value == []
  {
    if TableContent(item) != [] {
      ContentWithoutArrow(item);
      TableWithoutArrow(item, cs);
    }
  }

  /** An item without "=>" has none between `table(` and `)` either. */
  lemma ContentWithoutArrow(item: string)
    requires SplitEntry(item).None? && |item| >= 7
    ensures FindArrow(TableContent(item)).None?
  {
    assert FindArrow(item).None?;
    NoArrowInSlice(item, 6, |item| - 1);
    assert Inner(item, 6, 1) == item[6..|item| - 1];
    NoArrowInStrip(Inner(item, 6, 1));
  }

  // The pipeline

  /** A text in which "set " cannot start at or after index `p` declares nothing from there on. */
  lemma NoDeclarationFrom(t: string, p: nat)
    requires p <= |t| && 's' !in t[p..]
    ensures forall q | p <= q <= |t| :: MatchStart(t[q..]).None?
  {
    forall q | p <= q <= |t| ensures MatchStart(t[q..]).None? {
      if q < |t| {
        assert t[q..][0] == t[p..][q - p];
      }
    }
  }

  /**
   * Text with no comment and no declaration goes straight to
   * `_parse_structure`, stripped, and leaves the constants as they were.
   */
  lemma PlainText(text: string, cs: Constants)
    requires ';' !in text && '#' !in text && 's' !in text
    ensures Parse(text, cs) == Run(ParseStructure(Strip(text), cs), cs)
  {
    NoComments(text);
    assert text[0..] == text;
    NoDeclarationFrom(text, 0);
    NoMatchKeepsAll(text, 0);
  }

  /** Text without `;` and `#` holds no comment. */
  lemma NoComments(text: string)
    requires ';' !in text && '#' !in text
    ensures RemoveComments(text) == text
  {
    forall j | 0 <= j && j + 1 < |text| ensures !OpenAt(text, j) {
      assert text[j + 1] in text;
    }
    RemoveCommentsIdentity(text);
  }

  /** A top-level text with no comma is one item. */
  lemma SingleItem(text: string)
    requires text != [] && ',' !in text
    requires !IsSpace(text[0]) && !IsSpace(text[|text| - 1])
    ensures StructureItems(text) == [text]
  {
    WholePiece(text, true);
    StripUnchanged(text);
  }

  /** Parsing nothing gives the empty table and declares nothing. */
  lemma EmptyText(cs: Constants)
    ensures Parse("", cs) == Run(Success([]), cs)
  {
    PlainText("", cs);
  }

  /** A plain text, free of whitespace at its ends and of commas, is one top-level item. */
  predicate PlainItem(text: string) {
    && text != [] && !IsSpace(text[0]) && !IsSpace(text[|text| - 1])
    && ';' !in text && '#' !in text && 's' !in text && ',' !in text
  }

  /** A one-item text that runs `_parse_structure` on itself. */
  lemma PlainItemStructure(text: string, cs: Constants)
    requires PlainItem(text)
    ensures Parse(text, cs) == Run(StructureEntries(ValueParser(cs), TableParser(cs), [], [text]), cs)
  {
    PlainText(text, cs);
    StripUnchanged(text);
    SingleItem(text);
  }

  /** One item with "=>" whose value parses is a table of one entry. */
  lemma OneEntry(text: string, cs: Constants, key: string, value: string, v: Value)
    requires PlainItem(text)
    requires SplitEntry(text) == Some(Pair(key, value)) && ParseValue(value, cs) == Success(v)
    ensures Parse(text, cs) == Run(Success([Entry(key, v)]), cs)
  {
    PlainText(text, cs);
    StripUnchanged(text);
    OneEntryStructure(text, cs, key, value, v);
  }

  /** A top-level text that is one item with "=>", whose value parses, is a table of one entry. */
  lemma OneEntryStructure(text: string, cs: Constants, key: string, value: string, v: Value)
    requires text != [] && ',' !in text && !IsSpace(text[0]) && !IsSpace(text[|text| - 1])
    requires SplitEntry(text) == Some(Pair(key, value)) && ParseValue(value, cs) == Success(v)
    ensures ParseStructure(text, cs) == Success([Entry(key, v)])
  {
    SingleItem(text);
    StructurePair(ValueParser(cs), TableParser(cs), [], [text]);
  }

  /** One item without "=>" that is not `table(...)` is "Invalid structure". */
  lemma OneInvalidItem(text: string, cs: Constants)
    requires PlainItem(text) && SplitEntry(text).None?
    requires !(StartsWith(text, "table(") && EndsWith(text, ")"))
    ensures Parse(text, cs) == Run(Failure(InvalidStructure(text)), cs)
  {
    PlainItemStructure(text, cs);
    StructureInvalid(ValueParser(cs), TableParser(cs), [], [text]);
  }

  /** One `table(...)` item without "=>" is merged into the empty result, as it parses. */
  lemma OneTableItem(text: string, cs: Constants)
    requires PlainItem(text) && SplitEntry(text).None?
    requires StartsWith(text, "table(") && EndsWith(text, ")")
    ensures Parse(text, cs).constants == cs
    ensures Parse(text, cs).result == ParseTable(text, cs)
  {
    PlainItemStructure(text, cs);
    var g := TableParser(cs);
    if g(text).Success? {
      StructureMerge(ValueParser(cs), g, [], [text]);
      TopLevelTableMergesNothing(text, cs);
    } else {
      StructureMergeFails(ValueParser(cs), g, [], [text]);
    }
  }

  /**
   * A declaration on the first line, followed by text without comments or
   * declarations: the constant is declared and the rest of the text,
   * stripped, is the structure.
   */
  lemma DeclarationThenText(d: Declaration, rest: string, cs: Constants, v: Value)
    requires WellFormed(d) && rest != [] && rest[0] == '\n'
    requires ';' !in Source(d) + rest && '#' !in Source(d) + rest && 's' !in rest
    requires Evaluate(Strip(d.value), cs) == Success(v)
    ensures Parse(Source(d) + rest, cs) == Run(ParseStructure(Strip(rest), cs[d.name := v]), cs[d.name := v])
  {
    var t := Source(d) + rest;
    var n := |Source(d)|;
    NoComments(t);
    DeclarationLine(d, rest);
    assert t[n..] == rest;
    NoDeclarationFrom(t, n);
    NoMatchKeepsAll(t, n);
    var tail := SegmentsFrom(t, n);
    assert ([Declared(d)] + tail)[1..] == tail;
    assert Decls(Segments(t)) == [d];
    assert KeptText(Segments(t)) == rest;
    assert Declare(cs, [d]) == Outcome(cs[d.name := v], None) by {
      assert [d][1..] == [];
    }
  }

  /** Text that is neither bracketed nor `table(`-shaped is a scalar expression. */
  lemma ScalarText(e: string, cs: Constants)
    requires e != [] && Strip(e) == e && e[0] != '[' && e[0] != 't'
    ensures ParseValue(e, cs) == Evaluate(e, cs)
  {
    assert !StartsWith(e, "[") by {
      if |e| >= 1 { assert e[..1][0] == e[0]; }
    }
    assert !StartsWith(e, "table(") by {
      if |e| >= 6 { assert e[..6][0] == e[0]; }
    }
  }
}
