/**
 * The `ConfigParser` class itself: one field, `constants`, that `parse`
 * updates in place and that stays on the parser from one call to the next.
 * Each method does what the function of the same name in `Parsers` or
 * `Declarations` describes, with the parser's current constants; the loops
 * are the source's loops, each proved against the function that specifies
 * it.
 */
module Configuration {
  import opened Wrappers
  import opened Text
  import opened Values
  import opened Scalars
  import opened Splitters
  import opened Comments
  import opened Loops
  import Declarations
  import Parsers

  class ConfigParser {
    /** `self.constants`: the constants declared so far, by name. */
    var constants: Constants

    /** A new parser knows no constants. */
    constructor()
      ensures constants == map[]
    {
      constants := map[];
    }

    /**
     * `parse`: comments removed, constants declared into `constants`, and
     * what is left parsed as the top-level structure. A declaration that
     * fails ends the call, with the constants declared before it kept.
     */
    method Parse(text: string) returns (r: Parsed<seq<Entry>>)
      modifies this
      ensures Parsers.Run(r, constants) == Parsers.Parse(text, old(constants))
    {
      var error, rest := ParseConstants(RemoveComments(text));
      if error.Some? {
        return Failure(error.value);
      }
      r := ParseStructure(Strip(rest));
    }

    /**
     * `_parse_constants`: each declaration found, in text order, evaluated
     * against the constants as they stand and written into them; then the
     * text with every declaration cut out.
     */
    method ParseConstants(text: string) returns (error: Option<Error>, rest: string)
      modifies this
      ensures var (o, kept) := Declarations.ParseConstants(text, old(constants));
        && constants == o.constants
        && error == o.error
        && (error.None? ==> rest == kept)
    {
      var segs := Declarations.Segments(text);
      var ds := Declarations.Decls(segs);
      var i := 0;
      while i < |ds|
        invariant 0 <= i <= |ds|
        invariant Declarations.Declare(constants, ds[i..]) == Declarations.Declare(old(constants), ds)
      {
        assert ds[i..][0] == ds[i] && ds[i..][1..] == ds[i + 1..];
        var v := Evaluate(Strip(ds[i].value), constants);
        if v.Failure? {
          return Some(v.error), [];
        }
        constants := constants[ds[i].name := v.value];
        i := i + 1;
      }
      return None, Declarations.KeptText(segs);
    }

    /** `_parse_value`: an array, a table or a scalar, by the text's shape. */
    method ParseValue(text: string) returns (r: Parsed<Value>)
      ensures r == Parsers.ParseValue(text, constants)
      decreases |text|, 2
    {
      var t := Strip(text);
      if StartsWith(t, "[") && EndsWith(t, "]") {
        r := ParseArray(t);
      } else if StartsWith(t, "table(") && EndsWith(t, ")") {
        var entries := ParseTable(t);
        r := if entries.Success? then Success(Table(entries.value)) else Failure(entries.error);
      } else {
        r := Evaluate(t, constants);
      }
    }

    /** `_parse_array`: the items split at top-level commas, each parsed in order. */
    method ParseArray(t: string) returns (r: Parsed<Value>)
      ensures r == Parsers.ParseArray(t, constants)
      decreases |t|, 1
    {
      var content := Parsers.ArrayContent(t);
      if content == [] {
        return Success(Arr([]));
      }
      var items := SplitArray(content);
      var vs := ParseItems(items, |t|);
      r := if vs.Success? then Success(Arr(vs.value)) else Failure(vs.error);
    }

    /**
     * The list comprehension of `_parse_array`: each item parsed in turn,
     * the first failure ending it. `bound` is the length of the array's
     * text, which every item is shorter than.
     */
    method ParseItems(items: seq<string>, ghost bound: nat) returns (r: Parsed<seq<Value>>)
      requires forall x | x in items :: |x| < bound
      ensures r == MapItems(Parsers.ItemParser(constants, bound), [], items)
      decreases bound, 0
    {
      ghost var f := Parsers.ItemParser(constants, bound);
      var values: seq<Value> := [];
      ghost var whole := MapItems(f, values, items);
      var i := 0;
      while i < |items|
        invariant 0 <= i <= |items|
        invariant MapItems(f, values, items[i..]) == whole
      {
        assert items[i] in items;
        var v := ParseValue(items[i]);
        ItemsStepAt(f, values, items, i);
        if v.Failure? {
          return Failure(v.error);
        }
        values := values + [v.value];
        i := i + 1;
      }
      return Success(values);
    }

    /** `_parse_table`: the items split at top-level commas, then built into entries. */
    method ParseTable(t: string) returns (r: Parsed<seq<Entry>>)
      ensures r == Parsers.ParseTable(t, constants)
      decreases |t|, 1
    {
      var content := Parsers.TableContent(t);
      if content == [] {
        return Success([]);
      }
      var items := SplitTable(content);
      r := ParseEntries(items, |t|);
    }

    /**
     * The loop of `_parse_table`: each item cut at its first "=>" and its
     * value parsed and written into the result, in order. `bound` is the
     * length of the table's text, which every item is shorter than.
     */
    method ParseEntries(items: seq<string>, ghost bound: nat) returns (r: Parsed<seq<Entry>>)
      requires forall x | x in items :: |x| < bound
      ensures r == TableEntries(Parsers.ItemParser(constants, bound), [], items)
      decreases bound, 0
    {
      ghost var f := Parsers.ItemParser(constants, bound);
      var result: seq<Entry> := [];
      ghost var whole := TableEntries(f, result, items);
      var i := 0;
      while i < |items|
        invariant 0 <= i <= |items|
        invariant TableEntries(f, result, items[i..]) == whole
      {
        assert items[i] in items;
        TableStepAt(f, result, items, i);
        var entry := SplitEntry(items[i]);
        if entry.None? {
          return Failure(InvalidTableEntry(items[i]));
        }
        var v := ParseValue(entry.value.value);
        if v.Failure? {
          return Failure(v.error);
        }
        result := Put(result, entry.value.key, v.value);
        i := i + 1;
      }
      return Success(result);
    }

    /**
     * `_parse_structure`: the top-level items, each a key and a value, or
     * a `table(...)` merged in; anything else is an invalid structure.
     */
    method ParseStructure(text: string) returns (r: Parsed<seq<Entry>>)
      ensures r == Parsers.ParseStructure(text, constants)
    {
      var items := SplitStructure(text);
      ghost var f := Parsers.ValueParser(constants);
      ghost var g := Parsers.TableParser(constants);
      var result: seq<Entry> := [];
      ghost var whole := StructureEntries(f, g, result, items);
      var i := 0;
      while i < |items|
        invariant 0 <= i <= |items|
        invariant StructureEntries(f, g, result, items[i..]) == whole
      {
        StructureStepAt(f, g, result, items, i);
        var item := items[i];
        var entry := SplitEntry(item);
        if entry.Some? {
          var v := ParseValue(entry.value.value);
          if v.Failure? {
            return Failure(v.error);
          }
          result := Put(result, entry.value.key, v.value);
        } else if StartsWith(item, "table(") && EndsWith(item, ")") {
          var sub := ParseTable(item);
          if sub.Failure? {
            return Failure(sub.error);
          }
          result := Merge(result, sub.value);
        } else {
          return Failure(InvalidStructure(item));
        }
        i := i + 1;
      }
      return Success(result);
    }
  }
}
