/**
 * The loops that `_parse_array`, `_parse_table` and `_parse_structure` run
 * over their items once the text is split. Each loop calls back into
 * `_parse_value` (and the structure loop into `_parse_table`); here those
 * are parameters, so what is proved about a loop holds whatever the value
 * parser does with an item.
 */
module Loops {
  import opened Wrappers
  import opened Text
  import opened Values

  /** `self._parse_value` as the loops see it: a value or a failure for each text. */
  type ValueFn = string -> Parsed<Value>

  /** `self._parse_table` as the structure loop sees it. */
  type TableFn = string -> Parsed<seq<Entry>>

  /** The two sides of `item.split("=>", 1)`, each stripped. */
  datatype Pair = Pair(key: string, value: string)

  /**
   * `"=>" in item` and, when it holds, the key and value texts: the item is
   * cut at its first "=>" and both sides are stripped.
   */
  function SplitEntry(item: string): (r: Option<Pair>)
    ensures r.None? <==> forall j :: !ArrowAt(item, j)
    ensures r.Some? ==> |r.value.value| + 2 <= |item|
  {
    match FindArrow(item)
    case None => None
    case Some(k) => Some(Pair(Strip(item[..k]), Strip(item[k + 2..])))
  }

  /** The entry of an item is made of the texts on either side of its first "=>". */
  lemma SplitAtFirstArrow(item: string, k: nat)
    requires ArrowAt(item, k) && forall j | 0 <= j < k :: !ArrowAt(item, j)
    ensures SplitEntry(item) == Some(Pair(Strip(item[..k]), Strip(item[k + 2..])))
  {
    var r := FindArrow(item);
    assert r.Some?;
    assert !(r.value < k) && !(k < r.value);
  }

  /**
   * A key and a value, each free of whitespace at its ends and the key
   * free of `=`, written `key => value`, are cut back into that key and
   * that value.
   */
  lemma EntryRoundTrip(key: string, value: string)
    requires key != [] && !IsSpace(key[0]) && !IsSpace(key[|key| - 1]) && '=' !in key
    requires value != [] && !IsSpace(value[0]) && !IsSpace(value[|value| - 1])
    ensures SplitEntry(key + " => " + value) == Some(Pair(key, value))
  {
    CutAtArrow(key, value);
    ArrowSides(key, value);
  }

  /** The cut falls at the arrow after the key. */
  lemma CutAtArrow(key: string, value: string)
    requires '=' !in key
    ensures var s := key + " => " + value;
      SplitEntry(s) == Some(Pair(Strip(s[..|key| + 1]), Strip(s[|key| + 3..])))
  {
    ArrowItemParts(key, value);
    NoArrowInKey(key, value);
    SplitAtFirstArrow(key + " => " + value, |key| + 1);
  }

  /** The two sides of `key => value`, stripped. */
  lemma ArrowSides(key: string, value: string)
    requires key != [] && !IsSpace(key[0]) && !IsSpace(key[|key| - 1])
    requires value != [] && !IsSpace(value[0]) && !IsSpace(value[|value| - 1])
    ensures var s := key + " => " + value;
      Strip(s[..|key| + 1]) == key && Strip(s[|key| + 3..]) == value
  {
    ArrowItemParts(key, value);
    StripPadded(key, [], [' ']);
    StripPadded(value, [' '], []);
  }

  /** A key without `=` holds no "=>", nor does the space after it. */
  lemma NoArrowInKey(key: string, value: string)
    requires '=' !in key
    ensures forall j | 0 <= j < |key| + 1 :: !ArrowAt(key + " => " + value, j)
  {
    var s := key + " => " + value;
    forall j | 0 <= j < |key| + 1 ensures !ArrowAt(s, j) {
      if j < |key| { assert s[j] == key[j]; assert key[j] in key; }
    }
  }

  /** Where the parts of `key => value` sit. */
  lemma ArrowItemParts(key: string, value: string)
    ensures var s := key + " => " + value;
      && ArrowAt(s, |key| + 1)
      && s[..|key| + 1] == [] + key + [' ']
      && s[|key| + 3..] == [' '] + value + []
  {
  }

  /**
   * A value tree as Python builds it: every table in it, at any depth, has
   * each key once.
   */
  predicate WellBuilt(v: Value)
    decreases v
  {
    match v
    case Arr(items) => forall i | 0 <= i < |items| :: WellBuilt(items[i])
    case Table(entries) => KeysUnique(entries) && forall i | 0 <= i < |entries| :: WellBuilt(entries[i].value)
    case _ => true
  }

  predicate AllWellBuilt(vs: seq<Value>) {
    forall i | 0 <= i < |vs| :: WellBuilt(vs[i])
  }

  predicate EntriesWellBuilt(es: seq<Entry>) {
    KeysUnique(es) && forall i | 0 <= i < |es| :: WellBuilt(es[i].value)
  }

  /**
   * `[self._parse_value(item) for item in items]` with the values so far in
   * `acc`: items are parsed left to right and the first failure wins.
   */
  function MapItems(f: ValueFn, acc: seq<Value>, items: seq<string>): (r: Parsed<seq<Value>>)
    ensures r.Success? ==> |r.value| == |acc| + |items|
    decreases |items|
  {
    if items == [] then Success(acc)
    else
      var v :- f(items[0]);
      MapItems(f, acc + [v], items[1..])
  }

  /**
   * The loop at config_to_json.py:134-141 with the entries so far in `acc`:
   * each item is cut at its first "=>" and its value parsed; an item
   * without "=>" stops the loop.
   */
  function TableEntries(f: ValueFn, acc: seq<Entry>, items: seq<string>): (r: Parsed<seq<Entry>>)
    decreases |items|
  {
    if items == [] then Success(acc)
    else
      match SplitEntry(items[0])
      case None => Failure(InvalidTableEntry(items[0]))
      case Some(p) =>
        var v :- f(p.value);
        TableEntries(f, Put(acc, p.key, v), items[1..])
  }

  /**
   * The loop at config_to_json.py:172-179 with the entries so far in `acc`:
   * an item with "=>" is a key and a value, whatever else it looks like;
   * otherwise a `table(...)` item is parsed as a table and merged in;
   * anything else stops the loop.
   */
  function StructureEntries(f: ValueFn, g: TableFn, acc: seq<Entry>, items: seq<string>): (r: Parsed<seq<Entry>>)
    decreases |items|
  {
    if items == [] then Success(acc)
    else
      match SplitEntry(items[0])
      case Some(p) =>
        var v :- f(p.value);
        StructureEntries(f, g, Put(acc, p.key, v), items[1..])
      case None =>
        if StartsWith(items[0], "table(") && EndsWith(items[0], ")") then
          var sub :- g(items[0]);
          StructureEntries(f, g, Merge(acc, sub), items[1..])
        else Failure(InvalidStructure(items[0]))
  }

  // The array loop

  /** One step of the array loop: an item that parses adds its value. */
  lemma ItemsStep(f: ValueFn, acc: seq<Value>, items: seq<string>)
    requires items != [] && f(items[0]).Success?
    ensures MapItems(f, acc, items) == MapItems(f, acc + [f(items[0]).value], items[1..])
  {
  }

  /** One step of the array loop: an item that fails ends it with its error. */
  lemma ItemsStepFails(f: ValueFn, acc: seq<Value>, items: seq<string>)
    requires items != [] && f(items[0]).Failure?
    ensures MapItems(f, acc, items) == Failure(f(items[0]).error)
  {
  }

  /** The steps above, at item `i` of the items. */
  lemma ItemsStepAt(f: ValueFn, acc: seq<Value>, items: seq<string>, i: nat)
    requires i < |items|
    ensures f(items[i]).Success? ==> MapItems(f, acc, items[i..]) == MapItems(f, acc + [f(items[i]).value], items[i + 1..])
    ensures f(items[i]).Failure? ==> MapItems(f, acc, items[i..]) == Failure(f(items[i]).error)
  {
    var rest := items[i..];
    assert rest[0] == items[i] && rest[1..] == items[i + 1..];
    if f(items[i]).Success? {
      ItemsStep(f, acc, rest);
    } else {
      ItemsStepFails(f, acc, rest);
    }
  }

  /** The array loop succeeds exactly when every item parses. */
  lemma {:induction false} ItemsSucceed(f: ValueFn, acc: seq<Value>, items: seq<string>)
    ensures MapItems(f, acc, items).Success? <==> forall i | 0 <= i < |items| :: f(items[i]).Success?
    decreases |items|
  {
    if items != [] {
      var rest := items[1..];
      assert forall i | 1 <= i < |items| :: items[i] == rest[i - 1];
      if f(items[0]).Success? {
        ItemsStep(f, acc, items);
        ItemsSucceed(f, acc + [f(items[0]).value], rest);
      } else {
        ItemsStepFails(f, acc, items);
      }
    }
  }

  /**
   * The values of the array loop are the items' values, in order, after
   * those already in `acc`.
   */
  lemma {:induction false} ItemsInOrder(f: ValueFn, acc: seq<Value>, items: seq<string>, r: seq<Value>)
    requires MapItems(f, acc, items) == Success(r)
    ensures r[..|acc|] == acc
    ensures forall i | 0 <= i < |items| :: f(items[i]) == Success(r[|acc| + i])
    decreases |items|
  {
    if items != [] {
      var rest := items[1..];
      if f(items[0]).Failure? {
        ItemsStepFails(f, acc, items);
      }
      var v := f(items[0]).value;
      ItemsStep(f, acc, items);
      ItemsInOrder(f, acc + [v], rest, r);
      assert r[..|acc| + 1] == acc + [v];
      assert r[..|acc|] == (acc + [v])[..|acc|];
      forall i | 1 <= i < |items| ensures f(items[i]) == Success(r[|acc| + i]) {
        assert items[i] == rest[i - 1];
      }
    }
  }

  /** From no values, the loop's values are the items' values, one for one. */
  lemma ItemsValues(f: ValueFn, items: seq<string>, vs: seq<Value>)
    requires MapItems(f, [], items) == Success(vs)
    ensures |vs| == |items|
    ensures forall i | 0 <= i < |items| :: f(items[i]) == Success(vs[i])
  {
    ItemsFromNone(f, [], items, vs);
  }

  lemma ItemsFromNone(f: ValueFn, none: seq<Value>, items: seq<string>, vs: seq<Value>)
    requires none == [] && MapItems(f, none, items) == Success(vs)
    ensures forall i | 0 <= i < |items| :: f(items[i]) == Success(vs[i])
  {
    ItemsInOrder(f, none, items, vs);
  }

  /**
   * The first failure wins: when the array loop fails, its error is the
   * error of an item before which every item parsed.
   */
  lemma {:induction false} ItemsFirstFailure(f: ValueFn, acc: seq<Value>, items: seq<string>) returns (i: nat)
    requires MapItems(f, acc, items).Failure?
    ensures i < |items| && f(items[i]) == Failure(MapItems(f, acc, items).error)
    ensures forall j | 0 <= j < i :: f(items[j]).Success?
    decreases |items|
  {
    var rest := items[1..];
    if f(items[0]).Failure? {
      ItemsStepFails(f, acc, items);
      i := 0;
    } else {
      ItemsStep(f, acc, items);
      var i1 := ItemsFirstFailure(f, acc + [f(items[0]).value], rest);
      i := i1 + 1;
      assert items[i] == rest[i1];
      forall j | 1 <= j < i ensures f(items[j]).Success? {
        assert items[j] == rest[j - 1];
      }
    }
  }

  // The table loop

  /** One step of the table loop: an item with "=>" whose value parses is written. */
  lemma TableStep(f: ValueFn, acc: seq<Entry>, items: seq<string>)
    requires items != [] && SplitEntry(items[0]).Some?
    requires f(SplitEntry(items[0]).value.value).Success?
    ensures var p := SplitEntry(items[0]).value;
      TableEntries(f, acc, items) == TableEntries(f, Put(acc, p.key, f(p.value).value), items[1..])
  {
  }

  /** One step of the table loop: an item without "=>" stops it. */
  lemma TableStepNoArrow(f: ValueFn, acc: seq<Entry>, items: seq<string>)
    requires items != [] && SplitEntry(items[0]).None?
    ensures TableEntries(f, acc, items) == Failure(InvalidTableEntry(items[0]))
  {
  }

  /** One step of the table loop: an entry whose value fails stops it with that failure. */
  lemma TableStepFails(f: ValueFn, acc: seq<Entry>, items: seq<string>)
    requires items != [] && SplitEntry(items[0]).Some?
    requires f(SplitEntry(items[0]).value.value).Failure?
    ensures TableEntries(f, acc, items) == Failure(f(SplitEntry(items[0]).value.value).error)
  {
  }

  /** The steps above, at item `i` of the items. */
  lemma TableStepAt(f: ValueFn, acc: seq<Entry>, items: seq<string>, i: nat)
    requires i < |items|
    ensures SplitEntry(items[i]).None? ==> TableEntries(f, acc, items[i..]) == Failure(InvalidTableEntry(items[i]))
    ensures SplitEntry(items[i]).Some? && f(SplitEntry(items[i]).value.value).Failure? ==>
      TableEntries(f, acc, items[i..]) == Failure(f(SplitEntry(items[i]).value.value).error)
    ensures SplitEntry(items[i]).Some? && f(SplitEntry(items[i]).value.value).Success? ==>
      var p := SplitEntry(items[i]).value;
      TableEntries(f, acc, items[i..]) == TableEntries(f, Put(acc, p.key, f(p.value).value), items[i + 1..])
  {
    var rest := items[i..];
    assert rest[0] == items[i] && rest[1..] == items[i + 1..];
    if SplitEntry(items[i]).None? {
      TableStepNoArrow(f, acc, rest);
    } else if f(SplitEntry(items[i]).value.value).Failure? {
      TableStepFails(f, acc, rest);
    } else {
      TableStep(f, acc, rest);
    }
  }

  /** A table that parses has "=>" in every one of its items. */
  lemma {:induction false} TableEntriesNeedArrows(f: ValueFn, acc: seq<Entry>, items: seq<string>)
    requires TableEntries(f, acc, items).Success?
    ensures forall i | 0 <= i < |items| :: SplitEntry(items[i]).Some?
    decreases |items|
  {
    if items != [] {
      if SplitEntry(items[0]).None? {
        TableStepNoArrow(f, acc, items);
      }
      var p := SplitEntry(items[0]).value;
      if f(p.value).Failure? {
        TableStepFails(f, acc, items);
      }
      TableStep(f, acc, items);
      TableEntriesNeedArrows(f, Put(acc, p.key, f(p.value).value), items[1..]);
      assert forall i | 1 <= i < |items| :: items[i] == items[1..][i - 1];
    }
  }

  /**
   * The table loop over `xs + ys` is the loop over `xs` and then, from the
   * entries it built, the loop over `ys`; a failure in `xs` is final.
   */
  lemma {:induction false} TableAppend(f: ValueFn, acc: seq<Entry>, xs: seq<string>, ys: seq<string>)
    ensures TableEntries(f, acc, xs + ys) == match TableEntries(f, acc, xs)
      case Success(t) => TableEntries(f, t, ys)
      case Failure(e) => Failure(e)
    decreases |xs|
  {
    if xs == [] {
      assert xs + ys == ys;
    } else {
      var items := xs + ys;
      assert items[0] == xs[0];
      assert items[1..] == xs[1..] + ys;
      match SplitEntry(xs[0])
      case None =>
        TableStepNoArrow(f, acc, items);
        TableStepNoArrow(f, acc, xs);
      case Some(p) =>
        if f(p.value).Success? {
          TableStep(f, acc, items);
          TableStep(f, acc, xs);
          TableAppend(f, Put(acc, p.key, f(p.value).value), xs[1..], ys);
        } else {
          TableStepFails(f, acc, items);
          TableStepFails(f, acc, xs);
        }
    }
  }

  /**
   * An item without "=>" ends the table with "Invalid table entry", naming
   * the item, once the items before it have built a table.
   */
  lemma EntryWithoutArrow(f: ValueFn, acc: seq<Entry>, items: seq<string>, i: nat)
    requires i < |items| && SplitEntry(items[i]).None?
    requires TableEntries(f, acc, items[..i]).Success?
    ensures TableEntries(f, acc, items) == Failure(InvalidTableEntry(items[i]))
  {
    CutAt(items, i);
    NoArrowAfter(f, acc, items[..i], items[i..]);
  }

  /** A list of items is those before `i` followed by those from `i` on, which start with the one at `i`. */
  lemma CutAt(items: seq<string>, i: nat)
    requires i < |items|
    ensures items == items[..i] + items[i..] && items[i..] != [] && items[i..][0] == items[i]
  {
  }

  /** The table loop reaching an item without "=>" stops there. */
  lemma NoArrowAfter(f: ValueFn, acc: seq<Entry>, pre: seq<string>, post: seq<string>)
    requires post != [] && SplitEntry(post[0]).None?
    requires TableEntries(f, acc, pre).Success?
    ensures TableEntries(f, acc, pre + post) == Failure(InvalidTableEntry(post[0]))
  {
    TableAppend(f, acc, pre, post);
    TableStepNoArrow(f, TableEntries(f, acc, pre).value, post);
  }

  /**
   * A key that no item of the rest of a table names keeps the entry it
   * had, or stays absent.
   */
  lemma {:induction false} TableKeepsOtherKeys(f: ValueFn, acc: seq<Entry>, items: seq<string>, k: string)
    requires TableEntries(f, acc, items).Success?
    requires forall i | 0 <= i < |items| :: SplitEntry(items[i]).Some? ==> SplitEntry(items[i]).value.key != k
    ensures Lookup(TableEntries(f, acc, items).value, k) == Lookup(acc, k)
    decreases |items|
  {
    if items != [] {
      FirstEntryParses(f, acc, items);
      var p := SplitEntry(items[0]).value;
      assert forall i | 0 <= i < |items[1..]| :: items[1..][i] == items[i + 1];
      TableStep(f, acc, items);
      TableKeepsOtherKeys(f, Put(acc, p.key, f(p.value).value), items[1..], k);
    }
  }

  /** The first item of a table that parses has "=>" and a value that parses. */
  lemma FirstEntryParses(f: ValueFn, acc: seq<Entry>, items: seq<string>)
    requires items != [] && TableEntries(f, acc, items).Success?
    ensures SplitEntry(items[0]).Some? && f(SplitEntry(items[0]).value.value).Success?
  {
    if SplitEntry(items[0]).None? {
      TableStepNoArrow(f, acc, items);
    } else if f(SplitEntry(items[0]).value.value).Failure? {
      TableStepFails(f, acc, items);
    }
  }

  /**
   * A later duplicate key overwrites the earlier value: in a table that
   * parses, a key holds the value of the last item that names it.
   */
  lemma LastEntryWins(f: ValueFn, acc: seq<Entry>, items: seq<string>, i: nat)
    requires TableEntries(f, acc, items).Success?
    requires i < |items| && SplitEntry(items[i]).Some?
    requires forall j | i < j < |items| :: SplitEntry(items[j]).Some? ==> SplitEntry(items[j]).value.key != SplitEntry(items[i]).value.key
    ensures f(SplitEntry(items[i]).value.value).Success?
    ensures Lookup(TableEntries(f, acc, items).value, SplitEntry(items[i]).value.key)
      == Some(f(SplitEntry(items[i]).value.value).value)
  {
    var pre := items[..i];
    var post := items[i..];
    var rest := items[i + 1..];
    assert items == pre + post;
    TableAppend(f, acc, pre, post);
    var t := TableEntries(f, acc, pre).value;
    assert post[0] == items[i] && post[1..] == rest;
    FirstEntryParses(f, t, post);
    var p := SplitEntry(items[i]).value;
    var v := f(p.value).value;
    TableStep(f, t, post);
    forall j | 0 <= j < |rest| ensures SplitEntry(rest[j]).Some? ==> SplitEntry(rest[j]).value.key != p.key {
      assert rest[j] == items[i + 1 + j];
    }
    TableKeepsOtherKeys(f, Put(t, p.key, v), rest, p.key);
  }

  // The structure loop

  /**
   * An item with "=>" is a key and a value at the top level, even when it
   * is written `table(...)`: a value that parses is written under its key.
   */
  lemma StructurePair(f: ValueFn, g: TableFn, acc: seq<Entry>, items: seq<string>)
    requires items != [] && SplitEntry(items[0]).Some?
    requires f(SplitEntry(items[0]).value.value).Success?
    ensures StructureEntries(f, g, acc, items)
      == StructureEntries(f, g, Put(acc, SplitEntry(items[0]).value.key, f(SplitEntry(items[0]).value.value).value), items[1..])
  {
  }

  /** An item with "=>" whose value fails stops the top level with that failure. */
  lemma StructurePairFails(f: ValueFn, g: TableFn, acc: seq<Entry>, items: seq<string>)
    requires items != [] && SplitEntry(items[0]).Some?
    requires f(SplitEntry(items[0]).value.value).Failure?
    ensures StructureEntries(f, g, acc, items) == Failure(f(SplitEntry(items[0]).value.value).error)
  {
  }

  /**
   * An item without "=>" that is written `table(...)` is parsed as a table
   * whose entries overwrite those already there.
   */
  lemma StructureMerge(f: ValueFn, g: TableFn, acc: seq<Entry>, items: seq<string>)
    requires items != [] && SplitEntry(items[0]).None?
    requires StartsWith(items[0], "table(") && EndsWith(items[0], ")")
    requires g(items[0]).Success?
    ensures StructureEntries(f, g, acc, items) == StructureEntries(f, g, Merge(acc, g(items[0]).value), items[1..])
  {
  }

  /** A `table(...)` item that does not parse stops the top level with its failure. */
  lemma StructureMergeFails(f: ValueFn, g: TableFn, acc: seq<Entry>, items: seq<string>)
    requires items != [] && SplitEntry(items[0]).None?
    requires StartsWith(items[0], "table(") && EndsWith(items[0], ")")
    requires g(items[0]).Failure?
    ensures StructureEntries(f, g, acc, items) == Failure(g(items[0]).error)
  {
  }

  /** Any other item stops the top level with "Invalid structure", naming the item. */
  lemma StructureInvalid(f: ValueFn, g: TableFn, acc: seq<Entry>, items: seq<string>)
    requires items != [] && SplitEntry(items[0]).None?
    requires !(StartsWith(items[0], "table(") && EndsWith(items[0], ")"))
    ensures StructureEntries(f, g, acc, items) == Failure(InvalidStructure(items[0]))
  {
  }

  /** The steps above, at item `i` of the items. */
  lemma StructureStepAt(f: ValueFn, g: TableFn, acc: seq<Entry>, items: seq<string>, i: nat)
    requires i < |items|
    ensures SplitEntry(items[i]).Some? && f(SplitEntry(items[i]).value.value).Failure? ==>
      StructureEntries(f, g, acc, items[i..]) == Failure(f(SplitEntry(items[i]).value.value).error)
    ensures SplitEntry(items[i]).Some? && f(SplitEntry(items[i]).value.value).Success? ==>
      var p := SplitEntry(items[i]).value;
      StructureEntries(f, g, acc, items[i..]) == StructureEntries(f, g, Put(acc, p.key, f(p.value).value), items[i + 1..])
    ensures SplitEntry(items[i]).None? && StartsWith(items[i], "table(") && EndsWith(items[i], ")") ==>
      StructureEntries(f, g, acc, items[i..]) ==
        if g(items[i]).Success? then StructureEntries(f, g, Merge(acc, g(items[i]).value), items[i + 1..])
        else Failure(g(items[i]).error)
    ensures SplitEntry(items[i]).None? && !(StartsWith(items[i], "table(") && EndsWith(items[i], ")")) ==>
      StructureEntries(f, g, acc, items[i..]) == Failure(InvalidStructure(items[i]))
  {
    var rest := items[i..];
    assert rest[0] == items[i] && rest[1..] == items[i + 1..];
    if SplitEntry(items[i]).Some? {
      if f(SplitEntry(items[i]).value.value).Failure? {
        StructurePairFails(f, g, acc, rest);
      } else {
        StructurePair(f, g, acc, rest);
      }
    } else if !(StartsWith(items[i], "table(") && EndsWith(items[i], ")")) {
      StructureInvalid(f, g, acc, rest);
    } else if g(items[i]).Failure? {
      StructureMergeFails(f, g, acc, rest);
    } else {
      StructureMerge(f, g, acc, rest);
    }
  }

  // Loops over parsers that agree on the items

  /** The array loop only looks at the items: two parsers that agree on them give one result. */
  lemma {:induction false} ItemsAgree(f: ValueFn, g: ValueFn, acc: seq<Value>, items: seq<string>)
    requires forall i | 0 <= i < |items| :: f(items[i]) == g(items[i])
    ensures MapItems(f, acc, items) == MapItems(g, acc, items)
    decreases |items|
  {
    if items != [] {
      assert forall i | 0 <= i < |items[1..]| :: items[1..][i] == items[i + 1];
      if f(items[0]).Success? {
        ItemsAgree(f, g, acc + [f(items[0]).value], items[1..]);
      }
    }
  }

  /** The table loop only looks at the value texts of the items. */
  lemma {:induction false} TableAgree(f: ValueFn, g: ValueFn, acc: seq<Entry>, items: seq<string>)
    requires forall i | 0 <= i < |items| && SplitEntry(items[i]).Some? ::
      f(SplitEntry(items[i]).value.value) == g(SplitEntry(items[i]).value.value)
    ensures TableEntries(f, acc, items) == TableEntries(g, acc, items)
    decreases |items|
  {
    if items != [] {
      assert forall i | 0 <= i < |items[1..]| :: items[1..][i] == items[i + 1];
      match SplitEntry(items[0])
      case None =>
      case Some(p) =>
        if f(p.value).Success? {
          TableAgree(f, g, Put(acc, p.key, f(p.value).value), items[1..]);
        }
    }
  }

  // Well-built results

  /**
   * The array loop gives well-built values when it starts from well-built
   * values and every value the parser gives an item is well built.
   */
  lemma ItemsBuilt(f: ValueFn, acc: seq<Value>, items: seq<string>)
    requires AllWellBuilt(acc) && MapItems(f, acc, items).Success?
    requires forall i | 0 <= i < |items| && f(items[i]).Success? :: WellBuilt(f(items[i]).value)
    ensures AllWellBuilt(MapItems(f, acc, items).value)
  {
    var r := MapItems(f, acc, items).value;
    ItemsInOrder(f, acc, items, r);
    forall j | 0 <= j < |r| ensures WellBuilt(r[j]) {
      if j < |acc| {
        assert r[j] == r[..|acc|][j];
      } else {
        assert f(items[j - |acc|]) == Success(r[|acc| + (j - |acc|)]);
      }
    }
  }

  /**
   * The table loop keeps each key once and builds well-built values when
   * it starts from a well-built table and every value the parser gives an
   * item's value text is well built.
   */
  lemma {:induction false} TableBuilt(f: ValueFn, acc: seq<Entry>, items: seq<string>)
    requires EntriesWellBuilt(acc) && TableEntries(f, acc, items).Success?
    requires forall i | 0 <= i < |items| && SplitEntry(items[i]).Some? && f(SplitEntry(items[i]).value.value).Success? ::
      WellBuilt(f(SplitEntry(items[i]).value.value).value)
    ensures EntriesWellBuilt(TableEntries(f, acc, items).value)
    decreases |items|
  {
    if items != [] {
      if SplitEntry(items[0]).None? {
        TableStepNoArrow(f, acc, items);
      } else if f(SplitEntry(items[0]).value.value).Failure? {
        TableStepFails(f, acc, items);
      } else {
        var p := SplitEntry(items[0]).value;
        var v := f(p.value).value;
        TableStep(f, acc, items);
        PutWellBuilt(acc, p.key, v);
        assert forall i | 0 <= i < |items[1..]| :: items[1..][i] == items[i + 1];
        TableBuilt(f, Put(acc, p.key, v), items[1..]);
      }
    }
  }

  /**
   * The top-level loop keeps each key once and builds well-built values
   * when it starts from a well-built table, every value the value parser
   * gives is well built and every table the table parser gives is.
   */
  lemma {:induction false} StructureBuilt(f: ValueFn, g: TableFn, acc: seq<Entry>, items: seq<string>)
    requires EntriesWellBuilt(acc) && StructureEntries(f, g, acc, items).Success?
    requires forall i | 0 <= i < |items| && SplitEntry(items[i]).Some? && f(SplitEntry(items[i]).value.value).Success? ::
      WellBuilt(f(SplitEntry(items[i]).value.value).value)
    requires forall i | 0 <= i < |items| && g(items[i]).Success? :: EntriesWellBuilt(g(items[i]).value)
    ensures EntriesWellBuilt(StructureEntries(f, g, acc, items).value)
    decreases |items|
  {
    if items != [] {
      var rest := items[1..];
      assert forall i | 0 <= i < |rest| :: rest[i] == items[i + 1];
      if SplitEntry(items[0]).Some? {
        if f(SplitEntry(items[0]).value.value).Failure? {
          StructurePairFails(f, g, acc, items);
        } else {
          var p := SplitEntry(items[0]).value;
          var v := f(p.value).value;
          StructurePair(f, g, acc, items);
          PutWellBuilt(acc, p.key, v);
          StructureBuilt(f, g, Put(acc, p.key, v), rest);
        }
      } else if !(StartsWith(items[0], "table(") && EndsWith(items[0], ")")) {
        StructureInvalid(f, g, acc, items);
      } else if g(items[0]).Failure? {
        StructureMergeFails(f, g, acc, items);
      } else {
        StructureMerge(f, g, acc, items);
        MergeWellBuilt(acc, g(items[0]).value);
        StructureBuilt(f, g, Merge(acc, g(items[0]).value), rest);
      }
    }
  }

  lemma PutWellBuilt(t: seq<Entry>, k: string, v: Value)
    ensures EntriesWellBuilt(t) && WellBuilt(v) ==> EntriesWellBuilt(Put(t, k, v))
  {
    if EntriesWellBuilt(t) && WellBuilt(v) {
      var r := Put(t, k, v);
      forall i | 0 <= i < |r| ensures WellBuilt(r[i].value) {
        LookupUnique(r, i);
        if r[i].key != k {
          assert Lookup(t, r[i].key) == Some(r[i].value);
          LookupFound(t, r[i].key);
        }
      }
    }
  }

  lemma MergeWellBuilt(t: seq<Entry>, u: seq<Entry>)
    ensures EntriesWellBuilt(t) && EntriesWellBuilt(u) ==> EntriesWellBuilt(Merge(t, u))
    decreases |u|
  {
    if u != [] && EntriesWellBuilt(t) && EntriesWellBuilt(u) {
      PutWellBuilt(t, u[0].key, u[0].value);
      assert EntriesWellBuilt(u[1..]) by {
        assert forall i | 0 <= i < |u[1..]| :: u[1..][i] == u[i + 1];
      }
      MergeWellBuilt(Put(t, u[0].key, u[0].value), u[1..]);
    }
  }

  /** A value found by `Lookup` is the value of some entry. */
  lemma {:induction false} LookupFound(t: seq<Entry>, k: string)
    requires Lookup(t, k).Some?
    ensures exists i | 0 <= i < |t| :: t[i].key == k && t[i].value == Lookup(t, k).value
  {
    if t[0].key != k {
      LookupFound(t[1..], k);
      var i :| 0 <= i < |t[1..]| && t[1..][i].key == k && t[1..][i].value == Lookup(t[1..], k).value;
      assert t[i + 1] == t[1..][i];
    }
  }
}
