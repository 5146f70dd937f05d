/**
 * Whole runs of `ConfigParser.parse` on the configurations of the
 * repository's unit tests (tests.py), each with the table it returns or
 * the `SyntaxError` it raises.
 */
module Scenarios {
  import opened Wrappers
  import opened Text
  import opened Values
  import opened Scalars
  import opened Splitters
  import opened Declarations
  import opened Loops
  import opened Parsers

  /** `key1 : 42` has no "=>" and is not a table: "Invalid structure". */
  lemma ColonInsteadOfArrow(s: string, cs: Constants)
    requires s == "key1 : 42"
    ensures Parse(s, cs) == Run(Failure(InvalidStructure(s)), cs)
  {
    NoArrow(s);
    assert !StartsWith(s, "table(");
    OneInvalidItem(s, cs);
  }

  /** `table()` on its own merges an empty table into the empty result. */
  lemma EmptyTopLevelTable(s: string, cs: Constants)
    requires s == "table()"
    ensures Parse(s, cs) == Run(Success([]), cs)
  {
    EmptyTableText(s);
    NoArrow(s);
    OneTableItem(s, cs);
  }

  lemma EmptyTableText(s: string)
    requires s == "table()"
    ensures PlainItem(s) && '=' !in s
    ensures StartsWith(s, "table(") && EndsWith(s, ")") && Inner(s, 6, 1) == []
  {
  }

  /** `arr => []` binds `arr` to the empty array. */
  lemma EmptyArrayValue(s: string, cs: Constants)
    requires s == "arr => []"
    ensures Parse(s, cs) == Run(Success([Entry("arr", Arr([]))]), cs)
  {
    ArrayEntryText(s);
    EntryRoundTrip("arr", "[]");
    EmptyBrackets("[]", cs);
    OneEntry(s, cs, "arr", "[]", Arr([]));
  }

  lemma ArrayEntryText(s: string)
    requires s == "arr => []"
    ensures PlainItem(s) && s == "arr" + " => " + "[]"
  {
  }

  /** The text `[]` is the empty array. */
  lemma EmptyBrackets(t: string, cs: Constants)
    requires t == "[]"
    ensures ParseValue(t, cs) == Success(Arr([]))
  {
    StripUnchanged(t);
    assert Inner(t, 1, 1) == [];
  }

  /**
   * `table(key1, key2)`: a top-level table whose items have no "=>" fails
   * with "Invalid table entry" for its first item.
   */
  lemma TableOfBareWords(s: string, cs: Constants)
    requires s == "table(key1, key2)"
    ensures Parse(s, cs) == Run(Failure(InvalidTableEntry("key1")), cs)
  {
    BareWordsText(s);
    PlainText(s, cs);
    StripUnchanged(s);
    BareWordsOneItem(s);
    NoArrow(s);
    BareWordsTable(s, cs);
    StructureMergeFails(ValueParser(cs), TableParser(cs), [], [s]);
  }

  lemma BareWordsText(s: string)
    requires s == "table(key1, key2)"
    ensures ';' !in s && '#' !in s && 's' !in s && '=' !in s
    ensures !IsSpace(s[0]) && !IsSpace(s[|s| - 1])
    ensures StartsWith(s, "table(") && EndsWith(s, ")")
    ensures s == "table" + "(" + "key1, key2" + ")"
  {
    BareWordsAbsent(s);
    BareWordsEnds(s);
    BareWordsParts(s);
  }

  lemma BareWordsAbsent(s: string)
    requires s == "table(key1, key2)"
    ensures ';' !in s && '#' !in s && 's' !in s && '=' !in s
  {
  }

  lemma BareWordsEnds(s: string)
    requires s == "table(key1, key2)"
    ensures !IsSpace(s[0]) && !IsSpace(s[|s| - 1])
    ensures StartsWith(s, "table(") && EndsWith(s, ")")
  {
  }

  lemma BareWordsParts(s: string)
    requires s == "table(key1, key2)"
    ensures s == "table" + "(" + "key1, key2" + ")"
  {
  }

  /** The comma of `table(key1, key2)` is inside its parentheses: one top-level item. */
  lemma BareWordsOneItem(s: string)
    requires s == "table" + "(" + "key1, key2" + ")"
    requires !IsSpace(s[0]) && !IsSpace(s[|s| - 1])
    ensures StructureItems(s) == [s]
  {
    BareWordsChars();
    CallItem("table", "key1, key2");
    StripUnchanged(s);
  }

  lemma BareWordsChars()
    ensures forall ch | ch in "table" :: Delta(ch, true) == 0 && ch != ','
    ensures forall ch | ch in "key1, key2" :: Delta(ch, true) == 0
    ensures forall ch | ch in "key1" :: Delta(ch, true) == 0 && ch != ','
  {
  }

  /** The table `table(key1, key2)` fails on `key1`. */
  lemma BareWordsTable(s: string, cs: Constants)
    requires s == "table" + "(" + "key1, key2" + ")"
    ensures ParseTable(s, cs) == Failure(InvalidTableEntry("key1"))
  {
    var content := "key1, key2";
    assert s == "table(" + content + ")";
    NoArrow(content);
    StripUnchanged(content);
    TableFailsOnFirstItem(content, cs);
    BareWordsFirstItem(content);
  }

  lemma BareWordsFirstItem(content: string)
    requires content == "key1, key2"
    ensures TableItems(content) != [] && TableItems(content)[0] == "key1"
  {
    var a, b := "key1", " key2";
    BareWordsSplit(content, a, b);
    KeyOne(a);
    FirstItemBeforeComma(a, b);
  }

  lemma BareWordsSplit(content: string, a: string, b: string)
    requires content == "key1, key2" && a == "key1" && b == " key2"
    ensures content == a + [','] + b
  {
  }

  /** `key1` is flat, has no comma and no surrounding whitespace. */
  lemma KeyOne(a: string)
    requires a == "key1"
    ensures forall ch | ch in a :: Delta(ch, true) == 0 && ch != ','
    ensures Strip(a) == a
  {
    BareWordsChars();
    StripUnchanged(a);
  }

  /**
   * `set x = 5` then `key => @{+ x x}`, on a fresh parser: `x` is declared
   * as 5 and `key` is bound to 10.
   */
  lemma ConstantInExpression(s: string)
    requires s == "set x = 5\nkey => @{+ x x}"
    ensures Parse(s, map[]) == Run(Success([Entry("key", Int(10))]), map["x" := Int(5)])
  {
    var d := Declaration("x", "5");
    var rest := "\nkey => @{+ x x}";
    DeclarationOfX(s, d, rest);
    FiveIsFive();
    DeclarationThenText(d, rest, map[], Int(5));
    KeyLine(rest, map["x" := Int(5)]);
  }

  lemma DeclarationOfX(s: string, d: Declaration, rest: string)
    requires s == "set x = 5\nkey => @{+ x x}"
    requires d == Declaration("x", "5") && rest == "\nkey => @{+ x x}"
    ensures WellFormed(d) && s == Source(d) + rest && rest != [] && rest[0] == '\n'
    ensures ';' !in Source(d) + rest && '#' !in Source(d) + rest && 's' !in rest
    ensures map[][d.name := Int(5)] == map["x" := Int(5)]
  {
    XWellFormed(d);
    XSource(s, d, rest);
    XChars(s, rest);
  }

  lemma XWellFormed(d: Declaration)
    requires d == Declaration("x", "5")
    ensures WellFormed(d)
  {
  }

  lemma XSource(s: string, d: Declaration, rest: string)
    requires s == "set x = 5\nkey => @{+ x x}"
    requires d == Declaration("x", "5") && rest == "\nkey => @{+ x x}"
    ensures s == Source(d) + rest
  {
  }

  lemma XChars(s: string, rest: string)
    requires s == "set x = 5\nkey => @{+ x x}" && rest == "\nkey => @{+ x x}"
    ensures rest != [] && rest[0] == '\n'
    ensures ';' !in s && '#' !in s && 's' !in rest
  {
  }

  /** The line after the declaration binds `key` to 10 once `x` is 5. */
  lemma KeyLine(rest: string, cs: Constants)
    requires rest == "\nkey => @{+ x x}" && cs == map["x" := Int(5)]
    ensures ParseStructure(Strip(rest), cs) == Success([Entry("key", Int(10))])
  {
    var line := "key => @{+ x x}";
    KeyLineText(rest, line);
    StripPadded(line, "\n", []);
    EntryRoundTrip("key", "@{+ x x}");
    TwiceX(cs);
    OneEntryStructure(line, cs, "key", "@{+ x x}", Int(10));
  }

  lemma KeyLineText(rest: string, line: string)
    requires rest == "\nkey => @{+ x x}" && line == "key => @{+ x x}"
    ensures rest == "\n" + line + []
    ensures line != [] && ',' !in line && !IsSpace(line[0]) && !IsSpace(line[|line| - 1])
    ensures line == "key" + " => " + "@{+ x x}"
    ensures forall i | 0 <= i < |"\n"| :: IsSpace("\n"[i])
  {
  }

  /** The value text of `x` evaluates to 5. */
  lemma FiveIsFive()
    ensures Evaluate(Strip("5"), map[]) == Success(Int(5))
  {
    FiveText("5");
    EvaluateDigits("5", map[]);
  }

  lemma FiveText(s: string)
    requires s == "5"
    ensures Strip(s) == s && IsDigits(s) && DigitsValue(s) == 5
  {
    StripUnchanged(s);
    assert s[..|s| - 1] == [];
  }

  /** `@{+ x x}` with `x` at 5 is 10. */
  lemma TwiceX(cs: Constants)
    requires cs == map["x" := Int(5)]
    ensures ParseValue("@{+ x x}", cs) == Success(Int(10))
  {
    EvaluateKnownName("x", cs);
    assert "@{" + "+" + " " + "x" + " " + "x" + "}" == "@{+ x x}";
    PlusOfIntegers("+", "x", "x", 5, 5, cs);
    StripUnchanged("@{+ x x}");
    ScalarText("@{+ x x}", cs);
  }

  /** A text without `=` has no "=>". */
  lemma NoArrow(s: string)
    requires '=' !in s
    ensures SplitEntry(s).None?
  {
    forall j ensures !ArrowAt(s, j) {
      if 0 <= j < |s| { assert s[j] in s; }
    }
  }

  /** `@{+ 1 2 3}` is 6: `+` adds any number of integer arguments. */
  lemma SumOfThree(e: string, cs: Constants)
    requires e == "@{+ 1 2 3}" && e !in cs
    ensures ParseValue(e, cs) == Success(Int(6))
  {
    var c, w0, w1, w2, w3 := "+ 1 2 3", "+", "1", "2", "3";
    SumText(e, c, w0, w1, w2, w3);
    OneTwoThree(w1, w2, w3, cs);
    SumOfWords(c, w0, w1, w2, w3, cs);
    BracedText(c, cs);
    StripUnchanged(e);
    ScalarText(e, cs);
  }

  /** The words `1`, `2` and `3` evaluate to their integers. */
  lemma OneTwoThree(w1: string, w2: string, w3: string, cs: Constants)
    requires w1 == "1" && w2 == "2" && w3 == "3"
    ensures Evaluate(w1, cs) == Success(Int(1))
    ensures Evaluate(w2, cs) == Success(Int(2))
    ensures Evaluate(w3, cs) == Success(Int(3))
  {
    DigitWord(w1, 1, cs);
    DigitWord(w2, 2, cs);
    DigitWord(w3, 3, cs);
  }

  /** `+` over three words that evaluate to 1, 2 and 3 is 6. */
  lemma SumOfWords(c: string, w0: string, w1: string, w2: string, w3: string, cs: Constants)
    requires w0 == "+" && c == w0 + [' '] + (w1 + [' '] + (w2 + [' '] + w3))
    requires w1 != [] && NoSpace(w1) && w2 != [] && NoSpace(w2) && w3 != [] && NoSpace(w3)
    requires Evaluate(w1, cs) == Success(Int(1))
    requires Evaluate(w2, cs) == Success(Int(2))
    requires Evaluate(w3, cs) == Success(Int(3))
    ensures EvaluateExpression(c, cs) == Success(Int(6))
  {
    FourWords(w0, w1, w2, w3);
    var ws, vs := [w1, w2, w3], [Int(1), Int(2), Int(3)];
    assert Words(c) == ["+"] + ws;
    forall i | 0 <= i < |ws|
      ensures vs[i].Int? && Evaluate(ws[i], cs) == Success(vs[i])
    {
      if i == 0 {
        assert ws[i] == w1;
      } else if i == 1 {
        assert ws[i] == w2;
      } else {
        assert ws[i] == w3;
      }
    }
    SumExpression(c, ws, vs, cs);
    SixOfOneTwoThree(vs);
  }

  lemma SixOfOneTwoThree(vs: seq<Value>)
    requires vs == [Int(1), Int(2), Int(3)]
    ensures IntSum(vs) == 6
  {
    var v2, v3 := vs[1..], vs[1..][1..];
    assert v2 == [Int(2), Int(3)] && v3 == [Int(3)] && v3[1..] == [];
    assert IntSum(v3) == 3 + IntSum(v3[1..]) == 3;
    assert IntSum(v2) == 2 + IntSum(v3) == 5;
  }

  lemma SumText(e: string, c: string, w0: string, w1: string, w2: string, w3: string)
    requires e == "@{+ 1 2 3}" && c == "+ 1 2 3"
    requires w0 == "+" && w1 == "1" && w2 == "2" && w3 == "3"
    ensures e == "@{" + c + "}" && c == w0 + [' '] + (w1 + [' '] + (w2 + [' '] + w3))
    ensures NoSpace(w1) && NoSpace(w2) && NoSpace(w3)
    ensures !IsSpace(c[0]) && !IsSpace(c[|c| - 1]) && !IsSpace(e[0]) && !IsSpace(e[|e| - 1])
    ensures e[0] != '[' && e[0] != 't'
  {
  }

  /** Four words separated by single spaces split back into those words. */
  lemma {:induction false} FourWords(w0: string, w1: string, w2: string, w3: string)
    requires w0 != [] && NoSpace(w0) && w1 != [] && NoSpace(w1)
    requires w2 != [] && NoSpace(w2) && w3 != [] && NoSpace(w3)
    ensures Words(w0 + [' '] + (w1 + [' '] + (w2 + [' '] + w3))) == [w0] + [w1, w2, w3]
  {
    var r2 := w2 + [' '] + w3;
    var r1 := w1 + [' '] + r2;
    WordsSingle(w3);
    WordsCons(w2, ' ', w3);
    assert Words(r2) == [w2, w3];
    WordsCons(w1, ' ', r2);
    assert Words(r1) == [w1, w2, w3];
    WordsCons(w0, ' ', r1);
  }

  /** A one-digit word evaluates to its digit. */
  lemma DigitWord(w: string, n: nat, cs: Constants)
    requires |w| == 1 && IsDigit(w[0]) && n == w[0] as int - '0' as int
    ensures Evaluate(w, cs) == Success(Int(n))
  {
    EvaluateDigits(w, cs);
    assert w[..0] == [];
  }

  /** `@{sqrt -4.0}` fails: `math.sqrt` rejects a negative float with ValueError. */
  lemma SqrtOfMinusFour(e: string, cs: Constants)
    requires e == "@{sqrt -4.0}" && e !in cs
    ensures ParseValue(e, cs) == Failure(OperandError)
  {
    var op, x, y := "sqrt", "4", "0";
    MinusFourText(e, op, x, y);
    SqrtOfNegativeDecimal(op, x, y, cs);
    StripUnchanged(e);
    ScalarText(e, cs);
  }

  lemma MinusFourText(e: string, op: string, x: string, y: string)
    requires e == "@{sqrt -4.0}" && op == "sqrt" && x == "4" && y == "0"
    ensures e == "@{" + op + " " + ("-" + x + "." + y) + "}"
    ensures IsDigits(x) && IsDigits(y) && DigitsValue(x) > 0
    ensures !IsSpace(e[0]) && !IsSpace(e[|e| - 1]) && e[0] != '[' && e[0] != 't'
  {
    assert x[..0] == [];
  }
}
