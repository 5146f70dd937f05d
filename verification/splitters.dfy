/**
 * The three hand-written comma splitters of `_parse_array`,
 * `_parse_table` and `_parse_structure`. Each walks its text once, keeps a
 * `balance` counter of open brackets, and cuts at a comma only when the
 * counter is zero. They differ in two ways: the array splitter counts only
 * `(` `[` and `)` `]` while the other two also count `{` `}`, and only the
 * structure splitter drops an empty piece at a comma.
 *
 * All three are specified by one scan, `Scan`, whose state after a prefix
 * of the text is the pieces closed so far, the piece still open and the
 * counter.
 */
module Splitters {
  import opened Text

  /** The state of a splitter loop: closed pieces (raw), the open piece, `balance`. */
  datatype Cut = Cut(closed: seq<string>, open: string, depth: int)

  /** How a character moves the counter; `braces` says whether `{` `}` count too. */
  function Delta(c: char, braces: bool): int
  {
    if c == '(' || c == '[' || (braces && c == '{') then 1
    else if c == ')' || c == ']' || (braces && c == '}') then -1
    else 0
  }

  /**
   * One character read: a comma at depth zero closes the open piece and
   * starts an empty one; any other character, a comma inside brackets
   * included, joins the open piece and moves the counter.
   */
  function Next(st: Cut, c: char, braces: bool): Cut
  {
    if c == ',' && st.depth == 0 then Cut(st.closed + [st.open], [], st.depth)
    else Cut(st.closed, st.open + [c], st.depth + Delta(c, braces))
  }

  /** The state after reading all of `s` from the empty state. */
  function Scan(s: string, braces: bool): Cut
    decreases |s|
  {
    if s == [] then Cut([], [], 0) else Next(Scan(s[..|s| - 1], braces), s[|s| - 1], braces)
  }

  /** The counter after `s`: the sum of the moves, never checked, possibly negative. */
  function Depth(s: string, braces: bool): int
  {
    Scan(s, braces).depth
  }

  /** `''.join(current_item).strip()` for each piece, in order. */
  function StripAll(ps: seq<string>): (items: seq<string>)
    ensures |items| == |ps|
    decreases |ps|
  {
    if ps == [] then [] else StripAll(ps[..|ps| - 1]) + [Strip(ps[|ps| - 1])]
  }

  /** The stripped pieces that were not empty before stripping, in order. */
  function StripNonEmpty(ps: seq<string>): (items: seq<string>)
    ensures |items| <= |ps|
    decreases |ps|
  {
    if ps == [] then []
    else
      var rest := StripNonEmpty(ps[..|ps| - 1]);
      if ps[|ps| - 1] == [] then rest else rest + [Strip(ps[|ps| - 1])]
  }

  /** What the loop at config_to_json.py:93-105 leaves in `items`. */
  function ArrayItems(content: string): (items: seq<string>)
    ensures forall x | x in items :: |x| <= |content|
  {
    var st := Scan(content, false);
    ScanBounded(content, false);
    StripBounded(st.closed, |content|);
    StripAll(st.closed) + if st.open != [] then [Strip(st.open)] else []
  }

  /** What the loop at config_to_json.py:119-131 leaves in `items`. */
  function TableItems(content: string): (items: seq<string>)
    ensures forall x | x in items :: |x| <= |content|
  {
    var st := Scan(content, true);
    ScanBounded(content, true);
    StripBounded(st.closed, |content|);
    StripAll(st.closed) + if st.open != [] then [Strip(st.open)] else []
  }

  /** What the loop at config_to_json.py:157-170 leaves in `items`. */
  function StructureItems(text: string): (items: seq<string>)
    ensures forall x | x in items :: |x| <= |text|
  {
    var st := Scan(text, true);
    ScanBounded(text, true);
    StripBounded(st.closed, |text|);
    StripNonEmpty(st.closed) + if st.open != [] then [Strip(st.open)] else []
  }

  /** Closed pieces, each followed by its comma. */
  function Terminated(ps: seq<string>): string
    decreases |ps|
  {
    if ps == [] then [] else Terminated(ps[..|ps| - 1]) + ps[|ps| - 1] + [',']
  }

  /** No comma of `s` is read at depth zero. */
  predicate NoTopComma(s: string, braces: bool) {
    forall i | 0 <= i < |s| && s[i] == ',' :: Depth(s[..i], braces) != 0
  }

  /** Reading one more character is one step of the scan. */
  lemma ScanSnoc(s: string, c: char, braces: bool)
    ensures Scan(s + [c], braces) == Next(Scan(s, braces), c, braces)
  {
    var t := s + [c];
    assert t[..|t| - 1] == s && t[|t| - 1] == c;
  }

  /** No piece is longer than the text it was cut from. */
  lemma {:induction false} ScanBounded(s: string, braces: bool)
    ensures forall p | p in Scan(s, braces).closed :: |p| <= |s|
    ensures |Scan(s, braces).open| <= |s|
    decreases |s|
  {
    if s != [] {
      ScanBounded(s[..|s| - 1], braces);
    }
  }

  /** Stripping keeps every item within a bound that every piece keeps. */
  lemma {:induction false} StripBounded(ps: seq<string>, n: nat)
    requires forall p | p in ps :: |p| <= n
    ensures forall x | x in StripAll(ps) :: |x| <= n
    ensures forall x | x in StripNonEmpty(ps) :: |x| <= n
    decreases |ps|
  {
    if ps != [] {
      var init := ps[..|ps| - 1];
      assert forall p | p in init :: p in ps;
      StripBounded(init, n);
      assert ps[|ps| - 1] in ps;
    }
  }

  lemma StripAllSnoc(ps: seq<string>, p: string)
    ensures StripAll(ps + [p]) == StripAll(ps) + [Strip(p)]
  {
    assert (ps + [p])[..|ps|] == ps;
  }

  lemma StripNonEmptySnoc(ps: seq<string>, p: string)
    ensures StripNonEmpty(ps + [p]) == if p == [] then StripNonEmpty(ps) else StripNonEmpty(ps) + [Strip(p)]
  {
    assert (ps + [p])[..|ps|] == ps;
  }

  /** The counter is additive over concatenation (a comma never moves it). */
  lemma {:induction false} DepthAppend(a: string, b: string, braces: bool)
    ensures Depth(a + b, braces) == Depth(a, braces) + Depth(b, braces)
    decreases |b|
  {
    if b == [] {
      assert a + b == a;
    } else {
      var b' := b[..|b| - 1];
      var c := b[|b| - 1];
      assert a + b == (a + b') + [c];
      assert b == b' + [c];
      DepthAppend(a, b', braces);
      ScanSnoc(a + b', c, braces);
      ScanSnoc(b', c, braces);
    }
  }

  /**
   * Splitting loses nothing: every closed piece followed by its comma, then
   * the open piece, gives back the text read.
   */
  lemma {:induction false} ScanRoundTrip(s: string, braces: bool)
    ensures Terminated(Scan(s, braces).closed) + Scan(s, braces).open == s
    decreases |s|
  {
    if s != [] {
      var prefix := s[..|s| - 1];
      var c := s[|s| - 1];
      assert s == prefix + [c];
      var st := Scan(prefix, braces);
      ScanRoundTrip(prefix, braces);
      ScanSnoc(prefix, c, braces);
      if c == ',' && st.depth == 0 {
        var closed := st.closed + [st.open];
        assert closed[..|closed| - 1] == st.closed;
        assert Terminated(closed) == Terminated(st.closed) + st.open + [','];
      } else {
        assert Terminated(st.closed) + (st.open + [c]) == (Terminated(st.closed) + st.open) + [c];
      }
    }
  }

  /**
   * Text with no comma at depth zero is one piece, whatever its brackets:
   * commas inside brackets, or after an unmatched closing bracket, stay.
   */
  lemma {:induction false} WholePiece(s: string, braces: bool)
    requires NoTopComma(s, braces)
    ensures Scan(s, braces).closed == [] && Scan(s, braces).open == s
    decreases |s|
  {
    if s != [] {
      var prefix := s[..|s| - 1];
      var c := s[|s| - 1];
      assert NoTopComma(prefix, braces) by {
        forall i | 0 <= i < |prefix| && prefix[i] == ',' ensures Depth(prefix[..i], braces) != 0 {
          assert s[i] == ',' && s[..i] == prefix[..i];
        }
      }
      WholePiece(prefix, braces);
      assert s == prefix + [c];
      ScanSnoc(prefix, c, braces);
      if c == ',' {
        assert s[..|s| - 1] == prefix;
        assert Depth(prefix, braces) != 0;
      }
    }
  }

  /**
   * A comma read at depth zero is a cut: the scan of the text is the scan
   * of what precedes the comma, closed, followed by the scan of what comes after.
   */
  lemma {:induction false} TopCommaCuts(a: string, b: string, braces: bool)
    requires Depth(a, braces) == 0
    ensures Scan(a + [','] + b, braces) ==
      Cut(Scan(a, braces).closed + [Scan(a, braces).open] + Scan(b, braces).closed, Scan(b, braces).open, Scan(b, braces).depth)
    decreases |b|
  {
    var sa := Scan(a, braces);
    if b == [] {
      ScanSnoc(a, ',', braces);
      assert a + [','] + b == a + [','];
    } else {
      var b' := b[..|b| - 1];
      var c := b[|b| - 1];
      assert a + [','] + b == (a + [','] + b') + [c];
      assert b == b' + [c];
      TopCommaCuts(a, b', braces);
      ScanSnoc(a + [','] + b', c, braces);
      ScanSnoc(b', c, braces);
      var sb := Scan(b', braces);
      if c == ',' && sb.depth == 0 {
        assert sa.closed + [sa.open] + sb.closed + [sb.open] == sa.closed + [sa.open] + (sb.closed + [sb.open]);
      }
    }
  }

  /**
   * Characters that move no counter join the open piece, commas among
   * them included, as long as the counter is not zero where they are read.
   */
  lemma {:induction false} ScanFlat(p: string, c: string, braces: bool)
    requires forall ch | ch in c :: Delta(ch, braces) == 0
    requires Depth(p, braces) != 0 || ',' !in c
    ensures Scan(p + c, braces) == Cut(Scan(p, braces).closed, Scan(p, braces).open + c, Depth(p, braces))
    decreases |c|, 1
  {
    if c == [] {
      assert p + c == p;
    } else {
      ScanFlatLast(p, c, braces);
    }
  }

  /** The step of `ScanFlat`: its last character read after the others. */
  lemma {:induction false} ScanFlatLast(p: string, c: string, braces: bool)
    requires c != [] && forall ch | ch in c :: Delta(ch, braces) == 0
    requires Depth(p, braces) != 0 || ',' !in c
    ensures Scan(p + c, braces) == Cut(Scan(p, braces).closed, Scan(p, braces).open + c, Depth(p, braces))
    decreases |c|, 0
  {
    var c' := c[..|c| - 1];
    var x := c[|c| - 1];
    var st := Scan(p, braces);
    assert c == c' + [x];
    assert forall ch | ch in c' :: ch in c;
    assert x in c;
    ScanFlat(p, c', braces);
    ScanSnoc(p + c', x, braces);
    FlatStep(st, st.open + c', x, braces);
    assert st.open + c' + [x] == st.open + c;
    assert p + c == (p + c') + [x];
  }

  /** One character that moves no counter, read where it cannot cut, joins the open piece. */
  lemma FlatStep(st: Cut, o: string, x: char, braces: bool)
    requires Delta(x, braces) == 0 && (st.depth != 0 || x != ',')
    ensures Next(Cut(st.closed, o, st.depth), x, braces) == Cut(st.closed, o + [x], st.depth)
  {
  }

  /**
   * `name(content)`, with nothing in `name` or `content` that moves the
   * counter and no comma in `name`, is read as one open piece.
   */
  lemma CallItem(name: string, content: string)
    requires forall ch | ch in name :: Delta(ch, true) == 0 && ch != ','
    requires forall ch | ch in content :: Delta(ch, true) == 0
    ensures Scan(name + "(" + content + ")", true) == Cut([], name + "(" + content + ")", 0)
  {
    assert Scan([], true) == Cut([], [], 0);
    ScanFlat([], name, true);
    assert [] + name == name;
    ScanSnoc(name, '(', true);
    assert name + ['('] == name + "(";
    ScanFlat(name + "(", content, true);
    ScanSnoc(name + "(" + content, ')', true);
    assert name + "(" + content + [')'] == name + "(" + content + ")";
  }

  /** A first piece with nothing that moves the counter and no comma ends at the first comma. */
  lemma FirstItemBeforeComma(a: string, b: string)
    requires forall ch | ch in a :: Delta(ch, true) == 0 && ch != ','
    ensures TableItems(a + [','] + b) != [] && TableItems(a + [','] + b)[0] == Strip(a)
  {
    assert Scan([], true) == Cut([], [], 0);
    ScanFlat([], a, true);
    assert [] + a == a;
    TopCommaCuts(a, b, true);
    var closed := Scan(a + [','] + b, true).closed;
    assert closed[0] == a;
    assert StripAll(closed)[0] == Strip(a) by {
      StripAllFirst(closed);
    }
  }

  lemma {:induction false} StripAllFirst(ps: seq<string>)
    requires ps != []
    ensures StripAll(ps)[0] == Strip(ps[0])
    decreases |ps|
  {
    if |ps| > 1 {
      StripAllFirst(ps[..|ps| - 1]);
    }
  }

  /** A trailing comma adds no array item when the last item is not already empty. */
  lemma ArrayTrailingComma(content: string)
    requires Depth(content, false) == 0 && Scan(content, false).open != []
    ensures ArrayItems(content + [',']) == ArrayItems(content)
  {
    ScanSnoc(content, ',', false);
    StripAllSnoc(Scan(content, false).closed, Scan(content, false).open);
  }

  /** A trailing comma adds no table item when the last item is not already empty. */
  lemma TableTrailingComma(content: string)
    requires Depth(content, true) == 0 && Scan(content, true).open != []
    ensures TableItems(content + [',']) == TableItems(content)
  {
    ScanSnoc(content, ',', true);
    StripAllSnoc(Scan(content, true).closed, Scan(content, true).open);
  }

  /** A trailing comma never adds a structure item. */
  lemma StructureTrailingComma(text: string)
    requires Depth(text, true) == 0
    ensures StructureItems(text + [',']) == StructureItems(text)
  {
    ScanSnoc(text, ',', true);
    StripNonEmptySnoc(Scan(text, true).closed, Scan(text, true).open);
  }

  /** Two commas in a row at depth zero leave an empty piece between them. */
  lemma EmptyPieceBetween(a: string, b: string)
    requires NoTopComma(a, true) && Depth(a, true) == 0
    requires NoTopComma(b, true)
    ensures Scan(a + [','] + [','] + b, true) == Cut([a, []], b, Depth(b, true))
  {
    WholePiece(a, true);
    WholePiece(b, true);
    OnePieceEachSide(a, b);
  }

  lemma OnePieceEachSide(a: string, b: string)
    requires Scan(a, true) == Cut([], a, 0)
    requires Scan(b, true).closed == [] && Scan(b, true).open == b
    ensures Scan(a + [','] + [','] + b, true) == Cut([a, []], b, Depth(b, true))
  {
    CommaThenPiece(b);
    TopCommaCuts(a, [','] + b, true);
    TwoCommas(a, b);
  }

  /** A comma at the very start closes an empty piece. */
  lemma CommaThenPiece(b: string)
    requires Scan(b, true).closed == [] && Scan(b, true).open == b
    ensures Scan([','] + b, true) == Cut([[]], b, Depth(b, true))
  {
    ScanEmpty(true);
    TopCommaCuts([], b, true);
    LeadingComma(b);
  }

  lemma ScanEmpty(braces: bool)
    ensures Scan([], braces) == Cut([], [], 0)
  {
  }

  lemma LeadingComma(b: string)
    ensures [] + [','] + b == [','] + b
  {
  }

  lemma TwoCommas(a: string, b: string)
    ensures a + [','] + [','] + b == a + [','] + ([','] + b)
    ensures [] + [a] + [[]] == [a, []]
  {
  }

  /** Between two commas the table splitter keeps an empty item. */
  lemma TableKeepsEmptyItem(a: string, b: string)
    requires NoTopComma(a, true) && Depth(a, true) == 0
    requires b != [] && NoTopComma(b, true)
    ensures TableItems(a + [','] + [','] + b) == [Strip(a), [], Strip(b)]
  {
    EmptyPieceBetween(a, b);
    StripAllPair(a);
  }

  lemma StripAllPair(a: string)
    ensures StripAll([a, []]) == [Strip(a), []]
  {
    StripAllSnoc([a], []);
    StripAllSnoc([], a);
    assert [] + [a] == [a];
    assert [a] + [[]] == [a, []];
    assert Strip([]) == [];
  }

  /** Between two commas the structure splitter drops the empty piece. */
  lemma StructureDropsEmptyItem(a: string, b: string)
    requires a != [] && NoTopComma(a, true) && Depth(a, true) == 0
    requires b != [] && NoTopComma(b, true)
    ensures StructureItems(a + [','] + [','] + b) == [Strip(a), Strip(b)]
  {
    EmptyPieceBetween(a, b);
    StripNonEmptyPair(a);
  }

  lemma StripNonEmptyPair(a: string)
    requires a != []
    ensures StripNonEmpty([a, []]) == [Strip(a)]
  {
    StripNonEmptySnoc([a], []);
    StripNonEmptySnoc([], a);
    assert [] + [a] == [a];
    assert [a] + [[]] == [a, []];
  }

  /** Membership in the bracket strings of the table and structure splitters. */
  lemma OpenersClosers(c: char)
    ensures c in "([{" <==> c == '(' || c == '[' || c == '{'
    ensures c in ")]}" <==> c == ')' || c == ']' || c == '}'
  {
  }

  /** The array splitter: a loop that keeps `balance`, the open piece and the items. */
  method SplitArray(content: string) returns (items: seq<string>)
    ensures items == ArrayItems(content)
  {
    items := [];
    var current: string := [];
    var balance := 0;
    var i := 0;
    assert content[..0] == [];
    while i < |content|
      invariant 0 <= i <= |content|
      invariant Scan(content[..i], false) == Cut(Scan(content[..i], false).closed, current, balance)
      invariant items == StripAll(Scan(content[..i], false).closed)
    {
      var c := content[i];
      assert content[..i + 1] == content[..i] + [c];
      ScanSnoc(content[..i], c, false);
      if c == ',' && balance == 0 {
        StripAllSnoc(Scan(content[..i], false).closed, current);
        items := items + [Strip(current)];
        current := [];
      } else {
        current := current + [c];
        if c == '[' || c == '(' {
          balance := balance + 1;
        }
        if c == ']' || c == ')' {
          balance := balance - 1;
        }
      }
      i := i + 1;
    }
    assert content[..i] == content;
    if current != [] {
      items := items + [Strip(current)];
    }
  }

  /** The table splitter: as the array splitter, with `{` `}` counted too. */
  method SplitTable(content: string) returns (items: seq<string>)
    ensures items == TableItems(content)
  {
    items := [];
    var current: string := [];
    var balance := 0;
    var i := 0;
    assert content[..0] == [];
    while i < |content|
      invariant 0 <= i <= |content|
      invariant Scan(content[..i], true) == Cut(Scan(content[..i], true).closed, current, balance)
      invariant items == StripAll(Scan(content[..i], true).closed)
    {
      var c := content[i];
      assert content[..i + 1] == content[..i] + [c];
      ScanSnoc(content[..i], c, true);
      OpenersClosers(c);
      if c == ',' && balance == 0 {
        StripAllSnoc(Scan(content[..i], true).closed, current);
        items := items + [Strip(current)];
        current := [];
      } else {
        current := current + [c];
        if c in "([{" {
          balance := balance + 1;
        } else if c in ")]}" {
          balance := balance - 1;
        }
      }
      i := i + 1;
    }
    assert content[..i] == content;
    if current != [] {
      items := items + [Strip(current)];
    }
  }

  /**
   * The structure splitter: a comma at depth zero closes the open piece
   * only when that piece is not empty.
   */
  method SplitStructure(text: string) returns (items: seq<string>)
    ensures items == StructureItems(text)
  {
    items := [];
    var current: string := [];
    var balance := 0;
    var i := 0;
    assert text[..0] == [];
    while i < |text|
      invariant 0 <= i <= |text|
      invariant Scan(text[..i], true) == Cut(Scan(text[..i], true).closed, current, balance)
      invariant items == StripNonEmpty(Scan(text[..i], true).closed)
    {
      var c := text[i];
      assert text[..i + 1] == text[..i] + [c];
      ScanSnoc(text[..i], c, true);
      OpenersClosers(c);
      if c == ',' && balance == 0 {
        StripNonEmptySnoc(Scan(text[..i], true).closed, current);
        if current != [] {
          items := items + [Strip(current)];
          current := [];
        }
      } else {
        current := current + [c];
        if c in "([{" {
          balance := balance + 1;
        } else if c in ")]}" {
          balance := balance - 1;
        }
      }
      i := i + 1;
    }
    assert text[..i] == text;
    if current != [] {
      items := items + [Strip(current)];
    }
  }
}
