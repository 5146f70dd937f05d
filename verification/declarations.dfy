/**
 * `ConfigParser._parse_constants`: the pattern `set ([a-zA-Z_]+) = (.+)` is
 * searched for, unanchored, from left to right; each match declares a
 * constant, evaluated in text order against the constants declared so
 * far, and every match is then cut out of the text.
 *
 * The search is a scanner over positions: at each position either a
 * declaration starts there (and the search resumes after it) or the
 * character is kept (and the search resumes at the next position). The
 * same sequence of matches serves `finditer` and `sub`.
 */
module Declarations {
  import opened Wrappers
  import opened Text
  import opened Values
  import opened Scalars

  /** `[a-zA-Z_]`. */
  predicate IsNameChar(c: char) {
    ('a' <= c <= 'z') || ('A' <= c <= 'Z') || c == '_'
  }

  /** One match of the pattern: the two groups. */
  datatype Declaration = Declaration(name: string, value: string)

  /** What the two groups can hold: `[a-zA-Z_]+` and `.+` (no line feed). */
  predicate WellFormed(d: Declaration) {
    && d.name != []
    && (forall i | 0 <= i < |d.name| :: IsNameChar(d.name[i]))
    && d.value != []
    && '\n' !in d.value
  }

  /** The text a match covers. */
  function Source(d: Declaration): string {
    "set " + d.name + " = " + d.value
  }

  /**
   * The pattern tried at the start of `t`. The pattern looks only forward,
   * so trying it at index `p` of a text is trying it at the start of the
   * text's suffix from `p`.
   */
  function MatchStart(t: string): (r: Option<Declaration>)
    ensures r.Some? ==> |Source(r.value)| <= |t|
  {
    MatchFrom(t, 0)
  }

  /**
   * The pattern's matcher at index `i` of `t`, read left to right: the four
   * characters of "set ", then the longest run of name characters (a
   * shorter run could not be followed by a space), then " = " and a value
   * running to the end of the line, which must not be empty.
   */
  function MatchFrom(t: string, i: nat): (r: Option<Declaration>)
    requires i <= |t|
    ensures r.Some? ==> |Source(r.value)| <= |t|
    decreases |t| - i
  {
    if i < 4 then
      if i < |t| && t[i] == "set "[i] then MatchFrom(t, i + 1) else None
    else if i < |t| && IsNameChar(t[i]) then MatchFrom(t, i + 1)
    else if 4 < i && i + 4 <= |t| && t[i..i + 3] == " = " && t[i + 3] != '\n' then
      Some(Declaration(t[4..i], t[i + 3..LineEnd(t, i + 3)]))
    else None
  }

  /**
   * What a match covers: the two groups have the pattern's shape, the text
   * starts with the declaration's source, and the line ends right after it.
   */
  lemma MatchShape(t: string)
    requires MatchStart(t).Some?
    ensures var d := MatchStart(t).value;
      && WellFormed(d)
      && t[..|Source(d)|] == Source(d)
      && (|Source(d)| == |t| || t[|Source(d)|] == '\n')
  {
    MatchFromShape(t, 0);
  }

  /** The shape of a match, from any point of the matcher that the text has reached. */
  lemma {:induction false} MatchFromShape(t: string, i: nat)
    requires i <= |t| && MatchFrom(t, i).Some?
    requires forall j | 0 <= j < i && j < 4 :: t[j] == "set "[j]
    requires forall j | 4 <= j < i :: IsNameChar(t[j])
    ensures var d := MatchFrom(t, i).value;
      && WellFormed(d)
      && t[..|Source(d)|] == Source(d)
      && (|Source(d)| == |t| || t[|Source(d)|] == '\n')
    decreases |t| - i
  {
    if i < 4 || (i < |t| && IsNameChar(t[i])) {
      MatchFromShape(t, i + 1);
    } else {
      MatchEndShape(t, i);
    }
  }

  /** The shape of the match the matcher returns once the name run ends at `i`. */
  lemma MatchEndShape(t: string, i: nat)
    requires 4 < i && i + 4 <= |t| && t[i..i + 3] == " = " && t[i + 3] != '\n'
    requires forall j | 0 <= j < 4 :: t[j] == "set "[j]
    requires forall j | 4 <= j < i :: IsNameChar(t[j])
    ensures var d := Declaration(t[4..i], t[i + 3..LineEnd(t, i + 3)]);
      && WellFormed(d)
      && t[..|Source(d)|] == Source(d)
      && (|Source(d)| == |t| || t[|Source(d)|] == '\n')
  {
    var e := LineEnd(t, i + 3);
    var d := Declaration(t[4..i], t[i + 3..e]);
    assert t[..4] == "set ";
    assert t[..e] == t[..4] + t[4..i] + t[i..i + 3] + t[i + 3..e];
    assert '\n' !in d.value by {
      assert forall j | 0 <= j < |d.value| :: d.value[j] == t[i + 3 + j];
    }
    assert forall j | 0 <= j < |d.name| :: d.name[j] == t[4 + j];
  }

  /** Where each part of a declaration sits in its text. */
  lemma SourceLayout(d: Declaration, rest: string)
    ensures var t := Source(d) + rest; var n := |d.name|; var m := 7 + n + |d.value|;
      && |t| == m + |rest|
      && t[..4] == "set " && t[4..4 + n] == d.name && t[4 + n..7 + n] == " = "
      && t[7 + n..m] == d.value && t[m..] == rest
  {
    var t := Source(d) + rest;
    var n := |d.name|;
    assert t == "set " + d.name + " = " + d.value + rest;
  }

  /** On a declaration's source, the matcher reads "set " and the name without stopping. */
  lemma {:induction false} ScanToNameEnd(d: Declaration, rest: string, i: nat)
    requires WellFormed(d) && i <= 4 + |d.name|
    ensures MatchFrom(Source(d) + rest, i) == MatchFrom(Source(d) + rest, 4 + |d.name|)
    decreases 4 + |d.name| - i
  {
    if i < 4 + |d.name| {
      var t := Source(d) + rest;
      SourceLayout(d, rest);
      if i < 4 {
        assert t[i] == t[..4][i];
      } else {
        assert t[i] == d.name[i - 4];
      }
      ScanToNameEnd(d, rest, i + 1);
    }
  }

  /** At the end of the name the matcher reads " = " and the value up to the end of its line. */
  lemma NameEndMatch(d: Declaration, rest: string)
    requires WellFormed(d)
    ensures var t := Source(d) + rest; var q := 4 + |d.name|;
      MatchFrom(t, q) == Some(Declaration(d.name, t[q + 3..LineEnd(t, q + 3)]))
  {
    var t := Source(d) + rest;
    var q := 4 + |d.name|;
    SourceLayout(d, rest);
    assert t[q] == t[q..q + 3][0];
    assert t[q + 3] == d.value[0];
  }

  /**
   * A declaration at the start of a text is always matched there, whatever
   * follows it on its line (the value then runs further).
   */
  lemma MatchesAnyExtension(d: Declaration, rest: string)
    requires WellFormed(d)
    ensures MatchStart(Source(d) + rest).Some?
  {
    ScanToNameEnd(d, rest, 0);
    NameEndMatch(d, rest);
  }

  /**
   * A declaration that ends its line is matched exactly: the scanner finds
   * this name and this value, no more and no less.
   */
  lemma MatchesDeclaration(d: Declaration, rest: string)
    requires WellFormed(d)
    requires rest == [] || rest[0] == '\n'
    ensures MatchStart(Source(d) + rest) == Some(d)
  {
    var t := Source(d) + rest;
    var n := |d.name|;
    var m := 7 + n + |d.value|;
    ScanToNameEnd(d, rest, 0);
    NameEndMatch(d, rest);
    SourceLayout(d, rest);
    assert LineEnd(t, 7 + n) == m by {
      assert forall j | 7 + n <= j < m :: t[j] == d.value[j - 7 - n];
      assert m < |t| ==> t[m] == rest[0];
      LineEndAt(t, 7 + n, m);
    }
  }

  lemma {:induction false} LineEndAt(t: string, i: nat, e: nat)
    requires i <= e <= |t|
    requires forall j | i <= j < e :: t[j] != '\n'
    requires e == |t| || t[e] == '\n'
    ensures LineEnd(t, i) == e
    decreases e - i
  {
    if i < e {
      LineEndAt(t, i + 1, e);
    }
  }

  /** The text split into kept characters and declarations. */
  datatype Segment = Kept(c: char) | Declared(d: Declaration)

  /** The scan from index `p` on. */
  function SegmentsFrom(s: string, p: nat): seq<Segment>
    requires p <= |s|
    decreases |s| - p
  {
    if p == |s| then []
    else
      match MatchStart(s[p..])
      case Some(d) => [Declared(d)] + SegmentsFrom(s, p + |Source(d)|)
      case None => [Kept(s[p])] + SegmentsFrom(s, p + 1)
  }

  function Segments(s: string): seq<Segment> {
    SegmentsFrom(s, 0)
  }

  /** The text the segments came from. */
  function Flatten(segs: seq<Segment>): string
  {
    if segs == [] then []
    else
      (match segs[0] case Kept(c) => [c] case Declared(d) => Source(d)) + Flatten(segs[1..])
  }

  /** `set_pattern.sub("", text)`: the text with every declaration cut out. */
  function KeptText(segs: seq<Segment>): string
  {
    if segs == [] then []
    else (match segs[0] case Kept(c) => [c] case Declared(_) => []) + KeptText(segs[1..])
  }

  /** `finditer`: the declarations, in text order. */
  function Decls(segs: seq<Segment>): seq<Declaration>
  {
    if segs == [] then []
    else (match segs[0] case Kept(_) => [] case Declared(d) => [d]) + Decls(segs[1..])
  }

  /** What the loop at config_to_json.py:31-33 leaves behind. */
  datatype Outcome = Outcome(constants: Constants, error: Option<Error>)

  /**
   * The declarations evaluated in order, each against the constants declared
   * before it; the first failure stops the loop, with the constants declared
   * up to that point kept.
   */
  function Declare(cs: Constants, ds: seq<Declaration>): (r: Outcome)
    ensures cs.Keys <= r.constants.Keys
    ensures AllScalar(cs) ==> AllScalar(r.constants)
    ensures r.error.None? ==> r.constants.Keys == cs.Keys + set i | 0 <= i < |ds| :: ds[i].name
    decreases |ds|
  {
    if ds == [] then Outcome(cs, None)
    else
      match Evaluate(Strip(ds[0].value), cs)
      case Failure(e) => Outcome(cs, Some(e))
      case Success(v) =>
        assert AllScalar(cs) ==> AllScalar(cs[ds[0].name := v]);
        var r := Declare(cs[ds[0].name := v], ds[1..]);
        NamesCons(ds);
        r
  }

  /** The names of a list of declarations: the first one's and the rest's. */
  lemma NamesCons(ds: seq<Declaration>)
    requires ds != []
    ensures (set i | 0 <= i < |ds| :: ds[i].name) == {ds[0].name} + set i | 0 <= i < |ds[1..]| :: ds[1..][i].name
  {
    var names := set i | 0 <= i < |ds| :: ds[i].name;
    var later := set i | 0 <= i < |ds[1..]| :: ds[1..][i].name;
    forall k | k in names ensures k in {ds[0].name} + later {
      var i :| 0 <= i < |ds| && ds[i].name == k;
      if i > 0 { assert ds[1..][i - 1].name == k; }
    }
  }

  /** `_parse_constants` as a function: the new constants and the text left. */
  function ParseConstants(text: string, cs: Constants): (r: (Outcome, string))
    ensures cs.Keys <= r.0.constants.Keys
    ensures AllScalar(cs) ==> AllScalar(r.0.constants)
  {
    var segs := Segments(text);
    (Declare(cs, Decls(segs)), KeptText(segs))
  }

  /**
   * The scan loses nothing: declarations and kept characters, put back in
   * order, give back the text.
   */
  lemma {:induction false} SegmentsRoundTrip(s: string, p: nat)
    requires p <= |s|
    ensures Flatten(SegmentsFrom(s, p)) == s[p..]
    decreases |s| - p
  {
    if p < |s| {
      match MatchStart(s[p..])
      case Some(d) =>
        SegmentsRoundTrip(s, p + |Source(d)|);
        RoundTripDeclared(s, p, d);
      case None =>
        SegmentsRoundTrip(s, p + 1);
        RoundTripKept(s, p);
    }
  }

  lemma FlattenDeclared(d: Declaration, rest: seq<Segment>)
    ensures Flatten([Declared(d)] + rest) == Source(d) + Flatten(rest)
  {
    assert ([Declared(d)] + rest)[1..] == rest;
  }

  lemma FlattenKept(c: char, rest: seq<Segment>)
    ensures Flatten([Kept(c)] + rest) == [c] + Flatten(rest)
  {
    assert ([Kept(c)] + rest)[1..] == rest;
  }

  /** The round trip over a declaration: its source, then the rest. */
  lemma RoundTripDeclared(s: string, p: nat, d: Declaration)
    requires p < |s| && MatchStart(s[p..]) == Some(d)
    requires Flatten(SegmentsFrom(s, p + |Source(d)|)) == s[p + |Source(d)|..]
    ensures Flatten(SegmentsFrom(s, p)) == s[p..]
  {
    var e := p + |Source(d)|;
    SourceAt(s, p, d);
    SegmentsAtDeclaration(s, p, d);
    FlattenDeclared(d, SegmentsFrom(s, e));
    JoinAt(s, p, e, Source(d), Flatten(SegmentsFrom(s, e)));
  }

  /** A declaration found at `p` is the text from `p` up to its length. */
  lemma SourceAt(s: string, p: nat, d: Declaration)
    requires p < |s| && MatchStart(s[p..]) == Some(d)
    ensures p + |Source(d)| <= |s| && s[p..p + |Source(d)|] == Source(d)
  {
    MatchShape(s[p..]);
    assert s[p..p + |Source(d)|] == s[p..][..|Source(d)|];
  }

  /** The text from `p` is its part up to `e` followed by the part from `e`. */
  lemma JoinAt(s: string, p: nat, e: nat, a: string, b: string)
    requires p <= e <= |s| && a == s[p..e] && b == s[e..]
    ensures a + b == s[p..]
  {
  }

  /** The round trip over a kept character: the character, then the rest. */
  lemma RoundTripKept(s: string, p: nat)
    requires p < |s| && MatchStart(s[p..]).None?
    requires Flatten(SegmentsFrom(s, p + 1)) == s[p + 1..]
    ensures Flatten(SegmentsFrom(s, p)) == s[p..]
  {
    SegmentsAtKept(s, p);
    FlattenKept(s[p], SegmentsFrom(s, p + 1));
    assert s[p..] == [s[p]] + s[p + 1..];
  }

  /** A declaration never spans a line feed. */
  lemma SourceOneLine(d: Declaration)
    requires WellFormed(d)
    ensures '\n' !in Source(d)
  {
    SourceLayout(d, []);
    var t := Source(d);
    var n := |d.name|;
    forall j | 0 <= j < |t| ensures t[j] != '\n' {
      if j < 4 {
        assert t[j] == t[..4][j];
      } else if j < 4 + n {
        assert t[j] == d.name[j - 4];
      } else if j < 7 + n {
        assert t[j] == t[4 + n..7 + n][j - 4 - n];
      } else {
        assert t[j] == d.value[j - 7 - n];
      }
    }
  }

  /** After a cut-out declaration, what is kept starts a new line or is empty. */
  lemma KeptAfterDeclaration(s: string, e: nat)
    requires e <= |s| && (e == |s| || s[e] == '\n')
    ensures KeptText(SegmentsFrom(s, e)) == [] || KeptText(SegmentsFrom(s, e))[0] == '\n'
  {
    if e < |s| {
      assert MatchStart(s[e..]).None? by {
        assert s[e..][0] == '\n';
      }
      KeptStep(s, e);
    }
  }

  lemma KeptDeclared(d: Declaration, rest: seq<Segment>)
    ensures KeptText([Declared(d)] + rest) == KeptText(rest)
  {
    assert ([Declared(d)] + rest)[1..] == rest;
  }

  lemma KeptKept(c: char, rest: seq<Segment>)
    ensures KeptText([Kept(c)] + rest) == [c] + KeptText(rest)
  {
    assert ([Kept(c)] + rest)[1..] == rest;
  }

  /** One step of `sub`: a declaration at `p` is dropped. */
  lemma DroppedStep(s: string, p: nat, d: Declaration)
    requires p < |s| && MatchStart(s[p..]) == Some(d)
    ensures KeptText(SegmentsFrom(s, p)) == KeptText(SegmentsFrom(s, p + |Source(d)|))
  {
    SegmentsAtDeclaration(s, p, d);
    KeptDeclared(d, SegmentsFrom(s, p + |Source(d)|));
  }

  /** One step of `sub`: a character where no declaration starts is kept. */
  lemma KeptStep(s: string, p: nat)
    requires p < |s| && MatchStart(s[p..]).None?
    ensures KeptText(SegmentsFrom(s, p)) == [s[p]] + KeptText(SegmentsFrom(s, p + 1))
  {
    SegmentsAtKept(s, p);
    KeptKept(s[p], SegmentsFrom(s, p + 1));
  }

  /** A declaration found at `p` ends at the end of the text or of its line. */
  lemma DeclarationEnds(s: string, p: nat, d: Declaration)
    requires p < |s| && MatchStart(s[p..]) == Some(d)
    ensures p + |Source(d)| <= |s|
    ensures p + |Source(d)| == |s| || s[p + |Source(d)|] == '\n'
  {
    MatchShape(s[p..]);
  }

  /** A declaration at `p` is followed by a line feed or the end of the text. */
  lemma KeptAtDeclaration(s: string, p: nat)
    requires p < |s| && MatchStart(s[p..]).Some?
    ensures KeptText(SegmentsFrom(s, p)) == [] || KeptText(SegmentsFrom(s, p))[0] == '\n'
  {
    var d := MatchStart(s[p..]).value;
    DeclarationEnds(s, p, d);
    KeptAfterDeclaration(s, p + |Source(d)|);
    DroppedStep(s, p, d);
  }

  /** `line` is the whole first line of `k`: a prefix without a line feed that ends where the line does. */
  predicate FirstLine(k: string, line: string) {
    && |line| <= |k|
    && k[..|line|] == line
    && '\n' !in line
    && (|line| == |k| || k[|line|] == '\n')
  }

  /**
   * The first line of what `sub` leaves from index `p` on is the first `n`
   * characters of the text from `p`.
   */
  lemma {:induction false} KeptLine(s: string, p: nat) returns (n: nat)
    requires p <= |s|
    ensures p + n <= |s| && FirstLine(KeptText(SegmentsFrom(s, p)), s[p..p + n])
    decreases |s| - p, 2
  {
    if p == |s| {
      n := 0;
      LineBreakFirst(KeptText(SegmentsFrom(s, p)), s[p..p + n]);
    } else if MatchStart(s[p..]).Some? {
      KeptAtDeclaration(s, p);
      n := 0;
      LineBreakFirst(KeptText(SegmentsFrom(s, p)), s[p..p + n]);
    } else {
      n := KeptLineAtKept(s, p);
    }
  }

  /** The case of `KeptLine` where the character at `p` is kept. */
  lemma {:induction false} KeptLineAtKept(s: string, p: nat) returns (n: nat)
    requires p < |s| && MatchStart(s[p..]).None?
    ensures p + n <= |s| && FirstLine(KeptText(SegmentsFrom(s, p)), s[p..p + n])
    decreases |s| - p, 1
  {
    if s[p] == '\n' {
      n := 0;
      KeptLineBreak(s, p);
    } else {
      n := KeptLineNotBreak(s, p);
    }
  }

  /** A kept line feed at `p`: the first line from `p` is empty. */
  lemma KeptLineBreak(s: string, p: nat)
    requires p < |s| && MatchStart(s[p..]).None? && s[p] == '\n'
    ensures FirstLine(KeptText(SegmentsFrom(s, p)), s[p..p])
  {
    KeptStep(s, p);
    LineBreakKept(s, p, 0, KeptText(SegmentsFrom(s, p)), KeptText(SegmentsFrom(s, p + 1)));
  }

  /** A kept character other than a line feed at `p`: the first line from `p` starts with it. */
  lemma {:induction false} KeptLineNotBreak(s: string, p: nat) returns (n: nat)
    requires p < |s| && MatchStart(s[p..]).None? && s[p] != '\n'
    ensures p + n <= |s| && FirstLine(KeptText(SegmentsFrom(s, p)), s[p..p + n])
    decreases |s| - p, 0
  {
    KeptStep(s, p);
    var n1 := KeptLine(s, p + 1);
    n := n1 + 1;
    KeptLineCons(s, p, n1, n, KeptText(SegmentsFrom(s, p)), KeptText(SegmentsFrom(s, p + 1)));
  }

  /** A step of `KeptLineBreak`: a kept line feed ends an empty first line. */
  lemma LineBreakKept(s: string, p: nat, n: nat, k: string, k1: string)
    requires p < |s| && s[p] == '\n' && n == 0 && k == [s[p]] + k1
    ensures p + n <= |s| && FirstLine(k, s[p..p + n])
  {
    LineBreakFirst(k, s[p..p + n]);
  }

  /** The step of `KeptLineNotBreak`: a kept character other than a line feed starts the first line. */
  lemma KeptLineCons(s: string, p: nat, n1: nat, n: nat, k: string, k1: string)
    requires p + 1 + n1 <= |s| && s[p] != '\n' && n == n1 + 1
    requires FirstLine(k1, s[p + 1..p + 1 + n1]) && k == [s[p]] + k1
    ensures p + n <= |s| && FirstLine(k, s[p..p + n])
  {
    assert s[p..p + n] == [s[p]] + s[p + 1..p + 1 + n1];
    FirstLineCons(s[p], k1, s[p + 1..p + 1 + n1], k, s[p..p + n]);
  }

  /** A text that is empty or starts with a line feed has an empty first line. */
  lemma LineBreakFirst(k: string, line: string)
    requires k == [] || k[0] == '\n'
    requires line == []
    ensures FirstLine(k, line)
  {
  }

  /** A character other than a line feed, put in front, lengthens the first line by itself. */
  lemma FirstLineCons(c: char, k1: string, line1: string, k: string, line: string)
    requires c != '\n' && FirstLine(k1, line1)
    requires k == [c] + k1 && line == [c] + line1
    ensures FirstLine(k, line)
  {
    assert k[..|line|] == [c] + k1[..|line1|];
  }

  /**
   * `sub` leaves no declaration behind: the pattern matches nowhere in what
   * is left from index `p` on, not even across the place where a
   * declaration was cut out.
   */
  lemma {:induction false} NothingLeftToMatch(s: string, p: nat)
    requires p <= |s|
    ensures forall q | 0 <= q <= |KeptText(SegmentsFrom(s, p))| :: MatchStart(KeptText(SegmentsFrom(s, p))[q..]).None?
    decreases |s| - p
  {
    if p < |s| {
      match MatchStart(s[p..])
      case Some(d) =>
        DroppedStep(s, p, d);
        NothingLeftToMatch(s, p + |Source(d)|);
      case None =>
        NothingLeftToMatch(s, p + 1);
        KeptStep(s, p);
        NoMatchAtKeptStart(s, p);
        NoMatchAfterFirst(s[p], KeptText(SegmentsFrom(s, p + 1)));
    }
  }

  /** No match at the start of `[c] + k1` nor anywhere in `k1`: no match anywhere in `[c] + k1`. */
  lemma NoMatchAfterFirst(c: char, k1: string)
    requires MatchStart([c] + k1).None?
    requires forall q | 0 <= q <= |k1| :: MatchStart(k1[q..]).None?
    ensures forall q | 0 <= q <= |[c] + k1| :: MatchStart(([c] + k1)[q..]).None?
  {
    var k := [c] + k1;
    forall q | 0 <= q <= |k| ensures MatchStart(k[q..]).None? {
      if q == 0 {
        assert k[q..] == k;
      } else {
        assert k[q..] == k1[q - 1..];
      }
    }
  }

  /** The step of `NothingLeftToMatch` for index 0 of a kept character. */
  lemma NoMatchAtKeptStart(s: string, p: nat)
    requires p < |s| && MatchStart(s[p..]).None?
    ensures MatchStart(KeptText(SegmentsFrom(s, p))).None?
  {
    var k := KeptText(SegmentsFrom(s, p));
    if MatchStart(k).Some? {
      var d := MatchStart(k).value;
      var n := KeptLine(s, p);
      LineStartsWithSource(k, s[p..p + n], s[p..], d);
      MatchesAnyExtension(d, s[p + |Source(d)|..]);
      assert false;
    }
  }

  /**
   * When `line` is the first line of `k` and starts `t`, a declaration
   * matched at the start of `k` also starts `t`.
   */
  lemma LineStartsWithSource(k: string, line: string, t: string, d: Declaration)
    requires FirstLine(k, line) && |line| <= |t| && t[..|line|] == line
    requires MatchStart(k) == Some(d)
    ensures WellFormed(d) && |Source(d)| <= |t| && t == Source(d) + t[|Source(d)|..]
  {
    MatchShape(k);
    SourceOneLine(d);
    SameLine(k, Source(d), line);
    assert t == t[..|line|] + t[|line|..];
  }

  /** A text has one first line. */
  lemma SameLine(k: string, a: string, b: string)
    requires FirstLine(k, a) && FirstLine(k, b)
    ensures a == b
  {
  }

  /** Every declaration found has the shape of the pattern's two groups. */
  lemma {:induction false} DeclsWellFormed(s: string, p: nat)
    requires p <= |s|
    ensures forall d | d in Decls(SegmentsFrom(s, p)) :: WellFormed(d)
    decreases |s| - p
  {
    if p < |s| {
      match MatchStart(s[p..])
      case Some(d) =>
        var e := p + |Source(d)|;
        var tail := SegmentsFrom(s, e);
        MatchShape(s[p..]);
        DeclsWellFormed(s, e);
        assert ([Declared(d)] + tail)[1..] == tail;
        assert Decls(SegmentsFrom(s, p)) == [d] + Decls(tail);
      case None =>
        var tail := SegmentsFrom(s, p + 1);
        DeclsWellFormed(s, p + 1);
        assert ([Kept(s[p])] + tail)[1..] == tail;
        assert Decls(SegmentsFrom(s, p)) == Decls(tail);
    }
  }
  lemma SegmentsAtDeclaration(s: string, p: nat, d: Declaration)
    requires p < |s| && MatchStart(s[p..]) == Some(d)
    ensures SegmentsFrom(s, p) == [Declared(d)] + SegmentsFrom(s, p + |Source(d)|)
  {
  }

  lemma SegmentsAtKept(s: string, p: nat)
    requires p < |s| && MatchStart(s[p..]).None?
    ensures SegmentsFrom(s, p) == [Kept(s[p])] + SegmentsFrom(s, p + 1)
  {
  }

  /**
   * A declaration that fills its line is found as a declaration, and the
   * scan goes on from the line feed after it.
   */
  lemma DeclarationLine(d: Declaration, rest: string)
    requires WellFormed(d)
    requires rest == [] || rest[0] == '\n'
    ensures Segments(Source(d) + rest) == [Declared(d)] + SegmentsFrom(Source(d) + rest, |Source(d)|)
  {
    var t := Source(d) + rest;
    MatchesDeclaration(d, rest);
    assert t[0..] == t;
    SegmentsAtDeclaration(t, 0, d);
  }

  /** Where the pattern matches nowhere, the scan keeps every character and declares nothing. */
  lemma {:induction false} NoMatchKeepsAll(t: string, p: nat)
    requires p <= |t|
    requires forall q | p <= q <= |t| :: MatchStart(t[q..]).None?
    ensures Decls(SegmentsFrom(t, p)) == [] && KeptText(SegmentsFrom(t, p)) == t[p..]
    decreases |t| - p
  {
    if p < |t| {
      var tail := SegmentsFrom(t, p + 1);
      NoMatchKeepsAll(t, p + 1);
      assert SegmentsFrom(t, p) == [Kept(t[p])] + tail;
      assert ([Kept(t[p])] + tail)[1..] == tail;
      assert t[p..] == [t[p]] + t[p + 1..];
    }
  }

  /**
   * `_parse_constants` run again on its own output declares nothing and
   * changes nothing: `sub` removed every declaration the pattern can find.
   */
  lemma SecondPassDeclaresNothing(s: string, cs: Constants)
    ensures var k := KeptText(Segments(s)); ParseConstants(k, cs) == (Outcome(cs, None), k)
  {
    var k := KeptText(Segments(s));
    NothingLeftToMatch(s, 0);
    NoMatchKeepsAll(k, 0);
    assert k[0..] == k;
  }

  /**
   * Text order: declaring `xs` and then `ys` is declaring `xs + ys`, and a
   * failure among `xs` stops everything after it.
   */
  lemma {:induction false} DeclareAppend(cs: Constants, xs: seq<Declaration>, ys: seq<Declaration>)
    ensures Declare(cs, xs + ys) == (var o := Declare(cs, xs); if o.error.Some? then o else Declare(o.constants, ys))
    decreases |xs|
  {
    if xs == [] {
      assert xs + ys == ys;
    } else {
      assert (xs + ys)[0] == xs[0];
      assert (xs + ys)[1..] == xs[1..] + ys;
      match Evaluate(Strip(xs[0].value), cs)
      case Failure(e) =>
      case Success(v) =>
        DeclareAppend(cs[xs[0].name := v], xs[1..], ys);
    }
  }

  /** A name no declaration mentions keeps its value, or its absence. */
  lemma {:induction false} DeclareKeepsOthers(cs: Constants, ds: seq<Declaration>, k: string)
    requires forall i | 0 <= i < |ds| :: ds[i].name != k
    ensures k in Declare(cs, ds).constants <==> k in cs
    ensures k in cs ==> Declare(cs, ds).constants[k] == cs[k]
    decreases |ds|
  {
    if ds != [] {
      match Evaluate(Strip(ds[0].value), cs)
      case Failure(e) =>
      case Success(v) =>
        assert forall i | 0 <= i < |ds[1..]| :: ds[1..][i] == ds[i + 1];
        DeclareKeepsOthers(cs[ds[0].name := v], ds[1..], k);
    }
  }

  /**
   * Re-declaring a name overwrites it: after a successful run a name holds
   * the value of its last declaration, evaluated against the constants
   * declared before that declaration.
   */
  lemma LastDeclarationWins(cs: Constants, ds: seq<Declaration>, i: nat)
    requires i < |ds| && Declare(cs, ds).error.None?
    requires forall j | i < j < |ds| :: ds[j].name != ds[i].name
    ensures Evaluate(Strip(ds[i].value), Declare(cs, ds[..i]).constants).Success?
    ensures ds[i].name in Declare(cs, ds).constants
    ensures Declare(cs, ds).constants[ds[i].name] == Evaluate(Strip(ds[i].value), Declare(cs, ds[..i]).constants).value
  {
    var after := ds[i + 1..];
    SplitAt(ds, i);
    DeclareAppend(cs, ds[..i], [ds[i]] + after);
    forall j | 0 <= j < |after| ensures after[j].name != ds[i].name {
      assert after[j] == ds[i + 1 + j];
    }
    DeclaredLast(Declare(cs, ds[..i]).constants, ds[i], after);
  }

  /** A list of declarations is those before `i`, the one at `i` and those after. */
  lemma SplitAt(ds: seq<Declaration>, i: nat)
    requires i < |ds|
    ensures ds == ds[..i] + ([ds[i]] + ds[i + 1..])
  {
  }

  /** `d` declared first and never again: the run keeps the value `d` evaluates to. */
  lemma DeclaredLast(cs: Constants, d: Declaration, after: seq<Declaration>)
    requires Declare(cs, [d] + after).error.None?
    requires forall j | 0 <= j < |after| :: after[j].name != d.name
    ensures Evaluate(Strip(d.value), cs).Success?
    ensures d.name in Declare(cs, [d] + after).constants
    ensures Declare(cs, [d] + after).constants[d.name] == Evaluate(Strip(d.value), cs).value
  {
    DeclareFirst(cs, d, after);
    var v := Evaluate(Strip(d.value), cs).value;
    DeclareKeepsOthers(cs[d.name := v], after, d.name);
  }

  /** Declaring `[d] + after`: `d` first, then, if it evaluates, the rest. */
  lemma DeclareFirst(cs: Constants, d: Declaration, after: seq<Declaration>)
    ensures Evaluate(Strip(d.value), cs).Failure? ==>
      Declare(cs, [d] + after) == Outcome(cs, Some(Evaluate(Strip(d.value), cs).error))
    ensures Evaluate(Strip(d.value), cs).Success? ==>
      Declare(cs, [d] + after) == Declare(cs[d.name := Evaluate(Strip(d.value), cs).value], after)
  {
    assert ([d] + after)[0] == d && ([d] + after)[1..] == after;
  }

  /**
   * Declarations see only what was declared before them: a declaration
   * whose value names a constant declared on a later line fails, when the
   * name was not declared before.
   */
  lemma ForwardReferenceFails(cs: Constants, a: Declaration, b: Declaration)
    requires WellFormed(b) && b.name !in cs
    requires Strip(a.value) == b.name
    ensures Declare(cs, [a, b]) == Outcome(cs, Some(InvalidConstantExpression(b.name)))
  {
    var c := b.name[0];
    assert IsNameChar(c);
    BareWord(b.name);
    EvaluateUnknownName(b.name, cs);
  }
}
