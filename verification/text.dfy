/**
 * The string primitives of Python that the parser leans on: `str.isspace`,
 * `str.strip`, `str.split()` with no argument, slicing with a negative end,
 * `startswith`/`endswith` and the search for the first "=>".
 */
module Text {
  import opened Wrappers

  /** Python's `str.isspace` for one character. */
  predicate IsSpace(c: char) {
    || ('\U{9}' <= c <= '\U{D}')
    || ('\U{1C}' <= c <= '\U{20}')
    || c == '\U{85}' || c == '\U{A0}' || c == '\U{1680}'
    || ('\U{2000}' <= c <= '\U{200A}')
    || c == '\U{2028}' || c == '\U{2029}' || c == '\U{202F}' || c == '\U{205F}' || c == '\U{3000}'
  }

  /** Every character of `s` at an index in [a, b) is whitespace. */
  predicate SpaceBetween(s: string, a: int, b: int)
    requires 0 <= a && b <= |s|
  {
    forall i | a <= i < b :: IsSpace(s[i])
  }

  predicate NoSpace(s: string) {
    forall i | 0 <= i < |s| :: !IsSpace(s[i])
  }

  predicate StartsWith(s: string, prefix: string) {
    |prefix| <= |s| && s[..|prefix|] == prefix
  }

  predicate EndsWith(s: string, suffix: string) {
    |suffix| <= |s| && s[|s| - |suffix|..] == suffix
  }

  /** Python's `s[front:-back]` for `back >= 1`: empty when the two cuts cross. */
  function Inner(s: string, front: nat, back: nat): string
  {
    if front + back <= |s| then s[front..|s| - back] else []
  }

  /** Index of the first line feed at or after `i`, or `|s|` if there is none. */
  function LineEnd(s: string, i: nat): (e: nat)
    requires i <= |s|
    ensures i <= e <= |s|
    ensures e < |s| ==> s[e] == '\n'
    ensures forall j | i <= j < e :: s[j] != '\n'
    decreases |s| - i
  {
    if i == |s| || s[i] == '\n' then i else LineEnd(s, i + 1)
  }

  /** Number of whitespace characters at the start of `s`. */
  function LeadingSpaces(s: string): (n: nat)
    ensures n <= |s| && SpaceBetween(s, 0, n)
    ensures n < |s| ==> !IsSpace(s[n])
    decreases |s|
  {
    if s != [] && IsSpace(s[0]) then 1 + LeadingSpaces(s[1..]) else 0
  }

  /** Number of whitespace characters at the end of `s`. */
  function TrailingSpaces(s: string): (n: nat)
    ensures n <= |s| && SpaceBetween(s, |s| - n, |s|)
    ensures n < |s| ==> !IsSpace(s[|s| - n - 1])
    decreases |s|
  {
    if s != [] && IsSpace(s[|s| - 1]) then 1 + TrailingSpaces(s[..|s| - 1]) else 0
  }

  function StripStart(s: string): (a: nat)
    ensures a <= |s|
  {
    LeadingSpaces(s)
  }

  function StripEnd(s: string): (e: nat)
    ensures StripStart(s) <= e <= |s|
  {
    StripStart(s) + (|s| - StripStart(s) - TrailingSpaces(s[StripStart(s)..]))
  }

  /**
   * Python's `str.strip()`: what is left of `s` once all leading and
   * trailing whitespace is removed; it neither starts nor ends with whitespace.
   */
  function Strip(s: string): (r: string)
    ensures |r| <= |s|
    ensures r == [] || (!IsSpace(r[0]) && !IsSpace(r[|r| - 1]))
  {
    var a := StripStart(s);
    var b := StripEnd(s);
    assert b > a ==> !IsSpace(s[a]) && !IsSpace(s[b - 1]) by {
      if b > a {
        var t := s[a..];
        var n := TrailingSpaces(t);
        assert s[b - 1] == t[|t| - n - 1];
      }
    }
    s[a..b]
  }

  /**
   * `Strip(s)` is an infix of `s`, and everything of `s` before and after
   * it is whitespace.
   */
  lemma StripInfix(s: string)
    ensures var r := Strip(s);
      exists i :: 0 <= i <= |s| - |r| && s[i..i + |r|] == r && SpaceBetween(s, 0, i) && SpaceBetween(s, i + |r|, |s|)
  {
    var a := StripStart(s);
    var b := StripEnd(s);
    var t := s[a..];
    assert SpaceBetween(s, b, |s|) by {
      forall i | b <= i < |s| ensures IsSpace(s[i]) {
        assert s[i] == t[i - a];
      }
    }
    assert s[a..a + (b - a)] == s[a..b];
  }

  /** Length of the run of non-whitespace characters at the start of `s`. */
  function TokenLength(s: string): (n: nat)
    ensures n <= |s| && forall i | 0 <= i < n :: !IsSpace(s[i])
    ensures n < |s| ==> IsSpace(s[n])
    decreases |s|
  {
    if s != [] && !IsSpace(s[0]) then 1 + TokenLength(s[1..]) else 0
  }

  /**
   * Python's `str.split()` with no separator: the maximal runs of
   * non-whitespace characters, in order.
   */
  function Words(s: string): (ws: seq<string>)
    ensures forall w | w in ws :: 0 < |w| <= |s| && NoSpace(w)
    decreases |s|
  {
    if s == [] then []
    else if IsSpace(s[0]) then Words(s[1..])
    else
      var n := TokenLength(s);
      assert NoSpace(s[..n]);
      [s[..n]] + Words(s[n..])
  }

  /** "=>" occurs in `s` at index `j`. */
  predicate ArrowAt(s: string, j: int) {
    0 <= j && j + 1 < |s| && s[j] == '=' && s[j + 1] == '>'
  }

  /** The first index at or after `i` where "=>" occurs, if any. */
  function FindArrowFrom(s: string, i: nat): (r: Option<nat>)
    requires i <= |s|
    ensures r.Some? ==> i <= r.value && ArrowAt(s, r.value)
    ensures r.Some? ==> forall j | i <= j < r.value :: !ArrowAt(s, j)
    ensures r.None? ==> forall j | i <= j :: !ArrowAt(s, j)
    decreases |s| - i
  {
    if i + 1 >= |s| then None
    else if s[i] == '=' && s[i + 1] == '>' then Some(i)
    else FindArrowFrom(s, i + 1)
  }

  /** Python's `"=>" in s` together with the cut point of `s.split("=>", 1)`. */
  function FindArrow(s: string): (r: Option<nat>)
    ensures r.Some? ==> ArrowAt(s, r.value) && forall j | 0 <= j < r.value :: !ArrowAt(s, j)
    ensures r.None? <==> forall j :: !ArrowAt(s, j)
  {
    FindArrowFrom(s, 0)
  }

  /** A slice of a text without "=>" has no "=>" either. */
  lemma NoArrowInSlice(s: string, a: nat, b: nat)
    requires a <= b <= |s|
    requires FindArrow(s).None?
    ensures FindArrow(s[a..b]).None?
  {
    forall j ensures !ArrowAt(s[a..b], j) {
      if ArrowAt(s[a..b], j) {
        assert ArrowAt(s, a + j);
      }
    }
  }

  /** Stripping a text without "=>" leaves a text without "=>". */
  lemma NoArrowInStrip(s: string)
    requires FindArrow(s).None?
    ensures FindArrow(Strip(s)).None?
  {
    NoArrowInSlice(s, StripStart(s), StripEnd(s));
  }

  /** Text with no whitespace at either end is its own strip. */
  lemma StripUnchanged(s: string)
    requires s == [] || (!IsSpace(s[0]) && !IsSpace(s[|s| - 1]))
    ensures Strip(s) == s
  {
    if s != [] {
      assert StripStart(s) == 0;
      assert TrailingSpaces(s) == 0;
    }
  }

  /** A run of non-whitespace followed by whitespace is the first word. */
  lemma {:induction false} WordsCons(w: string, sep: char, rest: string)
    requires w != [] && NoSpace(w) && IsSpace(sep)
    ensures Words(w + [sep] + rest) == [w] + Words(rest)
  {
    var s := w + [sep] + rest;
    assert s == w + ([sep] + rest);
    TokenLengthOfWord(w, [sep] + rest);
    assert s[..|w|] == w;
    assert s[|w|..] == [sep] + rest;
    assert ([sep] + rest)[1..] == rest;
  }

  /** A single run of non-whitespace is one word. */
  lemma WordsSingle(w: string)
    requires w != [] && NoSpace(w)
    ensures Words(w) == [w]
  {
    TokenLengthOfWord(w, []);
    assert w + [] == w;
    assert w[|w|..] == [];
  }

  lemma {:induction false} TokenLengthOfWord(w: string, rest: string)
    requires NoSpace(w)
    requires rest == [] || IsSpace(rest[0])
    ensures TokenLength(w + rest) == |w|
    decreases |w|
  {
    if w != [] {
      assert (w + rest)[1..] == w[1..] + rest;
      TokenLengthOfWord(w[1..], rest);
    }
  }

  /** Whitespace around a text with none at its ends is stripped away. */
  lemma StripPadded(w: string, pre: string, post: string)
    requires w != [] && !IsSpace(w[0]) && !IsSpace(w[|w| - 1])
    requires forall i | 0 <= i < |pre| :: IsSpace(pre[i])
    requires forall i | 0 <= i < |post| :: IsSpace(post[i])
    ensures Strip(pre + w + post) == w
  {
    var s := pre + w + post;
    LeadingExact(s, |pre|);
    var t := s[|pre|..];
    assert t == w + post;
    TrailingExact(t, |post|);
    assert s[|pre|..|pre| + |w|] == w;
  }

  lemma {:induction false} LeadingExact(s: string, n: nat)
    requires n <= |s| && SpaceBetween(s, 0, n) && (n < |s| ==> !IsSpace(s[n]))
    ensures LeadingSpaces(s) == n
    decreases n
  {
    if n > 0 {
      LeadingExact(s[1..], n - 1);
    }
  }

  lemma {:induction false} TrailingExact(s: string, n: nat)
    requires n <= |s| && SpaceBetween(s, |s| - n, |s|) && (n < |s| ==> !IsSpace(s[|s| - n - 1]))
    ensures TrailingSpaces(s) == n
    decreases n
  {
    if n > 0 {
      TrailingExact(s[..|s| - 1], n - 1);
    }
  }

  /** The non-whitespace characters of `s`, in order. */
  function NonSpace(s: string): (t: string)
    ensures NoSpace(t) && |t| <= |s|
  {
    if s == [] then []
    else if IsSpace(s[0]) then NonSpace(s[1..])
    else [s[0]] + NonSpace(s[1..])
  }

  /** The words of a list written one after another, with nothing between. */
  function Concat(ws: seq<string>): string {
    if ws == [] then [] else ws[0] + Concat(ws[1..])
  }

  /** A leading whitespace character separates nothing. */
  lemma WordsSkipsSpace(c: char, rest: string)
    requires IsSpace(c)
    ensures Words([c] + rest) == Words(rest)
  {
    assert ([c] + rest)[1..] == rest;
  }

  /** `split()` finds no word exactly when the text is all whitespace. */
  lemma {:induction false} WordsNone(s: string)
    ensures Words(s) == [] <==> forall i | 0 <= i < |s| :: IsSpace(s[i])
    decreases |s|
  {
    if s != [] && IsSpace(s[0]) {
      WordsNone(s[1..]);
      assert forall i | 1 <= i < |s| :: s[i] == s[1..][i - 1];
    }
  }

  /**
   * The words, put back together, are exactly the non-whitespace
   * characters of the text: `split()` drops whitespace and nothing else.
   */
  lemma {:induction false} WordsKeepText(s: string)
    ensures Concat(Words(s)) == NonSpace(s)
    decreases |s|
  {
    if s != [] {
      if IsSpace(s[0]) {
        WordsKeepText(s[1..]);
      } else {
        var n := TokenLength(s);
        var w := s[..n];
        WordsKeepText(s[n..]);
        assert ([w] + Words(s[n..]))[1..] == Words(s[n..]);
        assert s == w + s[n..];
        NonSpaceAppend(w, s[n..]);
        NonSpaceOfWord(w);
      }
    }
  }

  lemma {:induction false} NonSpaceAppend(a: string, b: string)
    ensures NonSpace(a + b) == NonSpace(a) + NonSpace(b)
    decreases |a|
  {
    if a == [] {
      assert a + b == b;
    } else {
      assert (a + b)[1..] == a[1..] + b;
      NonSpaceAppend(a[1..], b);
    }
  }

  lemma {:induction false} NonSpaceOfWord(w: string)
    requires NoSpace(w)
    ensures NonSpace(w) == w
    decreases |w|
  {
    if w != [] {
      NonSpaceOfWord(w[1..]);
      assert w == [w[0]] + w[1..];
    }
  }
}
