/**
 * `ConfigParser._remove_comments`: line comments `; ...` are removed first,
 * then block comments `{# ... #}` over the already line-stripped text.
 */
module Comments {
  import opened Wrappers
  import opened Text

  /**
   * The pass `re.sub(r";.*", "", text)`: every `;` and the rest of its line up
   * to, but not including, the next line feed is removed.
   */
  function StripLineComments(s: string): (r: string)
    ensures |r| <= |s|
    decreases |s|
  {
    if s == [] then []
    else if s[0] == ';' then StripLineComments(s[LineEnd(s, 0)..])
    else [s[0]] + StripLineComments(s[1..])
  }

  /** "{#" occurs in `s` at index `j`. */
  predicate OpenAt(s: string, j: int) {
    0 <= j && j + 1 < |s| && s[j] == '{' && s[j + 1] == '#'
  }

  /** "#}" occurs in `s` at index `j`. */
  predicate CloseAt(s: string, j: int) {
    0 <= j && j + 1 < |s| && s[j] == '#' && s[j + 1] == '}'
  }

  /** The nearest "#}" at or after index `i`, if any. */
  function FindClose(s: string, i: nat): (r: Option<nat>)
    requires i <= |s|
    ensures r.Some? ==> i <= r.value && CloseAt(s, r.value)
    ensures r.Some? ==> forall j | i <= j < r.value :: !CloseAt(s, j)
    ensures r.None? ==> forall j | i <= j :: !CloseAt(s, j)
    decreases |s| - i
  {
    if i + 1 >= |s| then None
    else if s[i] == '#' && s[i + 1] == '}' then Some(i)
    else FindClose(s, i + 1)
  }

  /**
   * The pass `re.sub(r"\{#.*?#\}", "", text, flags=re.DOTALL)`: from each
   * "{#" that has a later "#}", everything up to and including the nearest
   * such "#}" is removed, across line feeds; an unclosed "{#" stays.
   */
  function StripBlockComments(s: string): (r: string)
    ensures |r| <= |s|
    decreases |s|
  {
    if s == [] then []
    else if OpenAt(s, 0) && FindClose(s, 2).Some? then StripBlockComments(s[FindClose(s, 2).value + 2..])
    else [s[0]] + StripBlockComments(s[1..])
  }

  /** `_remove_comments`: line comments first, block comments second. */
  function RemoveComments(s: string): (r: string)
    ensures |r| <= |s|
  {
    StripBlockComments(StripLineComments(s))
  }

  /** After the line pass no `;` is left. */
  lemma {:induction false} LinePassRemovesSemicolons(s: string)
    ensures ';' !in StripLineComments(s)
    decreases |s|
  {
    if s == [] {
    } else if s[0] == ';' {
      LinePassRemovesSemicolons(s[LineEnd(s, 0)..]);
    } else {
      LinePassRemovesSemicolons(s[1..]);
    }
  }

  /** The line pass never removes a line feed. */
  lemma {:induction false} LinePassKeepsLineFeeds(s: string)
    ensures multiset(StripLineComments(s))['\n'] == multiset(s)['\n']
    decreases |s|
  {
    if s == [] {
    } else if s[0] == ';' {
      var e := LineEnd(s, 0);
      LinePassKeepsLineFeeds(s[e..]);
      assert s == s[..e] + s[e..];
      assert '\n' !in s[..e];
      assert multiset(s[..e])['\n'] == 0;
    } else {
      LinePassKeepsLineFeeds(s[1..]);
      assert s == [s[0]] + s[1..];
    }
  }

  /** A `;` removes exactly the rest of its own line: what precedes it, and the next line, stay. */
  lemma {:induction false} LineCommentEndsAtLineFeed(a: string, b: string, rest: string)
    requires ';' !in a && '\n' !in b
    requires rest == [] || rest[0] == '\n'
    ensures StripLineComments(a + [';'] + b + rest) == a + StripLineComments(rest)
    decreases |a|
  {
    var s := a + [';'] + b + rest;
    if a == [] {
      var e := LineEnd(s, 0);
      assert forall j | 1 <= j < 1 + |b| :: s[j] == b[j - 1];
      assert s[1 + |b|..] == rest;
      assert e == 1 + |b|;
      assert s[e..] == rest;
    } else {
      assert s[1..] == a[1..] + [';'] + b + rest;
      LineCommentEndsAtLineFeed(a[1..], b, rest);
    }
  }

  /** Text without `;` passes the line pass unchanged. */
  lemma {:induction false} LinePassIdentity(s: string)
    requires ';' !in s
    ensures StripLineComments(s) == s
    decreases |s|
  {
    if s != [] {
      LinePassIdentity(s[1..]);
    }
  }

  /** The block pass only removes characters. */
  lemma {:induction false} BlockPassRemovesOnly(s: string)
    ensures multiset(StripBlockComments(s)) <= multiset(s)
    decreases |s|
  {
    if s == [] {
    } else if OpenAt(s, 0) && FindClose(s, 2).Some? {
      var k := FindClose(s, 2).value + 2;
      BlockPassRemovesOnly(s[k..]);
      assert s == s[..k] + s[k..];
    } else {
      BlockPassRemovesOnly(s[1..]);
      assert s == [s[0]] + s[1..];
    }
  }

  /** No "{#" in `s` is followed, later, by a "#}". */
  ghost predicate NoClosedBlock(s: string) {
    forall j, m | OpenAt(s, j) && j + 2 <= m :: !CloseAt(s, m)
  }

  /** Text in which no "{#" is ever closed passes the block pass unchanged. */
  lemma {:induction false} BlockPassIdentity(s: string)
    requires NoClosedBlock(s)
    ensures StripBlockComments(s) == s
    decreases |s|
  {
    if s != [] {
      assert OpenAt(s, 0) ==> FindClose(s, 2).None?;
      assert forall j | 0 <= j < |s| - 1 :: s[1..][j] == s[j + 1];
      assert forall j :: OpenAt(s[1..], j) ==> OpenAt(s, j + 1);
      assert forall m :: CloseAt(s[1..], m) ==> CloseAt(s, m + 1);
      BlockPassIdentity(s[1..]);
    }
  }

  /**
   * A block comment is removed in full, delimiters included, up to the
   * nearest "#}", even when it spans lines; the text before it stays.
   */
  lemma {:induction false} BlockCommentRemovedWhole(a: string, b: string, c: string)
    requires forall j :: !OpenAt(a, j)
    requires forall j :: !CloseAt(b, j)
    ensures StripBlockComments(a + ['{', '#'] + b + ['#', '}'] + c) == a + StripBlockComments(c)
    decreases |a|
  {
    var s := a + ['{', '#'] + b + ['#', '}'] + c;
    if a == [] {
      assert OpenAt(s, 0);
      var m := 2 + |b|;
      assert CloseAt(s, m);
      assert forall j | 2 <= j < m :: s[j] == b[j - 2];
      forall j | 2 <= j < m ensures !CloseAt(s, j) {
        if j + 1 < m {
          assert !CloseAt(b, j - 2);
        }
      }
      assert FindClose(s, 2) == Some(m);
      assert s[m + 2..] == c;
    } else {
      assert !OpenAt(s, 0) by {
        if |a| >= 2 {
          assert !OpenAt(a, 0);
        }
      }
      assert s[1..] == a[1..] + ['{', '#'] + b + ['#', '}'] + c;
      assert forall j :: OpenAt(a[1..], j) ==> OpenAt(a, j + 1);
      BlockCommentRemovedWhole(a[1..], b, c);
    }
  }

  /** After `_remove_comments` no `;` is left anywhere. */
  lemma RemoveCommentsLeavesNoSemicolon(s: string)
    ensures ';' !in RemoveComments(s)
  {
    LinePassRemovesSemicolons(s);
    BlockPassRemovesOnly(StripLineComments(s));
    var t := StripLineComments(s);
    assert multiset(t)[';'] == 0;
  }

  /** Text containing neither `;` nor "{#" comes back unchanged. */
  lemma RemoveCommentsIdentity(s: string)
    requires ';' !in s
    requires forall j :: !OpenAt(s, j)
    ensures RemoveComments(s) == s
  {
    assert NoClosedBlock(s);
    LinePassIdentity(s);
    BlockPassIdentity(s);
  }

  /**
   * Block comments are not opaque to line comments: a `;` inside an
   * unfinished line of a block comment also eats its "#}", so the "{#"
   * is left unclosed and stays in the text.
   */
  lemma SemicolonInsideBlockComment()
    ensures RemoveComments("{# ; #}\nk") == "{# \nk"
  {
    LinePassOfExample("{# ; #}\nk");
    BlockPassOfExample("{# \nk");
  }

  lemma LinePassOfExample(s: string)
    requires s == "{# ; #}\nk"
    ensures StripLineComments(s) == "{# \nk"
  {
    assert s == "{# " + [';'] + " #}" + "\nk";
    LineCommentEndsAtLineFeed("{# ", " #}", "\nk");
    LinePassIdentity("\nk");
  }

  lemma BlockPassOfExample(t: string)
    requires t == "{# \nk"
    ensures StripBlockComments(t) == t
  {
    assert forall m | 2 <= m :: !CloseAt(t, m);
    BlockPassIdentity(t);
  }
}
