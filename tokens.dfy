// Keyword and builtin highlighting: the boundary test on Page.illegals and
// the greedy search for each catalog token (page.py, syntaxHighlight).

module Tokens {
  import opened TextBuffer

  /** Page.illegals: the characters that cannot be part of an identifier,
      so that a token next to one of them is a whole token. Tab and newline
      are not among them, and no character of an identifier is. */
  function Illegal(c: char): (r: bool)
    ensures r ==> c != '\n' && c != '\t' && c != '_'
    ensures r ==> !('a' <= c <= 'z' || 'A' <= c <= 'Z' || '0' <= c <= '9')
  {
    match c
    case '`' | '\U{00AC}' | '\U{00A6}' | '!' | '"' | '%' | '^' | '&' | '*' | '(' | ')' | '-' | ' ' | '+'
       | '=' | '[' | ']' | '{' | '}' | '\'' | '@' | ':' | ';' | '#' | '~' | '/' | '?' | ',' | '<' | '.'
       | '>' | '\\' | '|' => true
    case _ => false
  }

  /** A catalog token the scanner can search for: non-empty and on one line. */
  predicate ValidToken(tok: string)
  {
    |tok| > 0 && '\n' !in tok
  }

  /** The whole-token test for a match of length n at column c of `line`,
      written as the source writes it: four cases, each length check made
      before the neighbour it guards is looked up. */
  function Delimited(line: string, c: nat, n: nat): (r: bool)
    requires c + n <= |line|
    ensures r <==> (c == 0 || Illegal(line[c - 1])) && (c + n == |line| || Illegal(line[c + n]))
  {
    // the line is the token alone
    (c == 0 && |line| == c + n) ||
    // the token starts the line and an illegal follows it
    (c == 0 && Illegal(line[c + n])) ||
    // the token ends the line and an illegal precedes it
    (|line| == c + n && Illegal(line[c - 1])) ||
    // the token is inside the line between two illegals
    (c != 0 && |line| > c + n && Illegal(line[c - 1]) && Illegal(line[c + n]))
  }

  /** The boundary test for a match of `tok` at buffer offset i, in terms
      of the buffer: each neighbour of the match is a line boundary or an
      illegal character. */
  predicate BoundaryAt(buf: string, tok: string, i: nat)
    requires i + |tok| <= |buf|
  {
    (i == 0 || buf[i - 1] == '\n' || Illegal(buf[i - 1])) &&
    (i + |tok| == |buf| || buf[i + |tok|] == '\n' || Illegal(buf[i + |tok|]))
  }

  /** The test as the search loop applies it: the four cases of Delimited
      on the line holding the match, at the match's column. */
  function LineTest(buf: string, tok: string, i: nat): bool
    requires Occurs(buf, tok, i) && '\n' !in tok
  {
    OccursWithinLine(buf, tok, i);
    var s := LineStart(buf, i);
    Delimited(buf[s..LineEnd(buf, i)], i - s, |tok|)
  }

  /** Testing the match on its line is testing its neighbours in the
      buffer: the line's ends are the buffer's ends or its newlines. */
  lemma LineTestIsBoundary(buf: string, tok: string, i: nat)
    requires Occurs(buf, tok, i) && '\n' !in tok
    ensures LineTest(buf, tok, i) == BoundaryAt(buf, tok, i)
  {
    OccursWithinLine(buf, tok, i);
    var s, e := LineStart(buf, i), LineEnd(buf, i);
    assert i > s ==> buf[s..e][i - s - 1] == buf[i - 1];
    assert i + |tok| < e ==> buf[s..e][i - s + |tok|] == buf[i + |tok|];
  }

  /** m is one of the matches the search loop visits from offset `from`:
      the first occurrence at or after `from`, or one visited by the search
      resumed at the end of that occurrence. */
  predicate Visited(buf: string, tok: string, from: nat, m: nat)
    requires |tok| > 0 && from <= |buf|
    decreases |buf| - from
  {
    match FirstMatch(buf, tok, from, |buf|)
    case None => false
    case Some(a) => m == a || Visited(buf, tok, a + |tok|, m)
  }

  /** Every visited match is an occurrence at or after `from`. */
  lemma {:induction false} VisitedOccurs(buf: string, tok: string, from: nat, m: nat)
    requires |tok| > 0 && from <= |buf| && Visited(buf, tok, from, m)
    ensures from <= m && Occurs(buf, tok, m)
    decreases |buf| - from
  {
    var a := FirstMatch(buf, tok, from, |buf|).value;
    if m != a {
      VisitedOccurs(buf, tok, a + |tok|, m);
    }
  }

  /** No occurrence is skipped by the search: each one is visited or lies
      inside a visited match that starts before it. */
  lemma {:induction false} VisitedCovers(buf: string, tok: string, from: nat, j: nat) returns (m: nat)
    requires |tok| > 0 && from <= j && Occurs(buf, tok, j)
    ensures Visited(buf, tok, from, m) && m <= j < m + |tok|
    decreases |buf| - from
  {
    FirstMatchIsFirst(buf, tok, from, |buf|, j);
    var a := FirstMatch(buf, tok, from, |buf|).value;
    if j >= a + |tok| {
      m := VisitedCovers(buf, tok, a + |tok|, j);
    } else {
      m := a;
    }
  }

  /** Two visited matches never overlap. */
  lemma {:induction false} VisitedDisjoint(buf: string, tok: string, from: nat, m: nat, m': nat)
    requires |tok| > 0 && from <= |buf|
    requires Visited(buf, tok, from, m) && Visited(buf, tok, from, m')
    requires m' <= m < m' + |tok|
    ensures m == m'
    decreases |buf| - from
  {
    var a := FirstMatch(buf, tok, from, |buf|).value;
    if m != a && m' != a {
      VisitedDisjoint(buf, tok, a + |tok|, m, m');
    } else if m != a {
      VisitedOccurs(buf, tok, a + |tok|, m);
    } else if m' != a {
      VisitedOccurs(buf, tok, a + |tok|, m');
    }
  }

  /** The offsets the search loop for tok tags from offset `from` on: the
      whole of each visited match that passes the boundary test. */
  function TagsFrom(buf: string, tok: string, from: nat): set<nat>
    requires |tok| > 0 && from <= |buf|
    decreases |buf| - from
  {
    match FirstMatch(buf, tok, from, |buf|)
    case None => {}
    case Some(a) =>
      (if BoundaryAt(buf, tok, a) then Range(a, a + |tok|) else {}) + TagsFrom(buf, tok, a + |tok|)
  }

  /** The offsets one catalog token tags in a pass. */
  function TokenTags(buf: string, tok: string): set<nat>
    requires ValidToken(tok)
  {
    TagsFrom(buf, tok, 0)
  }

  /** The offsets the whole list of catalog tokens tags in a pass. */
  function CatalogTags(buf: string, toks: seq<string>): set<nat>
    requires forall t :: t in toks ==> ValidToken(t)
  {
    if toks == [] then {}
    else CatalogTags(buf, toks[..|toks| - 1]) + TokenTags(buf, toks[|toks| - 1])
  }

  /** The search loop for one token over `buf`: search from the end of
      the previous match and tag each match passing the boundary test on
      its line. Returns `tags` with those offsets added. */
  method ScanToken(buf: string, tok: string, tags: set<nat>) returns (tagged: set<nat>)
    requires ValidToken(tok)
    ensures tagged == tags + TokenTags(buf, tok)
  {
    tagged := tags;
    var a, b := 0, 0;
    while true
      invariant b <= |buf|
      invariant forall i :: i in tagged || i in TagsFrom(buf, tok, b) <==> i in tags || i in TokenTags(buf, tok)
      decreases |buf| - b
    {
      var index := FirstMatch(buf, tok, b, |buf|);
      if index.None? {
        break;
      }
      a, b := index.value, index.value + |tok|;
      LineTestIsBoundary(buf, tok, a);
      if LineTest(buf, tok, a) {
        tagged := tagged + Range(a, b);
      }
    }
    assert forall i :: i in tagged <==> i in tags || i in TokenTags(buf, tok);
  }

  /** Adding one more token's tags extends the catalog's by that token's. */
  lemma CatalogStep(buf: string, toks: seq<string>, n: nat, base: set<nat>, tags: set<nat>)
    requires forall t :: t in toks ==> ValidToken(t)
    requires n < |toks|
    requires tags == (base + CatalogTags(buf, toks[..n])) + TokenTags(buf, toks[n])
    ensures tags == base + CatalogTags(buf, toks[..n + 1])
  {
    assert toks[..n + 1][..n] == toks[..n];
  }

  /** The visited match, passing the boundary test, that a tagged offset
      comes from. */
  lemma {:induction false} TagsFromSound(buf: string, tok: string, from: nat, i: nat) returns (m: nat)
    requires |tok| > 0 && from <= |buf| && i in TagsFrom(buf, tok, from)
    ensures Visited(buf, tok, from, m) && m + |tok| <= |buf| && BoundaryAt(buf, tok, m) && m <= i < m + |tok|
    decreases |buf| - from
  {
    var a := FirstMatch(buf, tok, from, |buf|).value;
    if i in TagsFrom(buf, tok, a + |tok|) {
      m := TagsFromSound(buf, tok, a + |tok|, i);
    } else {
      RangeMembers(a, a + |tok|);
      m := a;
    }
  }

  lemma {:induction false} TagsFromComplete(buf: string, tok: string, from: nat, m: nat, i: nat)
    requires |tok| > 0 && from <= |buf| && Visited(buf, tok, from, m)
    requires m + |tok| <= |buf| && BoundaryAt(buf, tok, m) && m <= i < m + |tok|
    ensures i in TagsFrom(buf, tok, from)
    decreases |buf| - from
  {
    var a := FirstMatch(buf, tok, from, |buf|).value;
    if m == a {
      RangeMembers(a, a + |tok|);
    } else {
      TagsFromComplete(buf, tok, a + |tok|, m, i);
    }
  }

  /** An offset is tagged from `from` on exactly when a visited match that
      passes the boundary test covers it. */
  lemma TagsFromMembers(buf: string, tok: string, from: nat, i: nat)
    requires |tok| > 0 && from <= |buf|
    ensures i in TagsFrom(buf, tok, from) <==>
            exists m: nat :: Visited(buf, tok, from, m) && m + |tok| <= |buf| && BoundaryAt(buf, tok, m) && m <= i < m + |tok|
  {
    if i in TagsFrom(buf, tok, from) {
      var m := TagsFromSound(buf, tok, from, i);
    }
    if exists m: nat :: Visited(buf, tok, from, m) && m + |tok| <= |buf| && BoundaryAt(buf, tok, m) && m <= i < m + |tok| {
      var m: nat :| Visited(buf, tok, from, m) && m + |tok| <= |buf| && BoundaryAt(buf, tok, m) && m <= i < m + |tok|;
      TagsFromComplete(buf, tok, from, m, i);
    }
  }

  /** A catalog tags an offset exactly when one of its tokens does. */
  lemma {:induction false} CatalogTagsMembers(buf: string, toks: seq<string>, i: nat)
    requires forall t :: t in toks ==> ValidToken(t)
    ensures i in CatalogTags(buf, toks) <==> exists t :: t in toks && i in TokenTags(buf, t)
  {
    if toks != [] {
      var prefix, last := toks[..|toks| - 1], toks[|toks| - 1];
      assert toks == prefix + [last];
      CatalogTagsMembers(buf, prefix, i);
      if exists t :: t in toks && i in TokenTags(buf, t) {
        var t :| t in toks && i in TokenTags(buf, t);
        if t != last {
          assert t in prefix;
        }
      }
    }
  }

  lemma TokenTagsInLines(buf: string, tok: string, i: nat)
    requires ValidToken(tok) && i in TokenTags(buf, tok)
    ensures i < |buf| && buf[i] != '\n'
  {
    var m := TagsFromSound(buf, tok, 0, i);
    VisitedOccurs(buf, tok, 0, m);
    OccursAt(buf, tok, m, i);
  }

  /** Catalog tags stay inside the buffer and never cover a newline. */
  lemma CatalogTagsInLines(buf: string, toks: seq<string>, i: nat)
    requires forall t :: t in toks ==> ValidToken(t)
    requires i in CatalogTags(buf, toks)
    ensures i < |buf| && buf[i] != '\n'
  {
    CatalogTagsMembers(buf, toks, i);
    var t :| t in toks && i in TokenTags(buf, t);
    TokenTagsInLines(buf, t, i);
  }

  /** A match with an identifier character right before or right after it
      on its line gets none of its characters tagged by its token: `for`
      in `before` stays untagged, and so does a token preceded by a tab. */
  lemma IdentifierNeighbourBlocks(buf: string, tok: string, m: nat, i: nat)
    requires ValidToken(tok) && Visited(buf, tok, 0, m) && m + |tok| <= |buf|
    requires (m > 0 && buf[m - 1] != '\n' && !Illegal(buf[m - 1]))
          || (m + |tok| < |buf| && buf[m + |tok|] != '\n' && !Illegal(buf[m + |tok|]))
    requires m <= i < m + |tok|
    ensures i !in TokenTags(buf, tok)
  {
    if i in TokenTags(buf, tok) {
      var m' := TagsFromSound(buf, tok, 0, i);
      if m' <= m {
        VisitedDisjoint(buf, tok, 0, m, m');
      } else {
        VisitedDisjoint(buf, tok, 0, m', m);
      }
      assert false;
    }
  }

  /** A match with each neighbour a line boundary or an illegal is tagged. */
  lemma DelimitedMatchTagged(buf: string, tok: string, m: nat)
    requires ValidToken(tok) && Visited(buf, tok, 0, m) && m + |tok| <= |buf|
    requires m == 0 || buf[m - 1] == '\n' || Illegal(buf[m - 1])
    requires m + |tok| == |buf| || buf[m + |tok|] == '\n' || Illegal(buf[m + |tok|])
    ensures Range(m, m + |tok|) <= TokenTags(buf, tok)
  {
    RangeMembers(m, m + |tok|);
    forall i | i in Range(m, m + |tok|)
      ensures i in TokenTags(buf, tok)
    {
      TagsFromComplete(buf, tok, 0, m, i);
    }
  }

  /** `for` inside `before` is not tagged. */
  lemma ForInsideBefore()
    ensures TokenTags("before", "for") == {}
  {
    var buf, tok := "before", "for";
    assert buf[0] != tok[0] && buf[1] != tok[0];
    assert buf[2..5] == tok;
    assert FirstMatch(buf, tok, 0, 6) == Some(2);
    assert !BoundaryAt(buf, tok, 2);
  }

  /** `for` between '=' and ';' is tagged. */
  lemma ForBetweenIllegals()
    ensures TokenTags("x=for;", "for") == {2, 3, 4}
  {
    var buf, tok := "x=for;", "for";
    assert buf[0] != tok[0] && buf[1] != tok[0];
    assert buf[2..5] == tok;
    assert FirstMatch(buf, tok, 0, 6) == Some(2);
    assert BoundaryAt(buf, tok, 2);
    RangeMembers(2, 5);
  }

  /** Tab is not an illegal: `for` right after a tab is not tagged. */
  lemma ForAfterTab()
    ensures TokenTags("\tfor", "for") == {}
  {
    var buf, tok := "\tfor", "for";
    assert buf[0] != tok[0];
    assert buf[1..4] == tok;
    assert FirstMatch(buf, tok, 0, 4) == Some(1);
    assert !BoundaryAt(buf, tok, 1);
  }
}
