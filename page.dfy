// The code editor page: its buffer, its cursor and the four highlight tags
// kw, bi, str and comment, recomputed by syntaxHighlight on every key
// release (page.py, Page.syntaxHighlight).

module Highlighter {
  import opened TextBuffer
  import opened Tokens
  import opened Quotes
  import opened Comments
  import opened Indent

  /** The keyword and builtin lists read once from the syntax file. */
  datatype Catalog = Catalog(keywords: seq<string>, builtins: seq<string>)

  predicate ValidCatalog(cat: Catalog)
  {
    (forall t :: t in cat.keywords ==> ValidToken(t)) &&
    (forall t :: t in cat.builtins ==> ValidToken(t))
  }

  /** The four tag names. */
  datatype Kind = Keyword | Builtin | Str | Comment

  /** The offsets carrying each tag. */
  datatype Tags = Tags(kw: set<nat>, bi: set<nat>, str: set<nat>, comment: set<nat>)
  {
    function Of(k: Kind): set<nat>
    {
      match k
      case Keyword => kw
      case Builtin => bi
      case Str => str
      case Comment => comment
    }
  }

  /** A key-release event, identified by its keysym. */
  datatype KeyEvent = KeyEvent(keysym: string)

  predicate IsReturn(event: Option<KeyEvent>)
  {
    event.Some? && event.value.keysym == "Return"
  }

  /** The tags a highlight pass leaves on `buf`: keywords, then builtins,
      then strings for each quote character, then comments, which take the
      string tag off their own range. */
  function Highlight(buf: string, cat: Catalog): Tags
    requires ValidCatalog(cat)
  {
    var comments := Cover(CommentSpans(buf, 0));
    Tags(CatalogTags(buf, cat.keywords),
         CatalogTags(buf, cat.builtins),
         (Cover(QuoteSpans(buf, '"', 0)) + Cover(QuoteSpans(buf, '\'', 0))) - comments,
         comments)
  }

  /** After a pass no offset is both string and comment, and every offset
      inside a quote span is one of the two. */
  lemma HighlightStringsAndComments(buf: string, cat: Catalog)
    requires ValidCatalog(cat)
    ensures Highlight(buf, cat).str * Highlight(buf, cat).comment == {}
    ensures Cover(QuoteSpans(buf, '"', 0)) + Cover(QuoteSpans(buf, '\'', 0)) <=
            Highlight(buf, cat).str + Highlight(buf, cat).comment
  {
  }

  /** Every tag of a pass lies on a character of the buffer that is not a
      line break. */
  lemma HighlightInLines(buf: string, cat: Catalog, k: Kind, i: nat)
    requires ValidCatalog(cat) && i in Highlight(buf, cat).Of(k)
    ensures i < |buf| && buf[i] != '\n'
  {
    match k
    case Keyword => CatalogTagsInLines(buf, cat.keywords, i);
    case Builtin => CatalogTagsInLines(buf, cat.builtins, i);
    case Str =>
      if i in Cover(QuoteSpans(buf, '"', 0)) {
        QuoteTagsInLines(buf, '"', 0, i);
      } else {
        QuoteTagsInLines(buf, '\'', 0, i);
      }
    case Comment => CommentTagsSound(buf, 0, i);
  }

  /** After a pass every quote character of either kind carries the string
      tag, unless it lies in a comment. */
  lemma QuotesTaggedOutsideComments(buf: string, cat: Catalog, j: nat)
    requires ValidCatalog(cat) && j < |buf| && (buf[j] == '"' || buf[j] == '\'')
    requires j !in Highlight(buf, cat).comment
    ensures j in Highlight(buf, cat).str
  {
    QuoteCharsCovered(buf, buf[j], 0, j);
  }

  /** Tags of different kinds do overlap: a keyword inside a string keeps
      its keyword tag, since the token scans do not look at quotes. */
  lemma KeywordInsideString()
    ensures 1 in Highlight("'if'", Catalog(["if"], [])).kw
    ensures 1 in Highlight("'if'", Catalog(["if"], [])).str
  {
    var buf := "'if'";
    KeywordTaggedInString(buf);
    StringAroundKeyword(buf);
    NoCommentInString(buf);
  }

  lemma KeywordTaggedInString(buf: string)
    requires buf == "'if'"
    ensures 1 in CatalogTags(buf, ["if"])
  {
    var tok := "if";
    assert buf[0] != tok[0] && buf[1..3] == tok;
    assert FirstMatch(buf, tok, 0, 4) == Some(1);
    assert Visited(buf, tok, 0, 1);
    DelimitedMatchTagged(buf, tok, 1);
    RangeMembers(1, 3);
    assert ["if"][..0] == [];
  }

  lemma StringAroundKeyword(buf: string)
    requires buf == "'if'"
    ensures 1 in Cover(QuoteSpans(buf, '\'', 0))
  {
    var q := '\'';
    FirstMatchChar(buf, q, 0, 4);
    assert buf[0] == q && buf[1] != '\n' && buf[2] != '\n' && buf[3] != '\n';
    assert LineEnd(buf, 0) == 4;
    FirstMatchChar(buf, q, 1, 4);
    assert buf[1] != q && buf[2] != q && buf[3] == q;
    NextSpan(buf, q, 0, 0, Some(3), 4);
    assert QuoteSpans(buf, q, 4) == [];
    assert QuoteSpans(buf, q, 0) == [] + [Span(0, 4)];
    CoverAppend([], Span(0, 4));
    RangeMembers(0, 4);
  }

  lemma NoCommentInString(buf: string)
    requires buf == "'if'"
    ensures Cover(CommentSpans(buf, 0)) == {}
  {
    FirstMatchChar(buf, '#', 0, 4);
    assert buf[0] != '#' && buf[1] != '#' && buf[2] != '#' && buf[3] != '#';
  }

  class Page {
    /** Page.syntax: the catalog, read-only once loaded. */
    const syntax: Catalog
    /** The contents of the text widget. */
    var text: string
    /** The offset of the insert mark (the cursor). */
    var insert: nat
    var kw: set<nat>
    var bi: set<nat>
    var str: set<nat>
    var comment: set<nat>

    ghost predicate Valid()
      reads this
    {
      insert <= |text| && ValidCatalog(syntax)
    }

    function CurrentTags(): Tags
      reads this
    {
      Tags(kw, bi, str, comment)
    }

    /** A new page holding `cont`, highlighted once. */
    constructor (cont: string, syntax: Catalog)
      requires ValidCatalog(syntax)
      ensures Valid() && this.syntax == syntax && text == cont && insert == |cont|
      ensures CurrentTags() == Highlight(cont, syntax)
    {
      this.syntax := syntax;
      text := cont;
      insert := |cont|;
      kw, bi, str, comment := {}, {}, {}, {};
      new;
      SyntaxHighlight(None);
    }

    /** tag_remove of all four tags over the whole buffer. */
    method ClearTags()
      modifies this`kw, this`bi, this`str, this`comment
      ensures kw == {} && bi == {} && str == {} && comment == {}
    {
      kw, bi, str, comment := {}, {}, {}, {};
    }

    /** The Return handler: insert the previous line's indentation, rounded
        down to a multiple of four, at the cursor, then four more spaces if
        the line above ends in ':'. The cursor moves past what is inserted. */
    method AutoIndent()
      requires Valid()
      modifies this`text, this`insert
      ensures Valid()
      ensures text == Insert(old(text), old(insert), Spaces(IndentAfterReturn(old(text), old(insert))))
      ensures insert == old(insert) + IndentAfterReturn(old(text), old(insert))
    {
      text, insert := ReturnInserts(text, insert);
    }

    /** The keyword (or builtin) loop: for each token of the list, run the
        search loop for it and tag what it finds. */
    method ScanTokens(tokens: seq<string>, k: Kind)
      requires k == Keyword || k == Builtin
      requires forall t :: t in tokens ==> ValidToken(t)
      modifies this`kw, this`bi
      ensures kw == if k == Keyword then old(kw) + CatalogTags(text, tokens) else old(kw)
      ensures bi == if k == Builtin then old(bi) + CatalogTags(text, tokens) else old(bi)
    {
      // the loop works on a snapshot of the text and of the tag's offsets
      var buf := text;
      var tags := if k == Keyword then kw else bi;
      ghost var base := tags;
      for n := 0 to |tokens|
        invariant kw == old(kw) && bi == old(bi)
        invariant tags == base + CatalogTags(buf, tokens[..n])
      {
        assert tokens[n] in tokens;
        tags := ScanToken(buf, tokens[n], tags);
        CatalogStep(buf, tokens, n, base, tags);
      }
      assert tokens[..|tokens|] == tokens;
      assert tags == base + CatalogTags(buf, tokens);
      if k == Keyword {
        kw := tags;
      } else {
        bi := tags;
      }
    }

    /** The string loop for quote q: tag from each opening q to the next q
        on its line inclusive, or to the line end when there is none. */
    method ScanQuotes(q: char)
      requires q == '"' || q == '\''
      modifies this`str
      ensures str == old(str) + Cover(QuoteSpans(text, q, 0))
    {
      var a, b := 0, 0;
      ghost var visited: seq<Span> := [];
      ghost var str0 := str;
      while true
        invariant b <= |text|
        invariant visited + QuoteSpans(text, q, b) == QuoteSpans(text, q, 0)
        invariant forall i :: i in str <==> i in str0 || i in Cover(visited)
        decreases |text| - b
      {
        ghost var b0, tags0 := b, str;
        var index := FirstMatch(text, [q], b, |text|);
        if index.None? {
          assert QuoteSpans(text, q, b) == [];
          break;
        }
        a, b := index.value, LineEnd(text, index.value);
        var close := FirstMatch(text, [q], a + 1, b);
        // no closing q: the tag runs to a's line end, where b already is;
        // otherwise it runs to the closing q inclusive
        if close.Some? {
          b := close.value + 1;
        }
        str := str + Range(a, b);
        ScanStep(text, q, str0, b0, visited, a, close, b, tags0, str);
        visited := visited + [Span(a, b)];
      }
      assert visited == QuoteSpans(text, q, 0);
    }

    /** The comment loop: tag each '#' passing the quote-parity test to the
        end of its line, taking the string tag off that range; skip the
        others. */
    method ScanComments()
      modifies this`str, this`comment
      ensures str == old(str) - Cover(CommentSpans(text, 0))
      ensures comment == old(comment) + Cover(CommentSpans(text, 0))
    {
      var buf := text;
      var a, b := 0, 0;
      ghost var visited: seq<Span> := [];
      ghost var str0, comment0 := str, comment;
      while true
        invariant b <= |buf|
        invariant visited + CommentSpans(buf, b) == CommentSpans(buf, 0)
        invariant forall i :: i in str <==> i in str0 && i !in Cover(visited)
        invariant forall i :: i in comment <==> i in comment0 || i in Cover(visited)
        decreases |buf| - b
      {
        var index := FirstMatch(buf, ['#'], b, |buf|);
        if index.None? {
          assert CommentSpans(buf, b) == [];
          break;
        }
        if EvenQuotesBefore(buf, index.value) {
          ghost var b0, visited0, str1, comment1 := b, visited, str, comment;
          a, b := index.value, LineEnd(buf, index.value);
          str := str - Range(a, b);
          comment := comment + Range(a, b);
          visited := visited + [Span(a, b)];
          CommentStep(buf, b0, visited0, a, b, visited);
          TagRemoved(str0, str1, str, visited0, Span(a, b));
          TagAdded(comment0, comment1, comment, visited0, Span(a, b));
        } else {
          ghost var b0 := b;
          b := index.value + 1;
          SkipStep(buf, b0, visited, index.value, b);
        }
      }
      assert visited == CommentSpans(buf, 0);
    }

    /** The highlight part of syntaxHighlight: clear the four tags, then
        run the keyword, builtin, double-quote, single-quote and comment
        scans in that order. The text and the cursor are left alone. */
    method Rehighlight()
      requires ValidCatalog(syntax)
      modifies this`kw, this`bi, this`str, this`comment
      ensures kw == CatalogTags(text, syntax.keywords) && bi == CatalogTags(text, syntax.builtins)
      ensures comment == Cover(CommentSpans(text, 0))
      ensures str == (Cover(QuoteSpans(text, '"', 0)) + Cover(QuoteSpans(text, '\'', 0))) - comment
    {
      ClearTags();
      ScanTokens(syntax.keywords, Keyword);
      ScanTokens(syntax.builtins, Builtin);
      ScanQuotes('"');
      ScanQuotes('\'');
      ScanComments();
    }

    /** syntaxHighlight: on a Return key release auto-indent first, then
        highlight. The tags left are a function of the text and the catalog
        alone, so a second pass on an unchanged text leaves them as they
        are. */
    method SyntaxHighlight(event: Option<KeyEvent>)
      requires Valid()
      modifies this
      ensures Valid()
      ensures IsReturn(event) ==>
                text == Insert(old(text), old(insert), Spaces(IndentAfterReturn(old(text), old(insert)))) &&
                insert == old(insert) + IndentAfterReturn(old(text), old(insert))
      ensures !IsReturn(event) ==> text == old(text) && insert == old(insert)
      ensures CurrentTags() == Highlight(text, syntax)
      ensures !IsReturn(event) && old(CurrentTags()) == Highlight(old(text), syntax) ==> CurrentTags() == old(CurrentTags())
    {
      if event.Some? && event.value.keysym == "Return" {
        AutoIndent();
      }
      Rehighlight();
    }
  }
}
