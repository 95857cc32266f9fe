// Comment highlighting: a '#' starts a comment unless the quotes before it
// on its line are unbalanced (page.py, syntaxHighlight).

module Comments {
  import opened TextBuffer

  /** The number of c characters between the start of h's line and h,
      which is what counting c in the text from "h linestart" to h gives. */
  function CountOnLineBefore(buf: string, h: nat, c: char): nat
    requires h <= |buf|
    decreases h
  {
    if h == 0 || buf[h - 1] == '\n' then 0
    else CountOnLineBefore(buf, h - 1, c) + (if buf[h - 1] == c then 1 else 0)
  }

  /** The count is that of c in the slice of the line before h. */
  lemma {:induction false} CountOnLineBeforeIsCount(buf: string, h: nat, c: char)
    requires h <= |buf|
    ensures CountOnLineBefore(buf, h, c) == multiset(buf[LineStart(buf, h)..h])[c]
    decreases h
  {
    if h > 0 && buf[h - 1] != '\n' {
      CountOnLineBeforeIsCount(buf, h - 1, c);
      var s := LineStart(buf, h);
      assert LineStart(buf, h - 1) == s;
      assert buf[s..h] == buf[s..h - 1] + [buf[h - 1]];
    }
  }

  /** The quote-parity test: the part of h's line before h holds an even
      number of '"' and an even number of '\''. */
  predicate EvenQuotesBefore(buf: string, h: nat)
    requires h <= |buf|
  {
    CountOnLineBefore(buf, h, '"') % 2 == 0 && CountOnLineBefore(buf, h, '\'') % 2 == 0
  }

  /** A '#' that the scan takes for the start of a comment. */
  predicate CommentStart(buf: string, h: nat)
  {
    h < |buf| && buf[h] == '#' && EvenQuotesBefore(buf, h)
  }

  /** The spans the comment scan tags, searching from offset `from`: at
      the next '#', tag to the end of its line and resume there when the
      quote counts before it are even, otherwise resume just after it. */
  function CommentSpans(buf: string, from: nat): seq<Span>
    requires from <= |buf|
    decreases |buf| - from
  {
    match FirstMatch(buf, ['#'], from, |buf|)
    case None => []
    case Some(h) =>
      if EvenQuotesBefore(buf, h) then [Span(h, LineEnd(buf, h))] + CommentSpans(buf, LineEnd(buf, h))
      else CommentSpans(buf, h + 1)
  }

  /** Every comment span starts at a comment '#' at or after `from` and
      runs to the end of its line. */
  lemma {:induction false} CommentSpansShape(buf: string, from: nat)
    requires from <= |buf|
    ensures forall s :: s in CommentSpans(buf, from) ==>
              from <= s.start && CommentStart(buf, s.start) && s.end == LineEnd(buf, s.start)
    decreases |buf| - from
  {
    FirstMatchChar(buf, '#', from, |buf|);
    if FirstMatch(buf, ['#'], from, |buf|).Some? {
      var h := FirstMatch(buf, ['#'], from, |buf|).value;
      if EvenQuotesBefore(buf, h) {
        var e := LineEnd(buf, h);
        CommentSpansShape(buf, e);
        assert CommentSpans(buf, from) == [Span(h, e)] + CommentSpans(buf, e);
      } else {
        CommentSpansShape(buf, h + 1);
      }
    }
  }

  /** The comment spans come in order without overlapping. */
  lemma {:induction false} CommentSpansOrdered(buf: string, from: nat)
    requires from <= |buf|
    ensures Ordered(CommentSpans(buf, from))
    decreases |buf| - from
  {
    var r := FirstMatch(buf, ['#'], from, |buf|);
    if r.Some? {
      var h := r.value;
      if EvenQuotesBefore(buf, h) {
        CommentSpansOrdered(buf, LineEnd(buf, h));
        OrderedAfterComment(buf, from, h);
      } else {
        CommentSpansOrdered(buf, h + 1);
        OrderedAfterSkip(buf, from, h);
      }
    }
  }

  lemma OrderedAfterComment(buf: string, from: nat, h: nat)
    requires from <= |buf| && FirstMatch(buf, ['#'], from, |buf|) == Some(h) && EvenQuotesBefore(buf, h)
    requires Ordered(CommentSpans(buf, LineEnd(buf, h)))
    ensures Ordered(CommentSpans(buf, from))
  {
    var e := LineEnd(buf, h);
    var rest := CommentSpans(buf, e);
    assert CommentSpans(buf, from) == [Span(h, e)] + rest;
    if rest != [] {
      CommentSpansStartAfter(buf, e, rest[0]);
    }
    OrderedCons(Span(h, e), rest);
  }

  lemma OrderedAfterSkip(buf: string, from: nat, h: nat)
    requires from <= |buf| && FirstMatch(buf, ['#'], from, |buf|) == Some(h) && !EvenQuotesBefore(buf, h)
    requires Ordered(CommentSpans(buf, h + 1))
    ensures Ordered(CommentSpans(buf, from))
  {
    assert CommentSpans(buf, from) == CommentSpans(buf, h + 1);
  }

  lemma {:induction false} CommentSpansStartAfter(buf: string, from: nat, s: Span)
    requires from <= |buf| && s in CommentSpans(buf, from)
    ensures from <= s.start
    decreases |buf| - from
  {
    var r := FirstMatch(buf, ['#'], from, |buf|);
    var h := r.value;
    if EvenQuotesBefore(buf, h) {
      var e := LineEnd(buf, h);
      assert CommentSpans(buf, from) == [Span(h, e)] + CommentSpans(buf, e);
      if s != Span(h, e) {
        CommentSpansStartAfter(buf, e, s);
      }
    } else {
      CommentSpansStartAfter(buf, h + 1, s);
    }
  }

  /** The comment found at h runs to the end of its line and is the next
      span of the scan from `from`, which resumes at that line end. */
  lemma NextComment(buf: string, from: nat, h: nat, e: nat)
    requires from <= |buf| && FirstMatch(buf, ['#'], from, |buf|) == Some(h) && EvenQuotesBefore(buf, h)
    requires e == LineEnd(buf, h)
    ensures from < e <= |buf|
    ensures CommentSpans(buf, from) == [Span(h, e)] + CommentSpans(buf, e)
  {
    FirstMatchChar(buf, '#', from, |buf|);
  }

  /** One round of the comment loop that finds a comment at h: its span is
      the next of the scan, so the spans visited, followed by those of the
      scan from the line end, are still the spans of the whole scan. */
  lemma CommentStep(buf: string, from: nat, visited: seq<Span>, h: nat, e: nat, visited': seq<Span>)
    requires from <= |buf| && FirstMatch(buf, ['#'], from, |buf|) == Some(h) && EvenQuotesBefore(buf, h)
    requires e == LineEnd(buf, h) && visited' == visited + [Span(h, e)]
    requires visited + CommentSpans(buf, from) == CommentSpans(buf, 0)
    ensures from < e <= |buf|
    ensures visited' + CommentSpans(buf, e) == CommentSpans(buf, 0)
  {
    NextComment(buf, from, h, e);
    VisitNext(visited, Span(h, e), CommentSpans(buf, from), CommentSpans(buf, e), CommentSpans(buf, 0));
  }

  /** One round of the comment loop that finds a '#' inside a string: the
      scan goes on just after it with nothing tagged. */
  lemma SkipStep(buf: string, from: nat, visited: seq<Span>, h: nat, next: nat)
    requires from <= |buf| && FirstMatch(buf, ['#'], from, |buf|) == Some(h) && !EvenQuotesBefore(buf, h)
    requires visited + CommentSpans(buf, from) == CommentSpans(buf, 0) && next == h + 1
    ensures from < next <= |buf|
    ensures visited + CommentSpans(buf, next) == CommentSpans(buf, 0)
  {
    NextAfterSkip(buf, from, h);
  }

  /** A '#' that fails the quote-parity test adds no span: the scan from
      `from` is the scan from just after it. */
  lemma NextAfterSkip(buf: string, from: nat, h: nat)
    requires from <= |buf| && FirstMatch(buf, ['#'], from, |buf|) == Some(h) && !EvenQuotesBefore(buf, h)
    ensures from < h + 1 <= |buf|
    ensures CommentSpans(buf, from) == CommentSpans(buf, h + 1)
  {
    FirstMatchChar(buf, '#', from, |buf|);
  }

  lemma CommentTagsSound(buf: string, from: nat, i: nat)
    requires from <= |buf| && i in Cover(CommentSpans(buf, from))
    ensures i < |buf| && buf[i] != '\n'
    ensures exists h :: LineStart(buf, i) <= h <= i && CommentStart(buf, h)
  {
    CommentSpansShape(buf, from);
    CoverMembers(CommentSpans(buf, from));
    var s :| s in CommentSpans(buf, from) && s.start <= i < s.end;
    assert LineStart(buf, i) <= s.start;
  }

  lemma {:induction false} CommentTagsComplete(buf: string, from: nat, h: nat, i: nat)
    requires from <= h && CommentStart(buf, h) && h <= i < LineEnd(buf, h)
    ensures i in Cover(CommentSpans(buf, from))
    decreases |buf| - from
  {
    FirstMatchChar(buf, '#', from, |buf|);
    var h0 := FirstMatch(buf, ['#'], from, |buf|).value;
    assert h0 <= h;
    if EvenQuotesBefore(buf, h0) {
      var e0 := LineEnd(buf, h0);
      var rest := CommentSpans(buf, e0);
      assert CommentSpans(buf, from) == [Span(h0, e0)] + rest;
      CoverMembers(CommentSpans(buf, from));
      if i < e0 {
        assert Span(h0, e0) in CommentSpans(buf, from);
      } else {
        CommentTagsComplete(buf, e0, h, i);
        CoverMembers(rest);
        var s :| s in rest && s.start <= i < s.end;
        assert s in CommentSpans(buf, from);
      }
    } else {
      assert h0 != h;
      CommentTagsComplete(buf, h0 + 1, h, i);
    }
  }

  /** An offset is tagged as comment exactly when it is not a newline and a
      '#' passing the quote-parity test stands at or before it on its line. */
  lemma CommentTagsExactly(buf: string, i: nat)
    requires i < |buf|
    ensures i in Cover(CommentSpans(buf, 0)) <==>
            buf[i] != '\n' && exists h :: LineStart(buf, i) <= h <= i && CommentStart(buf, h)
  {
    if i in Cover(CommentSpans(buf, 0)) {
      CommentTagsSound(buf, 0, i);
    }
    if buf[i] != '\n' && exists h :: LineStart(buf, i) <= h <= i && CommentStart(buf, h) {
      var h :| LineStart(buf, i) <= h <= i && CommentStart(buf, h);
      BeforeLineEnd(buf, h, i);
      CommentTagsComplete(buf, 0, h, i);
    }
  }

  /** A '#' after an odd number of '"' on its line is skipped; the next
      one, after an even number, starts a comment. */
  lemma HashInsideString()
    ensures CommentSpans("a=\"#\" #c", 0) == [Span(6, 8)]
  {
    var buf := "a=\"#\" #c";
    HashInsideStringSkipped(buf);
    HashAfterStringTagged(buf);
  }

  lemma HashInsideStringSkipped(buf: string)
    requires buf == "a=\"#\" #c"
    ensures CommentSpans(buf, 0) == CommentSpans(buf, 4)
  {
    FirstMatchChar(buf, '#', 0, 8);
    assert buf[3] == '#' && buf[0] != '#' && buf[1] != '#' && buf[2] != '#';
    assert FirstMatch(buf, ['#'], 0, 8) == Some(3);
    assert CountOnLineBefore(buf, 3, '"') == 1;
    NextAfterSkip(buf, 0, 3);
  }

  lemma HashAfterStringTagged(buf: string)
    requires buf == "a=\"#\" #c"
    ensures CommentSpans(buf, 4) == [Span(6, 8)]
  {
    FirstMatchChar(buf, '#', 4, 8);
    assert buf[6] == '#' && buf[4] != '#' && buf[5] != '#';
    assert FirstMatch(buf, ['#'], 4, 8) == Some(6);
    assert CountOnLineBefore(buf, 6, '"') == 2;
    assert CountOnLineBefore(buf, 6, '\'') == 0;
    assert LineEnd(buf, 6) == 8;
    NextComment(buf, 4, 6, 8);
    FirstMatchChar(buf, '#', 8, 8);
    assert CommentSpans(buf, 8) == [];
  }
}
