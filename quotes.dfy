// String highlighting: one left-to-right scan per quote character that
// pairs quotes on the same line (page.py, syntaxHighlight).

module Quotes {
  import opened TextBuffer

  /** The shape of a span the scan for quote q tags: it starts at a q and
      stays on that q's line; it either closes at the next q on the line,
      inclusive, or, when the line has no further q, runs to the line end
      without taking the newline. */
  predicate QuoteSpan(buf: string, q: char, s: Span)
  {
    s.start < |buf| && buf[s.start] == q &&
    s.start < s.end <= LineEnd(buf, s.start) &&
    (forall k :: s.start < k < s.end - 1 ==> buf[k] != q) &&
    ((s.start < s.end - 1 && buf[s.end - 1] == q) ||
     (s.end == LineEnd(buf, s.start) && forall k :: s.start < k < s.end ==> buf[k] != q))
  }

  /** The span tagged for the opening quote at offset a: up to and
      including the next q before the end of a's line, or to the line end
      when there is none. The scan resumes at the span's end either way. */
  function SpanFrom(buf: string, q: char, a: nat): (s: Span)
    requires q != '\n' && Occurs(buf, [q], a)
    ensures s.start == a && QuoteSpan(buf, q, s)
  {
    OccursChar(buf, q, a);
    var e := LineEnd(buf, a);
    FirstMatchChar(buf, q, a + 1, e);
    match FirstMatch(buf, [q], a + 1, e)
    case None => Span(a, e)
    case Some(c) => Span(a, c + 1)
  }

  /** The spans the scan for quote q tags, searching from offset `from`. */
  function QuoteSpans(buf: string, q: char, from: nat): seq<Span>
    requires q != '\n' && from <= |buf|
    decreases |buf| - from
  {
    match FirstMatch(buf, [q], from, |buf|)
    case None => []
    case Some(a) =>
      var s := SpanFrom(buf, q, a);
      [s] + QuoteSpans(buf, q, s.end)
  }

  /** The span the string loop tags from the q found at a, running to the
      closing q found by the search on a's line or else to the line end, is
      the next span of the scan. */
  lemma NextSpan(buf: string, q: char, from: nat, a: nat, close: Option<nat>, b: nat)
    requires q != '\n' && from <= |buf|
    requires FirstMatch(buf, [q], from, |buf|) == Some(a)
    requires close == FirstMatch(buf, [q], a + 1, LineEnd(buf, a))
    requires b == if close.Some? then close.value + 1 else LineEnd(buf, a)
    ensures from < b <= |buf|
    ensures QuoteSpans(buf, q, from) == [Span(a, b)] + QuoteSpans(buf, q, b)
  {
    assert Span(a, b) == SpanFrom(buf, q, a);
  }

  /** One round of the string loop: adding the next span to the tags keeps
      them equal to `str` plus the spans visited so far. */
  lemma ScanStep(buf: string, q: char, str: set<nat>, from: nat, visited: seq<Span>,
                 a: nat, close: Option<nat>, b: nat, tags0: set<nat>, tags: set<nat>)
    requires q != '\n' && from <= |buf|
    requires FirstMatch(buf, [q], from, |buf|) == Some(a)
    requires close == FirstMatch(buf, [q], a + 1, LineEnd(buf, a))
    requires b == if close.Some? then close.value + 1 else LineEnd(buf, a)
    requires visited + QuoteSpans(buf, q, from) == QuoteSpans(buf, q, 0)
    requires forall i :: i in tags0 <==> i in str || i in Cover(visited)
    requires tags == tags0 + Range(a, b)
    ensures from < b <= |buf|
    ensures (visited + [Span(a, b)]) + QuoteSpans(buf, q, b) == QuoteSpans(buf, q, 0)
    ensures forall i :: i in tags <==> i in str || i in Cover(visited + [Span(a, b)])
  {
    NextSpan(buf, q, from, a, close, b);
    VisitNext(visited, Span(a, b), QuoteSpans(buf, q, from), QuoteSpans(buf, q, b), QuoteSpans(buf, q, 0));
    TagAdded(str, tags0, tags, visited, Span(a, b));
  }

  /** Every span of the scan has the quote-span shape, and the spans come
      in order without overlapping. */
  lemma {:induction false} QuoteSpansShape(buf: string, q: char, from: nat)
    requires q != '\n' && from <= |buf|
    ensures forall s :: s in QuoteSpans(buf, q, from) ==> from <= s.start && QuoteSpan(buf, q, s)
    ensures Ordered(QuoteSpans(buf, q, from))
    decreases |buf| - from
  {
    FirstMatchChar(buf, q, from, |buf|);
    if FirstMatch(buf, [q], from, |buf|).Some? {
      var a := FirstMatch(buf, [q], from, |buf|).value;
      var s := SpanFrom(buf, q, a);
      QuoteSpansShape(buf, q, s.end);
      var rest := QuoteSpans(buf, q, s.end);
      assert QuoteSpans(buf, q, from) == [s] + rest;
      assert rest != [] ==> rest[0] in rest;
      OrderedCons(s, rest);
    }
  }

  /** String tags stay inside the buffer and never cover a newline: no
      string crosses a line boundary. */
  lemma QuoteTagsInLines(buf: string, q: char, from: nat, i: nat)
    requires q != '\n' && from <= |buf|
    requires i in Cover(QuoteSpans(buf, q, from))
    ensures from <= i < |buf| && buf[i] != '\n'
  {
    QuoteSpansShape(buf, q, from);
    CoverMembers(QuoteSpans(buf, q, from));
    var s :| s in QuoteSpans(buf, q, from) && s.start <= i < s.end;
  }

  /** Every q at or after `from` ends up inside a string tag. */
  lemma {:induction false} QuoteCharsCovered(buf: string, q: char, from: nat, j: nat)
    requires q != '\n' && from <= j < |buf| && buf[j] == q
    ensures j in Cover(QuoteSpans(buf, q, from))
    decreases |buf| - from
  {
    FirstMatchChar(buf, q, from, |buf|);
    var a := FirstMatch(buf, [q], from, |buf|).value;
    var s := SpanFrom(buf, q, a);
    var rest := QuoteSpans(buf, q, s.end);
    assert QuoteSpans(buf, q, from) == [s] + rest;
    CoverMembers(QuoteSpans(buf, q, from));
    if j < s.end {
      assert s in QuoteSpans(buf, q, from);
    } else {
      QuoteCharsCovered(buf, q, s.end, j);
      CoverMembers(rest);
      var t :| t in rest && t.start <= j < t.end;
      assert t in QuoteSpans(buf, q, from);
    }
  }

  /** Two buffers with q and the newline at the same offsets. */
  predicate SameQuotesAndLines(b1: string, b2: string, q: char)
  {
    |b1| == |b2| &&
    forall i :: 0 <= i < |b1| ==> (b1[i] == q <==> b2[i] == q) && (b1[i] == '\n' <==> b2[i] == '\n')
  }

  lemma {:induction false} LineEndAgrees(b1: string, b2: string, q: char, i: nat)
    requires SameQuotesAndLines(b1, b2, q) && i <= |b1|
    ensures LineEnd(b1, i) == LineEnd(b2, i)
    decreases |b1| - i
  {
    if i < |b1| && b1[i] != '\n' {
      LineEndAgrees(b1, b2, q, i + 1);
    }
  }

  lemma FirstMatchAgrees(b1: string, b2: string, q: char, from: nat, stop: nat)
    requires SameQuotesAndLines(b1, b2, q) && stop <= |b1|
    ensures FirstMatch(b1, [q], from, stop) == FirstMatch(b2, [q], from, stop)
  {
    FirstMatchChar(b1, q, from, stop);
    FirstMatchChar(b2, q, from, stop);
  }

  /** The scan for q looks at nothing but the q characters and the line
      breaks: in particular the other quote character, and the strings it
      opens, have no effect on it. */
  lemma {:induction false} QuoteSpansIgnoreOtherCharacters(b1: string, b2: string, q: char, from: nat)
    requires q != '\n' && SameQuotesAndLines(b1, b2, q) && from <= |b1|
    ensures QuoteSpans(b1, q, from) == QuoteSpans(b2, q, from)
    decreases |b1| - from
  {
    FirstMatchAgrees(b1, b2, q, from, |b1|);
    var r := FirstMatch(b1, [q], from, |b1|);
    if r.Some? {
      var a := r.value;
      var e := LineEnd(b1, a);
      LineEndAgrees(b1, b2, q, a);
      FirstMatchAgrees(b1, b2, q, a + 1, e);
      assert SpanFrom(b1, q, a) == SpanFrom(b2, q, a);
      QuoteSpansIgnoreOtherCharacters(b1, b2, q, SpanFrom(b1, q, a).end);
    }
  }

  /** Unterminated strings run to the end of their line and stop before the
      newline; the scan then goes on from there. */
  lemma UnterminatedStrings()
    ensures QuoteSpans("x='a\nb'", '\'', 0) == [Span(2, 4), Span(6, 7)]
  {
    var buf := "x='a\nb'";
    UnterminatedFirstLine(buf);
    UnterminatedSecondLine(buf);
  }

  lemma UnterminatedFirstLine(buf: string)
    requires buf == "x='a\nb'"
    ensures QuoteSpans(buf, '\'', 0) == [Span(2, 4)] + QuoteSpans(buf, '\'', 4)
  {
    var q := '\'';
    FirstMatchChar(buf, q, 0, 7);
    assert buf[2] == q && buf[0] != q && buf[1] != q;
    assert FirstMatch(buf, [q], 0, 7) == Some(2);
    assert buf[3] == 'a' && buf[4] == '\n';
    assert LineEnd(buf, 2) == 4;
    FirstMatchChar(buf, q, 3, 4);
    NextSpan(buf, q, 0, 2, None, 4);
  }

  lemma UnterminatedSecondLine(buf: string)
    requires buf == "x='a\nb'"
    ensures QuoteSpans(buf, '\'', 4) == [Span(6, 7)]
  {
    var q := '\'';
    FirstMatchChar(buf, q, 4, 7);
    assert buf[6] == q && buf[4] != q && buf[5] != q;
    assert FirstMatch(buf, [q], 4, 7) == Some(6);
    assert LineEnd(buf, 6) == 7;
    FirstMatchChar(buf, q, 7, 7);
    NextSpan(buf, q, 4, 6, None, 7);
    assert QuoteSpans(buf, q, 7) == [];
  }
}
