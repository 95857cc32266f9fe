// The editor buffer as a flat sequence of characters.
//
// A Tk text index "line.col" is an offset into this sequence; lines are
// separated by '\n'. Tk keeps an implicit newline after the last line, so
// the end of the last line is the offset |buf|.

module TextBuffer {

  datatype Option<T> = None | Some(value: T)

  /** A half-open range [start, end) of buffer offsets, as given to tag_add. */
  datatype Span = Span(start: nat, end: nat)

  /** The offsets a tag_add over [a, b) covers. */
  function Range(a: nat, b: nat): set<nat>
    decreases b
  {
    if b <= a then {} else Range(a, b - 1) + {b - 1}
  }

  lemma {:induction false} RangeMembers(a: nat, b: nat)
    ensures forall i: nat :: i in Range(a, b) <==> a <= i < b
    decreases b
  {
    if b > a {
      RangeMembers(a, b - 1);
    }
  }

  /** Each span ends no later than the next one starts. */
  predicate Ordered(spans: seq<Span>)
  {
    forall k :: 0 <= k < |spans| - 1 ==> spans[k].end <= spans[k + 1].start
  }

  lemma OrderedCons(s: Span, rest: seq<Span>)
    requires Ordered(rest) && (rest == [] || s.end <= rest[0].start)
    ensures Ordered([s] + rest)
  {
    var spans := [s] + rest;
    forall k | 0 <= k < |spans| - 1
      ensures spans[k].end <= spans[k + 1].start
    {
      if k > 0 {
        assert spans[k] == rest[k - 1];
      }
    }
  }

  /** The offsets covered by a sequence of spans. */
  function Cover(spans: seq<Span>): set<nat>
  {
    if spans == [] then {}
    else Cover(spans[..|spans| - 1]) + Range(spans[|spans| - 1].start, spans[|spans| - 1].end)
  }

  lemma CoverAppend(spans: seq<Span>, s: Span)
    ensures Cover(spans + [s]) == Cover(spans) + Range(s.start, s.end)
  {
    assert (spans + [s])[..|spans|] == spans;
  }

  /** Moving the head of the remaining spans to the end of those visited
      leaves the whole sequence unchanged. */
  lemma VisitNext(visited: seq<Span>, s: Span, rest: seq<Span>, after: seq<Span>, whole: seq<Span>)
    requires visited + rest == whole && rest == [s] + after
    ensures (visited + [s]) + after == whole
  {
    assert (visited + [s]) + after == visited + ([s] + after);
  }

  /** Adding one more span to a tag keeps it equal to its initial offsets
      plus those of the spans tagged so far. */
  lemma TagAdded(tags0: set<nat>, before: set<nat>, after: set<nat>, visited: seq<Span>, s: Span)
    requires forall i :: i in before <==> i in tags0 || i in Cover(visited)
    requires after == before + Range(s.start, s.end)
    ensures forall i :: i in after <==> i in tags0 || i in Cover(visited + [s])
  {
    CoverAppend(visited, s);
  }

  /** Removing one more span from a tag keeps it equal to its initial
      offsets minus those of the spans removed so far. */
  lemma TagRemoved(tags0: set<nat>, before: set<nat>, after: set<nat>, visited: seq<Span>, s: Span)
    requires forall i :: i in before <==> i in tags0 && i !in Cover(visited)
    requires after == before - Range(s.start, s.end)
    ensures forall i :: i in after <==> i in tags0 && i !in Cover(visited + [s])
  {
    CoverAppend(visited, s);
  }

  lemma {:induction false} CoverMembers(spans: seq<Span>)
    ensures forall i: nat :: i in Cover(spans) <==> exists s :: s in spans && s.start <= i < s.end
  {
    if spans != [] {
      var prefix, last := spans[..|spans| - 1], spans[|spans| - 1];
      assert spans == prefix + [last];
      CoverMembers(prefix);
      RangeMembers(last.start, last.end);
    }
  }

  /** Tk's "linestart": the offset of the first character of the line holding i. */
  function LineStart(buf: seq<char>, i: nat): (s: nat)
    requires i <= |buf|
    ensures s <= i
    ensures s == 0 || buf[s - 1] == '\n'
    ensures forall k :: s <= k < i ==> buf[k] != '\n'
    decreases i
  {
    if i == 0 || buf[i - 1] == '\n' then i else LineStart(buf, i - 1)
  }

  /** Tk's "lineend": the offset of the newline ending the line holding i,
      or |buf| on the last line. */
  function LineEnd(buf: seq<char>, i: nat): (e: nat)
    requires i <= |buf|
    ensures i <= e <= |buf|
    ensures e == |buf| || buf[e] == '\n'
    ensures forall k :: i <= k < e ==> buf[k] != '\n'
    decreases |buf| - i
  {
    if i == |buf| || buf[i] == '\n' then i else LineEnd(buf, i + 1)
  }

  /** An offset that is not a newline lies before the end of the line of
      every offset between its line start and itself. */
  lemma BeforeLineEnd(buf: seq<char>, h: nat, i: nat)
    requires h <= i < |buf| && LineStart(buf, i) <= h && buf[i] != '\n'
    ensures i < LineEnd(buf, h)
  {
  }

  /** `pat` occurs in `buf` at offset i. */
  predicate Occurs(buf: seq<char>, pat: seq<char>, i: nat)
  {
    i + |pat| <= |buf| && forall k :: i <= k < i + |pat| ==> buf[k] == pat[k - i]
  }

  lemma OccursChar(buf: seq<char>, c: char, i: nat)
    ensures Occurs(buf, [c], i) <==> i < |buf| && buf[i] == c
  {
    if i < |buf| && buf[i] == c {
      assert buf[i..i + 1] == [c];
    }
    if Occurs(buf, [c], i) {
      assert buf[i..i + 1][0] == buf[i];
    }
  }

  lemma OccursAt(buf: seq<char>, pat: seq<char>, m: nat, i: nat)
    requires Occurs(buf, pat, m) && m <= i < m + |pat|
    ensures i < |buf| && buf[i] == pat[i - m]
  {
    assert buf[m..m + |pat|][i - m] == buf[i];
  }

  /** A newline-free pattern occurring at i ends no later than i's line. */
  lemma OccursWithinLine(buf: seq<char>, pat: seq<char>, i: nat)
    requires Occurs(buf, pat, i) && '\n' !in pat
    ensures i + |pat| <= LineEnd(buf, i)
  {
  }

  /** Tk's exact forward text search from `from` to `stop`: the first
      occurrence, if any. The whole match must end by `stop`. Tk's default
      limit bounds only where a match starts; the two agree for a
      one-character pattern and for a search that stops at the buffer end. */
  function FirstMatch(buf: seq<char>, pat: seq<char>, from: nat, stop: nat): (r: Option<nat>)
    requires stop <= |buf|
    ensures r.Some? ==> from <= r.value && r.value + |pat| <= stop && Occurs(buf, pat, r.value)
    decreases stop - from
  {
    if from + |pat| > stop then None
    else if Occurs(buf, pat, from) then Some(from)
    else FirstMatch(buf, pat, from + 1, stop)
  }

  /** The search misses no occurrence: it finds one at or before every
      occurrence in range. */
  lemma {:induction false} FirstMatchIsFirst(buf: seq<char>, pat: seq<char>, from: nat, stop: nat, k: nat)
    requires stop <= |buf| && from <= k && k + |pat| <= stop && Occurs(buf, pat, k)
    ensures FirstMatch(buf, pat, from, stop).Some? && FirstMatch(buf, pat, from, stop).value <= k
    decreases stop - from
  {
    if !Occurs(buf, pat, from) {
      FirstMatchIsFirst(buf, pat, from + 1, stop, k);
    }
  }

  /** A search for one character c finds the first c in [from, stop). */
  lemma FirstMatchChar(buf: seq<char>, c: char, from: nat, stop: nat)
    requires stop <= |buf|
    ensures FirstMatch(buf, [c], from, stop).Some? ==>
              var r := FirstMatch(buf, [c], from, stop).value;
              from <= r < stop && buf[r] == c && forall k :: from <= k < r ==> buf[k] != c
    ensures FirstMatch(buf, [c], from, stop).None? ==> forall k :: from <= k < stop ==> buf[k] != c
  {
    var r := FirstMatch(buf, [c], from, stop);
    forall k | from <= k < stop && buf[k] == c
      ensures r.Some? && r.value <= k
    {
      OccursChar(buf, c, k);
      FirstMatchIsFirst(buf, [c], from, stop, k);
    }
    if r.Some? {
      OccursChar(buf, c, r.value);
    }
  }
}
