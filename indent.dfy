// Auto-indent on the Return key: the previous line's indentation, rounded
// down to a multiple of four, plus four more after a line ending in ':'
// (page.py, syntaxHighlight).

module Indent {
  import opened TextBuffer

  /** Python's str.isspace for one character: what lstrip() removes. */
  predicate IsSpace(c: char)
  {
    var n := c as int;
    (0x09 <= n <= 0x0D) || (0x1C <= n <= 0x20) || n == 0x85 || n == 0xA0 || n == 0x1680 ||
    (0x2000 <= n <= 0x200A) || n == 0x2028 || n == 0x2029 || n == 0x202F || n == 0x205F ||
    n == 0x3000
  }

  /** The end of the whitespace run of s that starts at offset i. */
  function SpaceRun(s: string, i: nat): (n: nat)
    requires i <= |s|
    ensures i <= n <= |s|
    ensures forall k :: i <= k < n ==> IsSpace(s[k])
    ensures n == |s| || !IsSpace(s[n])
    decreases |s| - i
  {
    if i == |s| || !IsSpace(s[i]) then i else SpaceRun(s, i + 1)
  }

  /** len(s) - len(s.lstrip()): the length of the leading whitespace run. */
  function LeadingSpace(s: string): (n: nat)
    ensures n <= |s|
    ensures forall k :: 0 <= k < n ==> IsSpace(s[k])
    ensures n == |s| || !IsSpace(s[n])
  {
    SpaceRun(s, 0)
  }

  /** The number of spaces inserted for a previous line: its leading
      whitespace rounded down to a multiple of four. */
  function IndentWidth(line: string): (w: nat)
    ensures w % 4 == 0 && w <= LeadingSpace(line) < w + 4
  {
    4 * (LeadingSpace(line) / 4)
  }

  function Spaces(n: nat): string
  {
    seq(n, _ => ' ')
  }

  /** Tk's insert of t at offset p. */
  function Insert(buf: string, p: nat, t: string): string
    requires p <= |buf|
  {
    buf[..p] + t + buf[p..]
  }

  lemma InsertSpacesTwice(buf: string, p: nat, w: nat, v: nat)
    requires p <= |buf|
    ensures Insert(Insert(buf, p, Spaces(w)), p + w, Spaces(v)) == Insert(buf, p, Spaces(w + v))
  {
    var mid := Insert(buf, p, Spaces(w));
    assert mid[..p + w] == buf[..p] + Spaces(w);
    assert mid[p + w..] == buf[p..];
    assert Spaces(w) + Spaces(v) == Spaces(w + v);
  }

  /** The line read as "insert-1c linestart" to "insert-1c lineend" with
      the cursor at p: the line before the cursor's line right after a
      Return. */
  function PrevLine(buf: string, p: nat): (line: string)
    requires p <= |buf|
    ensures '\n' !in line
  {
    var q := if p == 0 then 0 else p - 1;
    buf[LineStart(buf, q)..LineEnd(buf, q)]
  }

  /** The colon test "insert-1l lineend -1c" == ":" with the cursor at p:
      the last character of the line above the cursor's line (of the first
      line, when the cursor is on it). */
  predicate ColonAbove(buf: string, p: nat)
    requires p <= |buf|
  {
    var s := LineStart(buf, p);
    var e := if s == 0 then LineEnd(buf, 0) else s - 1;
    e > 0 && buf[e - 1] == ':'
  }

  /** The number of spaces the Return handler inserts at cursor p: first
      the indentation of PrevLine, then four more if the colon test holds
      on the buffer as it is after that first insertion. */
  function IndentAfterReturn(buf: string, p: nat): (n: nat)
    requires p <= |buf|
    ensures n % 4 == 0
  {
    var w := IndentWidth(PrevLine(buf, p));
    if ColonAbove(Insert(buf, p, Spaces(w)), p + w) then w + 4 else w
  }

  /** The number of spaces the handler inserts is w, plus four when the
      colon test holds on the buffer with the w spaces inserted. */
  lemma IndentCases(buf: string, p: nat, w: nat, t0: string)
    requires p <= |buf| && w == IndentWidth(PrevLine(buf, p)) && t0 == Insert(buf, p, Spaces(w))
    ensures p + w <= |t0|
    ensures IndentAfterReturn(buf, p) == if ColonAbove(t0, p + w) then w + 4 else w
  {
  }

  /** The Return handler's two inserts at p: the w spaces of the previous
      line's indentation, giving t0, then four more when the colon test
      holds on t0. Together they insert IndentAfterReturn(buf, p) spaces at
      p, and the cursor ends up just after them. */
  lemma ReturnCases(buf: string, p: nat, w: nat, t0: string, colon: bool, t: string, c: nat)
    requires p <= |buf| && w == IndentWidth(PrevLine(buf, p)) && t0 == Insert(buf, p, Spaces(w))
    requires p + w <= |t0| && colon == ColonAbove(t0, p + w)
    requires colon ==> t == Insert(t0, p + w, Spaces(4)) && c == p + w + 4
    requires !colon ==> t == t0 && c == p + w
    ensures c == p + IndentAfterReturn(buf, p) <= |t|
    ensures t == Insert(buf, p, Spaces(IndentAfterReturn(buf, p)))
  {
    IndentCases(buf, p, w, t0);
    InsertSpacesTwice(buf, p, w, 4);
  }

  /** The two inserts of the Return handler on buffer buf with the cursor
      at p: the previous line's indentation rounded down to a multiple of
      four, then four more spaces when the line above ends in ':'. Returns
      the new buffer and the new cursor. */
  method ReturnInserts(buf: string, p: nat) returns (t: string, c: nat)
    requires p <= |buf|
    ensures c == p + IndentAfterReturn(buf, p) <= |t|
    ensures t == Insert(buf, p, Spaces(IndentAfterReturn(buf, p)))
  {
    var w := IndentWidth(PrevLine(buf, p));
    t, c := Insert(buf, p, Spaces(w)), p + w;
    ghost var t0 := t;
    var colon := ColonAbove(t, c);
    if colon {
      t, c := Insert(t, c, Spaces(4)), c + 4;
    }
    ReturnCases(buf, p, w, t0, colon, t, c);
  }

  /** Right after a newline at p - 1, the previous line read by the
      handler is the line that newline ends. */
  lemma PrevLineAfterNewline(buf: string, p: nat)
    requires 0 < p <= |buf| && buf[p - 1] == '\n'
    ensures PrevLine(buf, p) == buf[LineStart(buf, p - 1)..p - 1]
  {
    assert LineEnd(buf, p - 1) == p - 1;
  }

  /** Right after a newline at p - 1 and w inserted spaces, the colon test
      looks at the character just before that newline. */
  lemma ColonAfterNewline(buf: string, p: nat, w: nat)
    requires 0 < p <= |buf| && buf[p - 1] == '\n'
    ensures ColonAbove(Insert(buf, p, Spaces(w)), p + w) <==> p >= 2 && buf[p - 2] == ':'
  {
    var mid := Insert(buf, p, Spaces(w));
    assert mid[p - 1] == '\n';
    assert forall k :: p <= k < p + w ==> mid[k] == ' ';
    assert LineStart(mid, p + w) == p;
    if p >= 2 {
      assert mid[p - 2] == buf[p - 2];
    }
  }

  /** The line ended by the newline at p - 1 ends in ':' exactly when the
      character before that newline is ':'. */
  lemma LastOfLine(buf: string, p: nat)
    requires 0 < p <= |buf| && buf[p - 1] == '\n'
    ensures var prev := buf[LineStart(buf, p - 1)..p - 1];
            prev != [] && prev[|prev| - 1] == ':' <==> p >= 2 && buf[p - 2] == ':'
  {
  }

  /** Right after a Return the cursor follows a newline; then the handler
      inserts the previous line's indentation rounded down to a multiple of
      four, plus four when that line ends in ':'. */
  lemma IndentAfterNewline(buf: string, p: nat)
    requires 0 < p <= |buf| && buf[p - 1] == '\n'
    ensures var prev := buf[LineStart(buf, p - 1)..p - 1];
            IndentAfterReturn(buf, p)
            == IndentWidth(prev) + (if prev != [] && prev[|prev| - 1] == ':' then 4 else 0)
  {
    PrevLineAfterNewline(buf, p);
    ColonAfterNewline(buf, p, IndentWidth(PrevLine(buf, p)));
    LastOfLine(buf, p);
  }
}
