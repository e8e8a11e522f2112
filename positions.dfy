/**
 * Positions in a source text, as the parser reports them (proc_macro2's `LineColumn`: a 1-based
 * line and a 0-based column counted in characters), and their translation into offsets into
 * the text, which is laid out as its lines separated by line feeds.
 */
module Positions {
  import opened Text

  datatype Pos = Pos(line: nat, column: nat)

  /** `LineColumn`'s derived ordering: by line, then by column. */
  predicate Le(a: Pos, b: Pos) {
    a.line < b.line || (a.line == b.line && a.column <= b.column)
  }

  predicate Lt(a: Pos, b: Pos) {
    a.line < b.line || (a.line == b.line && a.column < b.column)
  }

  /** The start and end positions of a parsed construct (`Span::start()`, `Span::end()`). */
  datatype Span = Span(start: Pos, end: Pos)

  function Min(a: nat, b: nat): nat {
    if a <= b then a else b
  }

  /** Each line followed by its line feed. */
  function Terminated(lines: seq<string>): string {
    if lines == [] then [] else lines[0] + "\n" + Terminated(lines[1..])
  }

  /** The number of characters before the 0-based line `k`: the sum of (length + 1) over the earlier lines. */
  function LineStart(lines: seq<string>, k: nat): nat
    requires k <= |lines|
  {
    if k == 0 then 0 else |lines[0]| + 1 + LineStart(lines[1..], k - 1)
  }

  /** The same sum counted in bytes, `lines[..k].iter().map(|s| s.len() + 1).sum()`. */
  function ByteLineStart(lines: seq<string>, k: nat): nat
    requires k <= |lines|
  {
    if k == 0 then 0 else ByteLen(lines[0]) + 1 + ByteLineStart(lines[1..], k - 1)
  }

  /** The position names one of the lines; `lines[loc.line - 1]` panics otherwise. */
  predicate OnLines(lines: seq<string>, p: Pos) {
    1 <= p.line <= |lines|
  }

  /**
   * `from_pos` as written: the bytes of the earlier lines and their line feeds, plus the byte
   * index of the `column`-th character of the line, or the line's byte length when the line
   * has no such character.
   */
  function FromPos(lines: seq<string>, p: Pos): nat
    requires OnLines(lines, p)
  {
    var line := lines[p.line - 1];
    ByteLineStart(lines, p.line - 1)
      + (if p.column < |line| then ByteLen(line[..p.column]) else ByteLen(line))
  }

  /** The character offset of the same place: a column past the end of the line is clamped to the line's end. */
  function CharOffset(lines: seq<string>, p: Pos): nat
    requires OnLines(lines, p)
  {
    LineStart(lines, p.line - 1) + Min(p.column, |lines[p.line - 1]|)
  }

  lemma {:induction false} LineStartNext(lines: seq<string>, k: nat)
    requires k < |lines|
    ensures LineStart(lines, k + 1) == LineStart(lines, k) + |lines[k]| + 1
  {
    if k > 0 {
      LineStartNext(lines[1..], k - 1);
    }
  }

  /** A later line starts after the whole of an earlier line and its line feed. */
  lemma {:induction false} LineStartMono(lines: seq<string>, a: nat, b: nat)
    requires a < b <= |lines|
    ensures LineStart(lines, a) + |lines[a]| + 1 <= LineStart(lines, b)
    decreases b - a
  {
    LineStartNext(lines, a);
    if a + 1 < b {
      LineStartMono(lines, a + 1, b);
      LineStartNext(lines, a + 1);
    }
  }

  lemma {:induction false} TerminatedLength(ls: seq<string>)
    ensures |Terminated(ls)| == LineStart(ls, |ls|)
    ensures ByteLen(Terminated(ls)) == ByteLineStart(ls, |ls|)
  {
    if ls != [] {
      TerminatedLength(ls[1..]);
      ByteLenConcat(ls[0], "\n");
      ByteLenConcat(ls[0] + "\n", Terminated(ls[1..]));
    }
  }

  /** The sums only look at the lines before `k`. */
  lemma {:induction false} LineStartPrefix(lines: seq<string>, k: nat)
    requires k <= |lines|
    ensures LineStart(lines, k) == LineStart(lines[..k], k)
    ensures ByteLineStart(lines, k) == ByteLineStart(lines[..k], k)
  {
    if k > 0 {
      LineStartPrefix(lines[1..], k - 1);
      assert lines[..k][1..] == lines[1..][..k - 1];
    }
  }

  /** The joined text is the earlier lines, each with its line feed, followed by the rest joined. */
  lemma {:induction false} JoinTerminated(lines: seq<string>, k: nat)
    requires k < |lines|
    ensures Join(lines) == Terminated(lines[..k]) + Join(lines[k..])
  {
    if k > 0 {
      JoinTerminated(lines[1..], k - 1);
      assert lines[1..][..k - 1] == lines[1..k] == lines[..k][1..];
      assert lines[1..][k - 1..] == lines[k..];
    } else {
      assert lines[..0] == [] && lines[0..] == lines;
    }
  }

  /** Lines without line feeds, each terminated, split back into those lines before what follows. */
  lemma SplitTerminated(lines: seq<string>, t: string)
    requires forall k :: 0 <= k < |lines| ==> '\n' !in lines[k]
    ensures Split(Terminated(lines) + t) == lines + Split(t)
  {
    var all := lines + Split(t);
    JoinTerminated(all, |lines|);
    assert all[..|lines|] == lines && all[|lines|..] == Split(t);
    JoinSplit(t);
    assert forall k :: 0 <= k < |all| ==> '\n' !in all[k] by {
      forall k | 0 <= k < |all| ensures '\n' !in all[k] {
        if k >= |lines| {
          assert all[k] == Split(t)[k - |lines|];
        }
      }
    }
    SplitJoin(all);
  }

  /**
   * `lines()` loses nothing but the line endings: for a text without carriage returns, its lines,
   * each followed by a line feed, give the text back when it is empty or ends with a line feed,
   * and its lines joined by line feeds give it back otherwise.
   */
  lemma RustLinesRoundTrip(s: string)
    requires '\r' !in s
    ensures s == [] || EndsWithNewline(s) ==> Terminated(RustLines(s)) == s
    ensures !(s == [] || EndsWithNewline(s)) ==> Join(RustLines(s)) == s
  {
    var p := Split(s);
    var n := |p| - 1;
    var ls := RustLines(s);
    SplitWithout(s, '\r');
    RustLinesPieces(s);
    forall k | 0 <= k < n
      ensures ls[k] == p[k]
    {
      StripCrWithout(p[k]);
    }
    SplitLastEmpty(s);
    JoinSplit(s);
    PiecesBack(ls, p);
  }

  /**
   * Lines that match the pieces one for one, the last piece included exactly when it is not
   * empty, come back terminated when it is empty and joined otherwise.
   */
  lemma PiecesBack(ls: seq<string>, p: seq<string>)
    requires |p| > 0
    requires |ls| == if p[|p| - 1] == [] then |p| - 1 else |p|
    requires forall k :: 0 <= k < |ls| ==> ls[k] == p[k]
    ensures p[|p| - 1] == [] ==> Terminated(ls) == Join(p)
    ensures p[|p| - 1] != [] ==> Join(ls) == Join(p)
  {
    var n := |p| - 1;
    if p[n] == [] {
      assert ls == p[..n];
      JoinTerminated(p, n);
      assert p[n..] == [[]];
    } else {
      assert ls == p;
    }
  }

  /** Where line `k` sits in the joined text, and what follows it. */
  lemma LineLayout(lines: seq<string>, k: nat)
    requires k < |lines|
    ensures LineStart(lines, k) + |lines[k]| <= |Join(lines)|
    ensures Join(lines)[LineStart(lines, k)..LineStart(lines, k) + |lines[k]|] == lines[k]
    ensures Join(lines)[..LineStart(lines, k) + |lines[k]|] == Terminated(lines[..k]) + lines[k]
    ensures k + 1 == |lines| <==> LineStart(lines, k) + |lines[k]| == |Join(lines)|
    ensures k + 1 < |lines| ==> Join(lines)[LineStart(lines, k) + |lines[k]|] == '\n'
  {
    JoinTerminated(lines, k);
    TerminatedLength(lines[..k]);
    LineStartPrefix(lines, k);
    var pre := Terminated(lines[..k]);
    var rest := Join(lines[k..]);
    if k + 1 < |lines| {
      assert lines[k..][1..] == lines[k + 1..];
      assert rest == lines[k] + "\n" + Join(lines[k + 1..]);
    } else {
      assert rest == lines[k];
    }
    assert Join(lines) == pre + rest;
  }

  /** Line `k` ends inside the joined text. */
  lemma LineFits(lines: seq<string>, k: nat)
    requires k < |lines|
    ensures LineStart(lines, k) + |lines[k]| <= |Join(lines)|
  {
    LineLayout(lines, k);
  }

  /** Character `j` of line `i` sits at offset `LineStart(i) + j` of the joined text. */
  lemma CellChar(lines: seq<string>, i: nat, j: nat)
    requires i < |lines| && j < |lines[i]|
    ensures LineStart(lines, i) + j < |Join(lines)|
    ensures Join(lines)[LineStart(lines, i) + j] == lines[i][j]
  {
    LineLayout(lines, i);
    var s := LineStart(lines, i);
    assert Join(lines)[s..s + |lines[i]|][j] == lines[i][j];
  }

  /** A clamped offset never passes the end of the text. */
  lemma CharOffsetBound(lines: seq<string>, p: Pos)
    requires OnLines(lines, p)
    ensures CharOffset(lines, p) <= LineStart(lines, p.line - 1) + |lines[p.line - 1]| <= |Join(lines)|
  {
    LineLayout(lines, p.line - 1);
  }

  /** Offsets respect the order of positions. */
  lemma CharOffsetMono(lines: seq<string>, p: Pos, q: Pos)
    requires OnLines(lines, p) && OnLines(lines, q) && Le(p, q)
    ensures CharOffset(lines, p) <= CharOffset(lines, q)
  {
    if p.line < q.line {
      LineStartMono(lines, p.line - 1, q.line - 1);
    }
  }

  /** A position strictly before another, on a character of its line, has a strictly smaller offset. */
  lemma CharOffsetStrict(lines: seq<string>, p: Pos, q: Pos)
    requires OnLines(lines, p) && OnLines(lines, q) && Lt(p, q)
    requires p.column < |lines[p.line - 1]|
    ensures CharOffset(lines, p) < CharOffset(lines, q)
  {
    if p.line < q.line {
      LineStartMono(lines, p.line - 1, q.line - 1);
    }
  }

  /**
   * The source's byte offset is the UTF-8 length of the text before the character offset, so
   * cutting the character sequence at `CharOffset` cuts the byte string at `FromPos`.
   */
  lemma FromPosIsBytePrefix(lines: seq<string>, p: Pos)
    requires OnLines(lines, p)
    ensures CharOffset(lines, p) <= |Join(lines)|
    ensures FromPos(lines, p) == ByteLen(Join(lines)[..CharOffset(lines, p)])
  {
    var k := p.line - 1;
    var line := lines[k];
    var m := Min(p.column, |line|);
    LineLayout(lines, k);
    TerminatedLength(lines[..k]);
    LineStartPrefix(lines, k);
    var pre := Terminated(lines[..k]);
    var upto := Join(lines)[..LineStart(lines, k) + |line|];
    assert upto == pre + line;
    assert Join(lines)[..CharOffset(lines, p)] == upto[..|pre| + m] == pre + line[..m];
    ByteLenConcat(pre, line[..m]);
    assert line[..|line|] == line;
  }

  /**
   * Comparing character `j` of line `i` (0-based) with a position, as the forward splicer does
   * with `(i, j) == (line - 1, column)` and `(i, j) < (line - 1, column)`, agrees with comparing
   * their offsets.
   */
  lemma CellCompare(lines: seq<string>, i: nat, j: nat, p: Pos)
    requires i < |lines| && j < |lines[i]| && OnLines(lines, p)
    ensures (i == p.line - 1 && j == p.column) <==> LineStart(lines, i) + j == CharOffset(lines, p)
    ensures (i < p.line - 1 || (i == p.line - 1 && j < p.column))
            <==> LineStart(lines, i) + j < CharOffset(lines, p)
  {
    if i < p.line - 1 {
      LineStartMono(lines, i, p.line - 1);
    } else if p.line - 1 < i {
      LineStartMono(lines, p.line - 1, i);
    }
  }

  /** A position at or after the end of line `i` lands exactly on the line's end when it is on that line. */
  lemma LineEndCompare(lines: seq<string>, i: nat, p: Pos)
    requires i < |lines| && OnLines(lines, p) && Le(Pos(i + 1, |lines[i]|), p)
    ensures p.line - 1 == i ==> CharOffset(lines, p) == LineStart(lines, i) + |lines[i]|
    ensures p.line - 1 != i ==> CharOffset(lines, p) > LineStart(lines, i) + |lines[i]|
  {
    if p.line - 1 > i {
      LineStartMono(lines, i, p.line - 1);
    }
  }

  /** A position whose offset falls on a character (not a line end) has its column inside the line. */
  lemma OffsetOnCharacter(lines: seq<string>, p: Pos)
    requires OnLines(lines, p)
    requires CharOffset(lines, p) < |Join(lines)| && Join(lines)[CharOffset(lines, p)] != '\n'
    ensures p.column < |lines[p.line - 1]|
  {
    LineLayout(lines, p.line - 1);
  }

  /** Line `k` is the stretch of the joined text that starts at `LineStart(lines, k)`. */
  lemma LineSlice(lines: seq<string>, k: nat)
    requires k < |lines|
    ensures LineStart(lines, k) + |lines[k]| <= |Join(lines)|
    ensures Join(lines)[LineStart(lines, k)..LineStart(lines, k) + |lines[k]|] == lines[k]
  {
    LineLayout(lines, k);
  }

  /** A character missing from a text is missing from each of its slices. */
  lemma NotInSlice(s: string, a: nat, b: nat, c: char)
    requires a <= b <= |s| && c !in s
    ensures c !in s[a..b]
  {
    forall m | 0 <= m < b - a
      ensures s[a..b][m] != c
    {
      assert s[a..b][m] == s[a + m];
    }
  }

  /** Between two positions on the same line there is no line feed of the joined text. */
  lemma SameLineSlice(lines: seq<string>, p: Pos, q: Pos)
    requires OnLines(lines, p) && OnLines(lines, q) && p.line == q.line && Le(p, q)
    requires '\n' !in lines[p.line - 1]
    ensures CharOffset(lines, p) <= CharOffset(lines, q) <= |Join(lines)|
    ensures '\n' !in Join(lines)[CharOffset(lines, p)..CharOffset(lines, q)]
  {
    var k := p.line - 1;
    var line := lines[k];
    var s := LineStart(lines, k);
    var a, b := Min(p.column, |line|), Min(q.column, |line|);
    var t := Join(lines);
    LineSlice(lines, k);
    assert a <= b;
    SliceOfSlice(t, s, |line|, a, b);
    NotInSlice(line, a, b, '\n');
  }

  /** A slice of a slice is a slice of the whole. */
  lemma SliceOfSlice(t: string, s: nat, n: nat, a: nat, b: nat)
    requires s + n <= |t| && a <= b <= n
    ensures t[s + a..s + b] == t[s..s + n][a..b]
  {
    var u := t[s..s + n];
    assert forall i :: 0 <= i < b - a ==> t[s + a..s + b][i] == t[s + a + i] == u[a + i] == u[a..b][i];
  }
}
