/**
 * The forward-walking span splicer of the build script (`replace_ranges`,
 * ac-library-rs-parted-build/build.rs), written as functions of its loop state: the output
 * built so far, the replacements not yet consumed (the shrinking slice `replacements`), and
 * `skip_until`. The replacements come out of a `BTreeMap` keyed by `(start, end)`, so they
 * arrive sorted by start position.
 */
module ForwardWalk {
  import opened Base
  import opened Text
  import opened Positions

  /** One entry `((start, end), replacement)` of the replacement map. */
  datatype Entry = Entry(start: Pos, end: Pos, text: string)

  /** The loop state: `ret`, the unconsumed `replacements`, and `skip_until`. */
  datatype Walk = Walk(out: string, rest: seq<Entry>, skip: Option<Pos>)

  /** `(i, j) == (p.line - 1, p.column)`: character `j` of the 0-based line `i` is at `p`. */
  predicate At(i: nat, j: nat, p: Pos) {
    i == p.line - 1 && j == p.column
  }

  /** `(i, j) < (p.line - 1, p.column)`: character `j` of the 0-based line `i` comes before `p`. */
  predicate Before(i: nat, j: nat, p: Pos) {
    i < p.line - 1 || (i == p.line - 1 && j < p.column)
  }

  /** The remaining replacements are a suffix of the earlier ones: some were consumed, in order, each once. */
  predicate Consumed(before: seq<Entry>, after: seq<Entry>) {
    |after| <= |before| && after == before[|before| - |after|..]
  }

  /**
   * The body of the inner `for` for character `c` at column `j` of line `i`. When the next
   * replacement starts here, its text is emitted and it is consumed: a pure insertion
   * (`start == end`) then emits `c` too, a replacement drops `c` and skips until its end.
   * Otherwise `c` is dropped while it comes before `skip_until`, and emitted (clearing
   * `skip_until`) once it does not.
   */
  function CharStep(w: Walk, i: nat, j: nat, c: char): (r: Walk)
    ensures w.out <= r.out && Consumed(w.rest, r.rest)
  {
    if |w.rest| > 0 && At(i, j, w.rest[0].start) then
      var e := w.rest[0];
      if e.start == e.end then Walk(w.out + e.text + [c], w.rest[1..], w.skip)
      else Walk(w.out + e.text, w.rest[1..], Some(e.end))
    else if w.skip.Some? && Before(i, j, w.skip.value) then w
    else Walk(w.out + [c], w.rest, None)
  }

  /** The inner `for` over the characters of line `i` from column `j` on. */
  function LineChars(w: Walk, i: nat, s: string, j: nat): (r: Walk)
    requires j <= |s|
    ensures w.out <= r.out && Consumed(w.rest, r.rest)
    decreases |s| - j
  {
    if j == |s| then w else LineChars(CharStep(w, i, j, s[j]), i, s, j + 1)
  }

  /**
   * The `while let` after a line: the pending replacements that start on line `i` (at or past
   * its end) emit their text, in order; one with a non-empty span still arms `skip_until`.
   */
  function Flush(w: Walk, i: nat): (r: Walk)
    ensures w.out <= r.out && Consumed(w.rest, r.rest)
    ensures |r.rest| > 0 ==> i != r.rest[0].start.line - 1
    decreases |w.rest|
  {
    if |w.rest| > 0 && i == w.rest[0].start.line - 1 then
      var e := w.rest[0];
      Flush(Walk(w.out + e.text, w.rest[1..], if Lt(e.start, e.end) then Some(e.end) else w.skip), i)
    else w
  }

  /**
   * One turn of the outer loop: the characters of line `i`, the replacements flushed after it,
   * and a line feed unless this is the last line of a text that does not end with one (`nl`).
   * The line feed is emitted whatever `skip_until` says.
   */
  function LineStep(w: Walk, lines: seq<string>, i: nat, nl: bool): (r: Walk)
    requires i < |lines|
    ensures w.out <= r.out && Consumed(w.rest, r.rest)
  {
    var w1 := Flush(LineChars(w, i, lines[i], 0), i);
    if i + 1 < |lines| || nl then w1.(out := w1.out + "\n") else w1
  }

  /** The outer loop from line `i` on. */
  function LinesFrom(w: Walk, lines: seq<string>, i: nat, nl: bool): (r: Walk)
    requires i <= |lines|
    ensures w.out <= r.out && Consumed(w.rest, r.rest)
    decreases |lines| - i
  {
    if i == |lines| then w else LinesFrom(LineStep(w, lines, i, nl), lines, i + 1, nl)
  }

  /** The final state of the walk over `code.trim_end()` split at line feeds. */
  function Walked(code: string, replacements: seq<Entry>): Walk {
    LinesFrom(Walk("", replacements, None), Split(TrimEnd(code)), 0, EndsWithNewline(code))
  }
}
