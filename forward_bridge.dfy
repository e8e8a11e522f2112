/**
 * The line-by-line walk of the build script's splicer is the flat walk over the joined text:
 * at every point of the outer and inner loops, the output so far followed by what the flat walk
 * emits from the matching offset is the final output. Together with `FlatWalkKeepsBreaks`
 * this gives what the splicer computes.
 */
module ForwardBridge {
  import opened Base
  import opened Text
  import opened Positions
  import opened Splice
  import opened ForwardWalk
  import opened ForwardTheory

  /** No line holds a line feed, as for the pieces of `split('\n')`. */
  predicate NoBreaks(lines: seq<string>) {
    forall k :: 0 <= k < |lines| ==> '\n' !in lines[k]
  }

  /**
   * The replacement maps the build script builds: every span is on a line of the text and
   * starts no later than it ends, each span ends no later than the next one starts, and no two
   * spans start at the same place.
   */
  predicate WellFormed(lines: seq<string>, rs: seq<Entry>) {
    && (forall k :: 0 <= k < |rs| ==>
          OnLines(lines, rs[k].start) && OnLines(lines, rs[k].end) && Le(rs[k].start, rs[k].end))
    && (forall k :: 0 <= k < |rs| - 1 ==>
          Le(rs[k].end, rs[k + 1].start) && Lt(rs[k].start, rs[k + 1].start))
  }

  /** The character range of each span, with its replacement. */
  function EntryCuts(lines: seq<string>, rs: seq<Entry>): (cuts: seq<Cut>)
    requires WellFormed(lines, rs)
    ensures |cuts| == |rs|
    ensures forall k :: 0 <= k < |rs| ==>
              cuts[k] == Cut(CharOffset(lines, rs[k].start), CharOffset(lines, rs[k].end), rs[k].text)
  {
    seq(|rs|, k requires 0 <= k < |rs| =>
      Cut(CharOffset(lines, rs[k].start), CharOffset(lines, rs[k].end), rs[k].text))
  }

  /** A replacement in offset terms. */
  function EntryFlat(lines: seq<string>, r: Entry): Flat
    requires OnLines(lines, r.start) && OnLines(lines, r.end)
  {
    Flat(Cut(CharOffset(lines, r.start), CharOffset(lines, r.end), r.text), r.start == r.end)
  }

  function Flatten(lines: seq<string>, rs: seq<Entry>): (es: seq<Flat>)
    requires WellFormed(lines, rs)
    ensures |es| == |rs|
  {
    if rs == [] then [] else [EntryFlat(lines, rs[0])] + Flatten(lines, rs[1..])
  }

  lemma FlattenTail(lines: seq<string>, rs: seq<Entry>)
    requires WellFormed(lines, rs) && |rs| > 0
    ensures WellFormed(lines, rs[1..])
    ensures Flatten(lines, rs)[0] == EntryFlat(lines, rs[0])
    ensures Flatten(lines, rs[1..]) == Flatten(lines, rs)[1..]
  {
  }

  lemma {:induction false} FlattenAt(lines: seq<string>, rs: seq<Entry>, k: nat)
    requires WellFormed(lines, rs) && k < |rs|
    ensures Flatten(lines, rs)[k] == EntryFlat(lines, rs[k])
  {
    FlattenTail(lines, rs);
    if k > 0 {
      FlattenAt(lines, rs[1..], k - 1);
    }
  }

  lemma FlattenCuts(lines: seq<string>, rs: seq<Entry>)
    requires WellFormed(lines, rs)
    ensures Cuts(Flatten(lines, rs)) == EntryCuts(lines, rs)
  {
    forall k | 0 <= k < |rs|
      ensures Cuts(Flatten(lines, rs))[k] == EntryCuts(lines, rs)[k]
    {
      FlattenAt(lines, rs, k);
    }
  }

  /** Well-formed spans give well-formed offset replacements. */
  lemma {:induction false} FlattenOK(lines: seq<string>, rs: seq<Entry>)
    requires WellFormed(lines, rs)
    ensures FlatOK(Join(lines), Flatten(lines, rs))
    decreases |rs|
  {
    if rs != [] {
      FlattenTail(lines, rs);
      FlattenOK(lines, rs[1..]);
      FlattenHeadOK(lines, rs);
    }
  }

  /** The first replacement in offset terms is well formed, and so is its relation to the second. */
  lemma FlattenHeadOK(lines: seq<string>, rs: seq<Entry>)
    requires WellFormed(lines, rs) && |rs| > 0
    ensures var e := Flatten(lines, rs)[0];
      && e.cut.lo <= e.cut.hi <= |Join(lines)|
      && (e.ins ==> e.cut.lo == e.cut.hi)
      && (IsCell(Join(lines), e.cut.lo) && !e.ins ==> e.cut.lo < e.cut.hi)
    ensures |rs| > 1 ==> Flatten(lines, rs)[0].cut.hi <= Flatten(lines, rs)[1].cut.lo
    ensures |rs| > 1 && IsCell(Join(lines), Flatten(lines, rs)[0].cut.lo) ==>
              Flatten(lines, rs)[0].cut.lo < Flatten(lines, rs)[1].cut.lo
  {
    assert Flatten(lines, rs)[0] == EntryFlat(lines, rs[0]);
    EntryFlatOK(lines, rs[0]);
    if |rs| > 1 {
      assert Flatten(lines, rs)[1] == EntryFlat(lines, rs[1]) by {
        FlattenTail(lines, rs);
        FlattenTail(lines, rs[1..]);
      }
      EntryFlatsOK(lines, rs[0], rs[1]);
    }
  }

  lemma EntryFlatOK(lines: seq<string>, r: Entry)
    requires OnLines(lines, r.start) && OnLines(lines, r.end) && Le(r.start, r.end)
    ensures var e := EntryFlat(lines, r);
      && e.cut.lo <= e.cut.hi <= |Join(lines)|
      && (e.ins ==> e.cut.lo == e.cut.hi)
      && (IsCell(Join(lines), e.cut.lo) && !e.ins ==> e.cut.lo < e.cut.hi)
  {
    CharOffsetMono(lines, r.start, r.end);
    CharOffsetBound(lines, r.end);
    if IsCell(Join(lines), CharOffset(lines, r.start)) && r.start != r.end {
      OffsetOnCharacter(lines, r.start);
      CharOffsetStrict(lines, r.start, r.end);
    }
  }

  lemma EntryFlatsOK(lines: seq<string>, r: Entry, q: Entry)
    requires OnLines(lines, r.start) && OnLines(lines, r.end) && OnLines(lines, q.start) && OnLines(lines, q.end)
    requires Le(r.end, q.start) && Lt(r.start, q.start)
    ensures EntryFlat(lines, r).cut.hi <= EntryFlat(lines, q).cut.lo
    ensures IsCell(Join(lines), EntryFlat(lines, r).cut.lo) ==> EntryFlat(lines, r).cut.lo < EntryFlat(lines, q).cut.lo
  {
    CharOffsetMono(lines, r.end, q.start);
    if IsCell(Join(lines), CharOffset(lines, r.start)) {
      OffsetOnCharacter(lines, r.start);
      CharOffsetStrict(lines, r.start, q.start);
    }
  }

  /** `skip_until` as an offset: nothing is skipped when it is unset. */
  function SkipOff(lines: seq<string>, skip: Option<Pos>): nat
    requires skip.Some? ==> OnLines(lines, skip.value)
  {
    if skip.None? then 0 else CharOffset(lines, skip.value)
  }

  /**
   * What holds of the walk at column `j` of line `i`: the pending replacements are well formed
   * and none starts before `(i, j)`, and `skip_until` is on a line of the text.
   */
  predicate Inv(lines: seq<string>, w: Walk, i: nat, j: nat) {
    && i < |lines| && j <= |lines[i]|
    && WellFormed(lines, w.rest)
    && (|w.rest| > 0 ==> Le(Pos(i + 1, j), w.rest[0].start))
    && (w.skip.Some? ==> OnLines(lines, w.skip.value))
  }

  /** What the flat walk still emits from column `j` of line `i`. */
  function Remaining(lines: seq<string>, w: Walk, i: nat, j: nat, nl: bool): string
    requires Inv(lines, w, i, j)
  {
    LineFits(lines, i);
    FlatWalk(Join(lines), Flatten(lines, w.rest), LineStart(lines, i) + j, SkipOff(lines, w.skip), nl)
  }

  /** The step from `w` at `(i, j)` to `w'` at `(i, j + 1)` keeps the invariant and the final output. */
  predicate CharAgrees(lines: seq<string>, w: Walk, w': Walk, i: nat, j: nat, nl: bool)
    requires Inv(lines, w, i, j) && j < |lines[i]|
  {
    Inv(lines, w', i, j + 1) && w.out + Remaining(lines, w, i, j, nl) == w'.out + Remaining(lines, w', i, j + 1, nl)
  }

  /** One character of a line: the inner loop's step agrees with the flat walk's. */
  lemma CharBridge(lines: seq<string>, w: Walk, i: nat, j: nat, nl: bool)
    requires NoBreaks(lines) && Inv(lines, w, i, j) && j < |lines[i]|
    ensures CharAgrees(lines, w, CharStep(w, i, j, lines[i][j]), i, j, nl)
  {
    if |w.rest| > 0 && At(i, j, w.rest[0].start) {
      CharAtReplacement(lines, w, i, j, nl);
    } else if w.skip.Some? && Before(i, j, w.skip.value) {
      CharSkipped(lines, w, i, j, nl);
    } else {
      CharCopied(lines, w, i, j, nl);
    }
  }

  /** The character where the next replacement starts. */
  lemma CharAtReplacement(lines: seq<string>, w: Walk, i: nat, j: nat, nl: bool)
    requires NoBreaks(lines) && Inv(lines, w, i, j) && j < |lines[i]|
    requires |w.rest| > 0 && At(i, j, w.rest[0].start)
    ensures CharAgrees(lines, w, CharStep(w, i, j, lines[i][j]), i, j, nl)
  {
    var t := Join(lines);
    var x := LineStart(lines, i) + j;
    var es := Flatten(lines, w.rest);
    assert IsCell(t, x) && t[x] == lines[i][j] by {
      CellChar(lines, i, j);
    }
    assert es[0].cut.lo == x && es[0].ins == (w.rest[0].start == w.rest[0].end) by {
      FlattenTail(lines, w.rest);
      CellCompare(lines, i, j, w.rest[0].start);
    }
    assert WellFormed(lines, w.rest[1..]) && Flatten(lines, w.rest[1..]) == es[1..]
           && es[0].cut.hi == CharOffset(lines, w.rest[0].end) by {
      FlattenTail(lines, w.rest);
    }
    var w' := CharStep(w, i, j, lines[i][j]);
    assert Inv(lines, w', i, j + 1);
    if w.rest[0].start == w.rest[0].end {
      assert w' == Walk(w.out + w.rest[0].text + [lines[i][j]], w.rest[1..], w.skip);
      InsertionAtChar(lines, w, w', i, j, nl);
    } else {
      assert w' == Walk(w.out + w.rest[0].text, w.rest[1..], Some(w.rest[0].end));
      var more := FlatWalk(t, es[1..], x + 1, es[0].cut.hi, nl);
      RemainingAfterCut(lines, w, w', i, j, nl);
      RemainingAtCut(lines, w, i, j, nl);
      assert w.out + (w.rest[0].text + more) == w'.out + more;
    }
  }

  lemma InsertionAtChar(lines: seq<string>, w: Walk, w': Walk, i: nat, j: nat, nl: bool)
    requires Inv(lines, w, i, j) && j < |lines[i]| && |w.rest| > 0
    requires IsCell(Join(lines), LineStart(lines, i) + j) && Join(lines)[LineStart(lines, i) + j] == lines[i][j]
    requires Flatten(lines, w.rest)[0].cut.lo == LineStart(lines, i) + j && Flatten(lines, w.rest)[0].ins
    requires Flatten(lines, w.rest[1..]) == Flatten(lines, w.rest)[1..]
    requires w' == Walk(w.out + w.rest[0].text + [lines[i][j]], w.rest[1..], w.skip)
    requires Inv(lines, w', i, j + 1)
    ensures w.out + Remaining(lines, w, i, j, nl) == w'.out + Remaining(lines, w', i, j + 1, nl)
  {
    var t := Join(lines);
    var x := LineStart(lines, i) + j;
    var c := lines[i][j];
    var es := Flatten(lines, w.rest);
    var more := FlatWalk(t, es[1..], x + 1, SkipOff(lines, w.skip), nl);
    assert Remaining(lines, w', i, j + 1, nl) == more by {
      assert LineStart(lines, i) + (j + 1) == x + 1;
    }
    assert Remaining(lines, w, i, j, nl) == es[0].cut.text + ([c] + more) by {
      WalkInsert(t, es, x, SkipOff(lines, w.skip), nl);
      assert t[x..x + 1] == [c];
    }
    assert w.out + (w.rest[0].text + ([c] + more)) == w'.out + more;
  }

  /** After a replacement starting at `(i, j)`, the flat walk resumes past the character, skipping to the span's end. */
  lemma RemainingAfterCut(lines: seq<string>, w: Walk, w': Walk, i: nat, j: nat, nl: bool)
    requires Inv(lines, w, i, j) && j < |lines[i]| && |w.rest| > 0
    requires Flatten(lines, w.rest)[0].cut.hi == CharOffset(lines, w.rest[0].end)
    requires Flatten(lines, w.rest[1..]) == Flatten(lines, w.rest)[1..]
    requires w'.rest == w.rest[1..] && w'.skip == Some(w.rest[0].end)
    requires Inv(lines, w', i, j + 1)
    ensures LineStart(lines, i) + j < |Join(lines)|
    ensures Remaining(lines, w', i, j + 1, nl)
            == FlatWalk(Join(lines), Flatten(lines, w.rest)[1..], LineStart(lines, i) + j + 1,
                        Flatten(lines, w.rest)[0].cut.hi, nl)
  {
    LineFits(lines, i);
  }

  /** At a replacement starting on the character at `(i, j)`, the flat walk emits its text and skips the character. */
  lemma RemainingAtCut(lines: seq<string>, w: Walk, i: nat, j: nat, nl: bool)
    requires Inv(lines, w, i, j) && j < |lines[i]| && |w.rest| > 0
    requires IsCell(Join(lines), LineStart(lines, i) + j)
    requires Flatten(lines, w.rest)[0].cut.lo == LineStart(lines, i) + j && !Flatten(lines, w.rest)[0].ins
    ensures LineStart(lines, i) + j < |Join(lines)|
    ensures Remaining(lines, w, i, j, nl)
            == Flatten(lines, w.rest)[0].cut.text
               + FlatWalk(Join(lines), Flatten(lines, w.rest)[1..], LineStart(lines, i) + j + 1,
                          Flatten(lines, w.rest)[0].cut.hi, nl)
  {
    LineFits(lines, i);
    WalkReplace(Join(lines), Flatten(lines, w.rest), LineStart(lines, i) + j, SkipOff(lines, w.skip), nl);
  }

  /** A character before `skip_until` is dropped. */
  lemma CharSkipped(lines: seq<string>, w: Walk, i: nat, j: nat, nl: bool)
    requires NoBreaks(lines) && Inv(lines, w, i, j) && j < |lines[i]|
    requires !(|w.rest| > 0 && At(i, j, w.rest[0].start))
    requires w.skip.Some? && Before(i, j, w.skip.value)
    ensures CharAgrees(lines, w, CharStep(w, i, j, lines[i][j]), i, j, nl)
  {
    var x := LineStart(lines, i) + j;
    assert IsCell(Join(lines), x) by {
      CellChar(lines, i, j);
    }
    assert |w.rest| > 0 ==> Flatten(lines, w.rest)[0].cut.lo != x by {
      if |w.rest| > 0 {
        CellCompare(lines, i, j, w.rest[0].start);
      }
    }
    assert x < SkipOff(lines, w.skip) by {
      CellCompare(lines, i, j, w.skip.value);
    }
    assert CharStep(w, i, j, lines[i][j]) == w;
    assert Inv(lines, w, i, j + 1);
    RemainingSkipped(lines, w, i, j, nl);
  }

  /** Inside a replaced region the flat walk drops the character. */
  lemma RemainingSkipped(lines: seq<string>, w: Walk, i: nat, j: nat, nl: bool)
    requires Inv(lines, w, i, j) && j < |lines[i]|
    requires IsCell(Join(lines), LineStart(lines, i) + j)
    requires |w.rest| > 0 ==> Flatten(lines, w.rest)[0].cut.lo != LineStart(lines, i) + j
    requires LineStart(lines, i) + j < SkipOff(lines, w.skip)
    requires Inv(lines, w, i, j + 1)
    ensures Remaining(lines, w, i, j, nl) == Remaining(lines, w, i, j + 1, nl)
  {
    LineFits(lines, i);
  }

  /** Any other character is copied, and `skip_until` is cleared. */
  lemma CharCopied(lines: seq<string>, w: Walk, i: nat, j: nat, nl: bool)
    requires NoBreaks(lines) && Inv(lines, w, i, j) && j < |lines[i]|
    requires !(|w.rest| > 0 && At(i, j, w.rest[0].start))
    requires !(w.skip.Some? && Before(i, j, w.skip.value))
    ensures CharAgrees(lines, w, CharStep(w, i, j, lines[i][j]), i, j, nl)
  {
    var x := LineStart(lines, i) + j;
    var c := lines[i][j];
    assert IsCell(Join(lines), x) && Join(lines)[x] == c by {
      CellChar(lines, i, j);
    }
    assert |w.rest| > 0 ==> Flatten(lines, w.rest)[0].cut.lo != x by {
      if |w.rest| > 0 {
        CellCompare(lines, i, j, w.rest[0].start);
      }
    }
    assert !(x < SkipOff(lines, w.skip)) by {
      if w.skip.Some? {
        CellCompare(lines, i, j, w.skip.value);
      }
    }
    var w' := CharStep(w, i, j, c);
    assert w' == Walk(w.out + [c], w.rest, None);
    assert Inv(lines, w', i, j + 1);
    RemainingCopied(lines, w, w', i, j, nl);
  }

  /** Outside the replacements and the replaced regions the flat walk copies the character. */
  lemma RemainingCopied(lines: seq<string>, w: Walk, w': Walk, i: nat, j: nat, nl: bool)
    requires Inv(lines, w, i, j) && j < |lines[i]|
    requires IsCell(Join(lines), LineStart(lines, i) + j)
    requires Join(lines)[LineStart(lines, i) + j] == lines[i][j]
    requires |w.rest| > 0 ==> Flatten(lines, w.rest)[0].cut.lo != LineStart(lines, i) + j
    requires !(LineStart(lines, i) + j < SkipOff(lines, w.skip))
    requires w' == Walk(w.out + [lines[i][j]], w.rest, None)
    requires Inv(lines, w', i, j + 1)
    ensures w.out + Remaining(lines, w, i, j, nl) == w'.out + Remaining(lines, w', i, j + 1, nl)
  {
    LineFits(lines, i);
    var more := Remaining(lines, w', i, j + 1, nl);
    assert Remaining(lines, w, i, j, nl) == [lines[i][j]] + more;
    assert w.out + ([lines[i][j]] + more) == (w.out + [lines[i][j]]) + more;
  }

  /** The inner loop over the rest of line `i`. */
  lemma {:induction false} LineCharsBridge(lines: seq<string>, w: Walk, i: nat, j: nat, nl: bool)
    requires NoBreaks(lines) && Inv(lines, w, i, j)
    ensures Inv(lines, LineChars(w, i, lines[i], j), i, |lines[i]|)
    ensures w.out + Remaining(lines, w, i, j, nl)
            == LineChars(w, i, lines[i], j).out + Remaining(lines, LineChars(w, i, lines[i], j), i, |lines[i]|, nl)
    decreases |lines[i]| - j
  {
    if j < |lines[i]| {
      CharBridge(lines, w, i, j, nl);
      LineCharsBridge(lines, CharStep(w, i, j, lines[i][j]), i, j + 1, nl);
    }
  }

  /** The end of line `i` is a line feed of the joined text, or its end after the last line. */
  lemma LineEndNotCell(lines: seq<string>, i: nat)
    requires i < |lines|
    ensures !IsCell(Join(lines), LineStart(lines, i) + |lines[i]|)
    ensures LineStart(lines, i) + |lines[i]| <= |Join(lines)|
    ensures i + 1 < |lines| <==> LineStart(lines, i) + |lines[i]| < |Join(lines)|
  {
    LineLayout(lines, i);
  }

  /** The step of the flush after line `i`. */
  function FlushStep(w: Walk): Walk
    requires |w.rest| > 0
  {
    var e := w.rest[0];
    Walk(w.out + e.text, w.rest[1..], if Lt(e.start, e.end) then Some(e.end) else w.skip)
  }

  /** After the inner loop, the flush emits the texts the flat walk emits at the line end. */
  lemma {:induction false} FlushBridge(lines: seq<string>, w: Walk, i: nat, nl: bool)
    requires i < |lines| && Inv(lines, w, i, |lines[i]|)
    ensures Inv(lines, Flush(w, i), i, |lines[i]|)
    ensures |Flush(w, i).rest| > 0 ==> Le(Pos(i + 2, 0), Flush(w, i).rest[0].start)
    ensures w.out + Remaining(lines, w, i, |lines[i]|, nl)
            == Flush(w, i).out + Remaining(lines, Flush(w, i), i, |lines[i]|, nl)
    decreases |w.rest|
  {
    if |w.rest| > 0 && i == w.rest[0].start.line - 1 {
      var w1 := FlushStep(w);
      assert Flush(w, i) == Flush(w1, i);
      FlushStepBridge(lines, w, i, nl);
      FlushBridge(lines, w1, i, nl);
    }
  }

  /** One replacement flushed at the end of line `i` is the flat walk's replacement at the line end. */
  lemma FlushStepBridge(lines: seq<string>, w: Walk, i: nat, nl: bool)
    requires i < |lines| && Inv(lines, w, i, |lines[i]|)
    requires |w.rest| > 0 && i == w.rest[0].start.line - 1
    ensures Inv(lines, FlushStep(w), i, |lines[i]|)
    ensures w.out + Remaining(lines, w, i, |lines[i]|, nl)
            == FlushStep(w).out + Remaining(lines, FlushStep(w), i, |lines[i]|, nl)
  {
    var n := |lines[i]|;
    var t := Join(lines);
    var x := LineStart(lines, i) + n;
    var e := w.rest[0];
    var es := Flatten(lines, w.rest);
    var w1 := FlushStep(w);
    assert !IsCell(t, x) by {
      LineEndNotCell(lines, i);
    }
    assert WellFormed(lines, w.rest[1..]) && es[1..] == Flatten(lines, w.rest[1..])
           && es[0] == EntryFlat(lines, e) by {
      FlattenTail(lines, w.rest);
    }
    assert es[0].cut.lo == x by {
      LineEndCompare(lines, i, e.start);
    }
    assert Inv(lines, w1, i, n);
    var more := Remaining(lines, w1, i, n, nl);
    assert SkipOff(lines, w1.skip) == if es[0].ins then SkipOff(lines, w.skip) else es[0].cut.hi;
    assert Remaining(lines, w, i, n, nl) == e.text + more;
    assert w.out + (e.text + more) == w1.out + more;
  }

  /** The line feed after line `i`, or the final `nl` after the last line, where every replacement has been used. */
  lemma LineEndBridge(lines: seq<string>, w: Walk, i: nat, nl: bool)
    requires i < |lines| && Inv(lines, w, i, |lines[i]|)
    requires |w.rest| > 0 ==> Le(Pos(i + 2, 0), w.rest[0].start)
    ensures i + 1 == |lines| ==> w.rest == []
    ensures i + 1 == |lines| ==> w.out + Remaining(lines, w, i, |lines[i]|, nl) == w.out + NL(nl)
    ensures i + 1 < |lines| ==> Inv(lines, w.(out := w.out + "\n"), i + 1, 0)
    ensures i + 1 < |lines| ==>
              w.out + Remaining(lines, w, i, |lines[i]|, nl)
              == (w.out + "\n") + Remaining(lines, w.(out := w.out + "\n"), i + 1, 0, nl)
  {
    var t := Join(lines);
    var x := LineStart(lines, i) + |lines[i]|;
    var es := Flatten(lines, w.rest);
    LineEndNotCell(lines, i);
    if |w.rest| > 0 {
      assert es[0].cut.lo > x by {
        FlattenTail(lines, w.rest);
        LineEndCompare(lines, i, w.rest[0].start);
      }
    }
    if i + 1 < |lines| {
      LineStartNext(lines, i);
      var w3 := w.(out := w.out + "\n");
      assert Remaining(lines, w3, i + 1, 0, nl) == FlatWalk(t, es, x + 1, SkipOff(lines, w.skip), nl);
      assert Remaining(lines, w, i, |lines[i]|, nl) == "\n" + FlatWalk(t, es, x + 1, SkipOff(lines, w.skip), nl);
    }
  }

  /** The outer loop from line `i` on emits what the flat walk emits from the start of line `i`, and uses every replacement. */
  lemma {:induction false} LinesBridge(lines: seq<string>, w: Walk, i: nat, nl: bool)
    requires NoBreaks(lines) && Inv(lines, w, i, 0)
    ensures LinesFrom(w, lines, i, nl).out == w.out + Remaining(lines, w, i, 0, nl)
    ensures LinesFrom(w, lines, i, nl).rest == []
    decreases |lines| - i
  {
    var n := |lines[i]|;
    var w1 := LineChars(w, i, lines[i], 0);
    var w2 := Flush(w1, i);
    var w3 := LineStep(w, lines, i, nl);
    assert Inv(lines, w2, i, n) && (|w2.rest| > 0 ==> Le(Pos(i + 2, 0), w2.rest[0].start))
           && w.out + Remaining(lines, w, i, 0, nl) == w2.out + Remaining(lines, w2, i, n, nl) by {
      LineCharsBridge(lines, w, i, 0, nl);
      FlushBridge(lines, w1, i, nl);
    }
    assert LinesFrom(w, lines, i, nl) == LinesFrom(w3, lines, i + 1, nl);
    if i + 1 < |lines| {
      assert Inv(lines, w3, i + 1, 0)
             && w2.out + Remaining(lines, w2, i, n, nl) == w3.out + Remaining(lines, w3, i + 1, 0, nl) by {
        assert w3 == w2.(out := w2.out + "\n");
        LineEndBridge(lines, w2, i, nl);
      }
      assert LinesFrom(w3, lines, i + 1, nl).out == w3.out + Remaining(lines, w3, i + 1, 0, nl)
             && LinesFrom(w3, lines, i + 1, nl).rest == [] by {
        LinesBridge(lines, w3, i + 1, nl);
      }
    } else {
      assert w3.rest == [] && w.out + Remaining(lines, w, i, 0, nl) == w3.out by {
        assert w3 == w2.(out := w2.out + NL(nl));
        LineEndBridge(lines, w2, i, nl);
      }
      assert LinesFrom(w3, lines, i + 1, nl) == w3;
    }
  }

  /**
   * What the build script's splicer computes: on well-formed replacement maps, the trimmed
   * text with every span replaced, every line feed inside a replaced span kept right after its
   * replacement, and a final line feed when the original text ends with one. Every replacement
   * is used.
   */
  lemma WalkedKeepsBreaks(code: string, rs: seq<Entry>)
    requires WellFormed(Split(TrimEnd(code)), rs)
    ensures Ordered(EntryCuts(Split(TrimEnd(code)), rs), |TrimEnd(code)|)
    ensures Walked(code, rs).out
            == KeepBreaks(TrimEnd(code), EntryCuts(Split(TrimEnd(code)), rs), 0) + NL(EndsWithNewline(code))
    ensures Walked(code, rs).rest == []
  {
    var t := TrimEnd(code);
    var lines := Split(t);
    var nl := EndsWithNewline(code);
    JoinSplit(t);
    var w := Walk("", rs, None);
    assert Inv(lines, w, 0, 0);
    LinesBridge(lines, w, 0, nl);
    assert LineStart(lines, 0) == 0;
    FlattenOK(lines, rs);
    FlatWalkKeepsBreaks(t, Flatten(lines, rs), 0, 0, nl);
    FlattenCuts(lines, rs);
  }

  lemma KeepBreaksNone(s: string)
    ensures KeepBreaks(s, [], 0) == s
  {
    assert s[0..] == s;
  }

  lemma EntryCutsEmpty(lines: seq<string>)
    ensures EntryCuts(lines, []) == []
  {
  }

  /** With no replacements the splicer gives back the trimmed text, and its final line feed if it had one. */
  lemma WalkedNoEdits(code: string)
    ensures Walked(code, []).out == TrimEnd(code) + NL(EndsWithNewline(code))
  {
    var t := TrimEnd(code);
    var lines := Split(t);
    assert WellFormed(lines, []);
    WalkedKeepsBreaks(code, []);
    EntryCutsEmpty(lines);
    KeepBreaksNone(t);
  }

  /**
   * When every span starts and ends on the same line, nothing is left behind: the splicer is
   * the plain offset splice of the trimmed text, which is what `xtask`'s splicer computes.
   */
  lemma WalkedWithinLines(code: string, rs: seq<Entry>)
    requires WellFormed(Split(TrimEnd(code)), rs)
    requires forall k :: 0 <= k < |rs| ==> rs[k].start.line == rs[k].end.line
    ensures Ordered(EntryCuts(Split(TrimEnd(code)), rs), |TrimEnd(code)|)
    ensures Walked(code, rs).out
            == Applied(TrimEnd(code), EntryCuts(Split(TrimEnd(code)), rs), 0) + NL(EndsWithNewline(code))
  {
    var t := TrimEnd(code);
    var lines := Split(t);
    var cuts := EntryCuts(lines, rs);
    WalkedKeepsBreaks(code, rs);
    JoinSplit(t);
    forall k | 0 <= k < |rs|
      ensures '\n' !in t[cuts[k].lo..cuts[k].hi]
    {
      SameLineSlice(lines, rs[k].start, rs[k].end);
    }
    KeepBreaksWithinLines(t, cuts, 0);
  }
}
