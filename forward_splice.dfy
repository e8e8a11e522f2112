/**
 * `replace_ranges` of the build script (ac-library-rs-parted-build/build.rs): one forward pass
 * over the lines of the trimmed text, with the sorted replacements consumed from the front.
 */
module ForwardSplice {
  import opened Base
  import opened Text
  import opened Positions
  import opened Splice
  import opened ForwardWalk
  import opened ForwardTheory
  import opened ForwardBridge

  /**
   * The body of the outer loop for line `i` (text `s`): the inner `for` over its characters,
   * then the `while let` that flushes the replacements starting on this line at or past its end.
   */
  method SpliceLine(ret: string, rest: seq<Entry>, skip: Option<Pos>, i: nat, s: string)
    returns (ret': string, rest': seq<Entry>, skip': Option<Pos>)
    ensures Walk(ret', rest', skip') == Flush(LineChars(Walk(ret, rest, skip), i, s, 0), i)
  {
    ret', rest', skip' := ret, rest, skip;
    var j := 0;
    while j < |s|
      invariant 0 <= j <= |s|
      invariant LineChars(Walk(ret', rest', skip'), i, s, j) == LineChars(Walk(ret, rest, skip), i, s, 0)
    {
      var c := s[j];
      if |rest'| > 0 && At(i, j, rest'[0].start) {
        var e := rest'[0];
        ret' := ret' + e.text;
        if e.start == e.end {
          ret' := ret' + [c];
        } else {
          skip' := Some(e.end);
        }
        rest' := rest'[1..];
      } else if !(skip'.Some? && Before(i, j, skip'.value)) {
        ret' := ret' + [c];
        skip' := None;
      }
      j := j + 1;
    }
    while |rest'| > 0 && i == rest'[0].start.line - 1
      invariant Flush(Walk(ret', rest', skip'), i) == Flush(LineChars(Walk(ret, rest, skip), i, s, 0), i)
      decreases |rest'|
    {
      var e := rest'[0];
      ret' := ret' + e.text;
      if Lt(e.start, e.end) {
        skip' := Some(e.end);
      }
      rest' := rest'[1..];
    }
  }

  /**
   * `replace_ranges(code, replacements)`. The method computes the walk `Walked`; on the
   * replacement maps the build script builds, that is the splice at the spans' offsets that
   * keeps the line feeds of every replaced span, plus a final line feed when `code` ends with
   * one. Without replacements the text only loses its trailing white space.
   */
  method ReplaceRanges(code: string, replacements: seq<Entry>) returns (ret: string)
    ensures ret == Walked(code, replacements).out
    ensures WellFormed(Split(TrimEnd(code)), replacements) ==>
              && Ordered(EntryCuts(Split(TrimEnd(code)), replacements), |TrimEnd(code)|)
              && ret == KeepBreaks(TrimEnd(code), EntryCuts(Split(TrimEnd(code)), replacements), 0)
                        + NL(EndsWithNewline(code))
    ensures replacements == [] ==> ret == TrimEnd(code) + NL(EndsWithNewline(code))
  {
    var rest := replacements;
    var skip: Option<Pos> := None;
    ret := "";
    var lines := Split(TrimEnd(code));
    var nl := EndsWithNewline(code);
    var i := 0;
    while i < |lines|
      invariant 0 <= i <= |lines|
      invariant LinesFrom(Walk(ret, rest, skip), lines, i, nl) == Walked(code, replacements)
    {
      ret, rest, skip := SpliceLine(ret, rest, skip, i, lines[i]);
      if i + 1 < |lines| || nl {
        ret := ret + "\n";
      }
      i := i + 1;
    }
    if WellFormed(lines, replacements) {
      WalkedKeepsBreaks(code, replacements);
    }
    if replacements == [] {
      WalkedNoEdits(code);
    }
  }
}
