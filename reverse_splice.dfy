/**
 * The span splicer of `xtask` (`replace_ranges`, xtask/src/main.rs): every span is turned into an
 * offset range of the original text, then the replacements are applied last to first, so that
 * the ranges still to be applied are not moved by the ones already applied.
 *
 * Rust indexes a `String` by byte; here the text is a sequence of characters. `FromPosIsBytePrefix`
 * shows that the source's byte offset is the UTF-8 length of the text before `CharOffset`, so a
 * replacement at the character range is the replacement the source makes at its byte range.
 */
module ReverseSplice {
  import opened Text
  import opened Positions
  import opened Splice

  /** One `(Span, String)` pair of an edit list. */
  datatype Edit = Edit(span: Span, text: string)

  /**
   * What the callers hand over: every span is on a line of the text and starts no later than it
   * ends, and each span ends no later than the next one starts. With anything else the source's
   * `replace_range` panics on a reversed or out-of-bounds range, or edits shifted text.
   */
  predicate SpansInOrder(lines: seq<string>, edits: seq<Edit>) {
    && (forall k :: 0 <= k < |edits| ==>
          && OnLines(lines, edits[k].span.start)
          && OnLines(lines, edits[k].span.end)
          && Le(edits[k].span.start, edits[k].span.end))
    && (forall k :: 0 <= k < |edits| - 1 ==> Le(edits[k].span.end, edits[k + 1].span.start))
  }

  /** `to_range`: the span's start and end offsets in the original text. */
  function ToCut(lines: seq<string>, e: Edit): Cut
    requires OnLines(lines, e.span.start) && OnLines(lines, e.span.end)
  {
    Cut(CharOffset(lines, e.span.start), CharOffset(lines, e.span.end), e.text)
  }

  function ToCuts(lines: seq<string>, edits: seq<Edit>): (cuts: seq<Cut>)
    requires SpansInOrder(lines, edits)
    ensures |cuts| == |edits|
  {
    seq(|edits|, k requires 0 <= k < |edits| => ToCut(lines, edits[k]))
  }

  /** Spans in order become ranges in order, inside the text. */
  lemma CutsOrdered(lines: seq<string>, edits: seq<Edit>)
    requires SpansInOrder(lines, edits)
    ensures Ordered(ToCuts(lines, edits), |Join(lines)|)
  {
    var cuts := ToCuts(lines, edits);
    forall k | 0 <= k < |edits|
      ensures cuts[k].lo <= cuts[k].hi <= |Join(lines)|
    {
      CharOffsetMono(lines, edits[k].span.start, edits[k].span.end);
      CharOffsetBound(lines, edits[k].span.end);
    }
    forall k | 0 <= k < |edits| - 1
      ensures cuts[k].hi <= cuts[k + 1].lo
    {
      CharOffsetMono(lines, edits[k].span.end, edits[k + 1].span.start);
    }
  }

  /** The text the splicer returns for `code` and the edits `with`, as a function of the two. */
  function Spliced(code: string, with: seq<Edit>): string
    requires SpansInOrder(Split(code), with)
  {
    JoinSplit(code);
    CutsOrdered(Split(code), with);
    Applied(code, ToCuts(Split(code), with), 0)
  }

  /**
   * `replace_ranges(code, with)`: applying the edits from the last to the first gives the text
   * before the first span, each replacement followed by the untouched text up to the next span,
   * and the text after the last span. With no edits the text comes back unchanged.
   */
  method ReplaceRanges(code: string, with: seq<Edit>) returns (r: string)
    requires SpansInOrder(Split(code), with)
    ensures Ordered(ToCuts(Split(code), with), |code|)
    ensures r == Applied(code, ToCuts(Split(code), with), 0)
    ensures with == [] ==> r == code
  {
    var lines := Split(code);
    JoinSplit(code);
    CutsOrdered(lines, with);
    ghost var cuts := ToCuts(lines, with);
    ghost var n := |code|;
    OrderedSuffix(cuts, n, |with|);
    r := code;
    var i := |with|;
    while i > 0
      invariant 0 <= i <= |with|
      invariant Ordered(cuts[i..], n) && NextLo(cuts[i..], n) <= n
      invariant r == code[..NextLo(cuts[i..], n)] + Applied(code, cuts[i..], NextLo(cuts[i..], n))
    {
      i := i - 1;
      var c := ToCut(lines, with[i]);
      assert c == cuts[i];
      ApplyBackwardsStep(code, cuts, i, r);
      r := r[..c.lo] + c.text + r[c.hi..];
    }
    AppliedFrom(code, cuts, 0, NextLo(cuts, n));
  }
}
