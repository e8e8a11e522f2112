/**
 * What the forward walk computes. Under the conditions the replacement maps of the build
 * script meet (spans on lines of the text, each starting no later than it ends, not
 * overlapping, strictly increasing starts), walking the lines is splicing the joined text at
 * the spans' character offsets, except that every line feed inside a replaced span is kept,
 * right after the replacement (`KeepBreaks`).
 *
 * The proof goes through `Flat`, the same walk restated over offsets of the joined text.
 */
module ForwardTheory {
  import opened Base
  import opened Text
  import opened Positions
  import opened Splice
  import opened ForwardWalk

  /** A replacement in offset terms, remembering whether it was a pure insertion (`start == end`). */
  datatype Flat = Flat(cut: Cut, ins: bool)

  /** Offset `x` holds a character of a line (not a line feed, not the end of the text). */
  predicate IsCell(t: string, x: nat) {
    x < |t| && t[x] != '\n'
  }

  function NL(nl: bool): string {
    if nl then "\n" else ""
  }

  /**
   * The walk over the offsets of `t` from `x` on, with the replacements `es` pending and
   * `skip` the offset up to which characters are dropped. At a character, a replacement
   * starting there is applied as in `CharStep`; at a line end (or the end of the text) the
   * replacements starting there are flushed, then the line feed (or the final `nl`) follows.
   */
  function FlatWalk(t: string, es: seq<Flat>, x: nat, skip: nat, nl: bool): string
    requires x <= |t|
    decreases |t| - x, |es|
  {
    if IsCell(t, x) then
      if |es| > 0 && es[0].cut.lo == x then
        if es[0].ins then es[0].cut.text + ([t[x]] + FlatWalk(t, es[1..], x + 1, skip, nl))
        else es[0].cut.text + FlatWalk(t, es[1..], x + 1, es[0].cut.hi, nl)
      else if x < skip then FlatWalk(t, es, x + 1, skip, nl)
      else [t[x]] + FlatWalk(t, es, x + 1, 0, nl)
    else if |es| > 0 && es[0].cut.lo == x then
      es[0].cut.text + FlatWalk(t, es[1..], x, if es[0].ins then skip else es[0].cut.hi, nl)
    else if x < |t| then "\n" + FlatWalk(t, es, x + 1, skip, nl)
    else NL(nl)
  }

  /** The cuts of the flat replacements. */
  function Cuts(es: seq<Flat>): (cuts: seq<Cut>)
    ensures |cuts| == |es|
    ensures forall k :: 0 <= k < |es| ==> cuts[k] == es[k].cut
  {
    seq(|es|, k requires 0 <= k < |es| => es[k].cut)
  }

  lemma CutsTail(es: seq<Flat>)
    requires |es| > 0
    ensures Cuts(es[1..]) == Cuts(es)[1..]
  {
  }

  /**
   * The flat replacements are sorted and do not overlap; a pure insertion is empty; a
   * replacement starting on a character either removes something or is an insertion, and the
   * next replacement starts strictly later. Stated replacement by replacement, with the next
   * one, so that it unfolds one replacement at a time.
   */
  predicate FlatOK(t: string, es: seq<Flat>)
    decreases |es|
  {
    es == [] ||
    (&& es[0].cut.lo <= es[0].cut.hi <= |t|
     && (es[0].ins ==> es[0].cut.lo == es[0].cut.hi)
     && (IsCell(t, es[0].cut.lo) && !es[0].ins ==> es[0].cut.lo < es[0].cut.hi)
     && (|es| > 1 ==> es[0].cut.hi <= es[1].cut.lo)
     && (|es| > 1 && IsCell(t, es[0].cut.lo) ==> es[0].cut.lo < es[1].cut.lo)
     && FlatOK(t, es[1..]))
  }

  /** Well-formed flat replacements have ordered cuts. */
  lemma {:induction false} FlatOKOrdered(t: string, es: seq<Flat>)
    requires FlatOK(t, es)
    ensures Ordered(Cuts(es), |t|)
    decreases |es|
  {
    if es != [] {
      FlatOKOrdered(t, es[1..]);
      var cs, ts := Cuts(es), Cuts(es[1..]);
      forall k | 1 <= k < |es|
        ensures cs[k] == ts[k - 1]
      {
        assert es[1..][k - 1] == es[k];
      }
    }
  }

  lemma FlatOKTail(t: string, es: seq<Flat>)
    requires FlatOK(t, es) && |es| > 0
    ensures FlatOK(t, es[1..]) && Ordered(Cuts(es), |t|) && Ordered(Cuts(es[1..]), |t|)
    ensures Cuts(es[1..]) == Cuts(es)[1..]
    ensures es[0].cut.hi <= NextLo(Cuts(es[1..]), |t|)
    ensures IsCell(t, es[0].cut.lo) ==> es[0].cut.lo < NextLo(Cuts(es[1..]), |t|)
  {
    CutsTail(es);
    FlatOKOrdered(t, es);
    FlatOKOrdered(t, es[1..]);
  }

  lemma Regroup(a: string, b: string, c: string, d: string)
    ensures a + (b + (c + d)) == (a + (b + c)) + d
  {
  }

  /** Starting earlier only adds the untouched text before the first cut. */
  lemma {:induction false} KeepBreaksFrom(s: string, cuts: seq<Cut>, a: nat, b: nat)
    requires Ordered(cuts, |s|) && a <= b <= NextLo(cuts, |s|)
    ensures KeepBreaks(s, cuts, a) == s[a..b] + KeepBreaks(s, cuts, b)
  {
    if cuts == [] {
      assert s[a..] == s[a..b] + s[b..];
    } else {
      var c := cuts[0];
      OrderedSuffix(cuts, |s|, 1);
      var rest := c.text + (Breaks(s[c.lo..c.hi]) + KeepBreaks(s, cuts[1..], c.hi));
      assert KeepBreaks(s, cuts, a) == s[a..c.lo] + rest;
      assert KeepBreaks(s, cuts, b) == s[b..c.lo] + rest;
      assert s[a..c.lo] == s[a..b] + s[b..c.lo];
    }
  }

  /** While skipping, only the line feeds of the skipped text come out. */
  lemma {:induction false} SkipRegion(t: string, es: seq<Flat>, y: nat, h: nat, nl: bool)
    requires y <= h <= |t| && h <= NextLo(Cuts(es), |t|)
    ensures FlatWalk(t, es, y, h, nl) == Breaks(t[y..h]) + FlatWalk(t, es, h, h, nl)
    decreases h - y
  {
    if y < h {
      var head := if t[y] == '\n' then "\n" else "";
      var b := Breaks(t[y + 1..h]);
      var fh := FlatWalk(t, es, h, h, nl);
      assert FlatWalk(t, es, y + 1, h, nl) == b + fh by {
        SkipRegion(t, es, y + 1, h, nl);
      }
      assert FlatWalk(t, es, y, h, nl) == head + FlatWalk(t, es, y + 1, h, nl) by {
        assert |es| > 0 ==> es[0].cut.lo != y by {
          if |es| > 0 {
            assert Cuts(es)[0] == es[0].cut;
          }
        }
      }
      assert Breaks(t[y..h]) == head + b by {
        assert t[y..h][0] == t[y] && t[y..h][1..] == t[y + 1..h];
      }
      Assoc(head, b, fh);
    }
  }

  /** Before the next replacement, the walk copies the character or line feed at `x`. */
  lemma WalkPlain(t: string, es: seq<Flat>, x: nat, skip: nat, nl: bool)
    requires skip <= x < |t| && x < NextLo(Cuts(es), |t|)
    ensures FlatWalk(t, es, x, skip, nl)
            == t[x..x + 1] + FlatWalk(t, es, x + 1, if IsCell(t, x) then 0 else skip, nl)
  {
  }

  /** A pure insertion at `x` emits its text and consumes nothing of the text. */
  lemma WalkInsert(t: string, es: seq<Flat>, x: nat, skip: nat, nl: bool)
    requires x <= |t| && |es| > 0 && es[0].cut.lo == x && es[0].ins
    ensures FlatWalk(t, es, x, skip, nl)
            == es[0].cut.text
               + (if IsCell(t, x) then t[x..x + 1] + FlatWalk(t, es[1..], x + 1, skip, nl)
                  else FlatWalk(t, es[1..], x, skip, nl))
  {
  }

  /** A replacement at `x` emits its text and starts skipping up to its end. */
  lemma WalkReplace(t: string, es: seq<Flat>, x: nat, skip: nat, nl: bool)
    requires x <= |t| && |es| > 0 && es[0].cut.lo == x && !es[0].ins
    ensures FlatWalk(t, es, x, skip, nl)
            == es[0].cut.text
               + (if IsCell(t, x) then FlatWalk(t, es[1..], x + 1, es[0].cut.hi, nl)
                  else FlatWalk(t, es[1..], x, es[0].cut.hi, nl))
  {
  }

  /** The flat walk is the offset splice that keeps line feeds, followed by the final line feed. */
  lemma {:induction false} FlatWalkKeepsBreaks(t: string, es: seq<Flat>, x: nat, skip: nat, nl: bool)
    requires FlatOK(t, es) && skip <= x <= |t| && x <= NextLo(Cuts(es), |t|)
    ensures Ordered(Cuts(es), |t|)
    ensures FlatWalk(t, es, x, skip, nl) == KeepBreaks(t, Cuts(es), x) + NL(nl)
    decreases |t| - x, |es|, 3
  {
    assert Ordered(Cuts(es), |t|) by {
      if es != [] {
        FlatOKTail(t, es);
      }
    }
    if x < NextLo(Cuts(es), |t|) {
      var y := if IsCell(t, x) then 0 else skip;
      var kb := KeepBreaks(t, Cuts(es), x + 1);
      assert FlatWalk(t, es, x, skip, nl) == t[x..x + 1] + FlatWalk(t, es, x + 1, y, nl) by {
        WalkPlain(t, es, x, skip, nl);
      }
      assert FlatWalk(t, es, x + 1, y, nl) == kb + NL(nl) by {
        FlatWalkKeepsBreaks(t, es, x + 1, y, nl);
      }
      assert KeepBreaks(t, Cuts(es), x) == t[x..x + 1] + kb by {
        KeepBreaksFrom(t, Cuts(es), x, x + 1);
      }
      Assoc(t[x..x + 1], kb, NL(nl));
    } else if es != [] {
      ReplacementKeepsBreaks(t, es, x, skip, nl);
    }
  }

  /** The step of `FlatWalkKeepsBreaks` where the next replacement starts at `x`. */
  lemma {:induction false} ReplacementKeepsBreaks(t: string, es: seq<Flat>, x: nat, skip: nat, nl: bool)
    requires FlatOK(t, es) && skip <= x <= |t| && |es| > 0 && es[0].cut.lo == x
    ensures Ordered(Cuts(es), |t|)
    ensures FlatWalk(t, es, x, skip, nl) == KeepBreaks(t, Cuts(es), x) + NL(nl)
    decreases |t| - x, |es|, 2
  {
    var c := es[0].cut;
    var rest := RestAfter(t, es, x, skip, nl);
    var gap := Breaks(t[x..c.hi]);
    var tail := KeepBreaks(t, Cuts(es[1..]), c.hi);
    assert FlatWalk(t, es, x, skip, nl) == c.text + (gap + (tail + NL(nl)));
    assert Ordered(Cuts(es), |t|) && KeepBreaks(t, Cuts(es), x) == c.text + (gap + tail) by {
      FlatOKTail(t, es);
      assert Cuts(es)[0] == c;
      assert t[x..c.lo] == [];
      assert KeepBreaks(t, Cuts(es), x) == [] + (c.text + (gap + tail));
    }
    Regroup(c.text, gap, tail, NL(nl));
  }

  /** What the walk emits after the text of the replacement starting at `x`. */
  lemma {:induction false} RestAfter(t: string, es: seq<Flat>, x: nat, skip: nat, nl: bool)
      returns (rest: string)
    requires FlatOK(t, es) && skip <= x <= |t| && |es| > 0 && es[0].cut.lo == x
    ensures Ordered(Cuts(es[1..]), |t|) && es[0].cut.hi <= NextLo(Cuts(es[1..]), |t|)
    ensures FlatWalk(t, es, x, skip, nl) == es[0].cut.text + rest
    ensures rest == Breaks(t[x..es[0].cut.hi]) + (KeepBreaks(t, Cuts(es[1..]), es[0].cut.hi) + NL(nl))
    decreases |t| - x, |es|, 1
  {
    if es[0].ins && IsCell(t, x) {
      rest := InsertionAtCharacter(t, es, x, skip, nl);
    } else if es[0].ins {
      rest := InsertionAtLineEnd(t, es, x, skip, nl);
    } else if IsCell(t, x) {
      rest := CutAtCharacter(t, es, x, skip, nl);
    } else {
      rest := CutAtLineEnd(t, es, x, skip, nl);
    }
  }

  /** A pure insertion before a character: the character follows the inserted text. */
  lemma {:induction false} InsertionAtCharacter(t: string, es: seq<Flat>, x: nat, skip: nat, nl: bool)
      returns (rest: string)
    requires FlatOK(t, es) && skip <= x <= |t| && |es| > 0 && es[0].cut.lo == x && es[0].ins
    requires IsCell(t, x)
    ensures Ordered(Cuts(es[1..]), |t|) && es[0].cut.hi <= NextLo(Cuts(es[1..]), |t|)
    ensures FlatWalk(t, es, x, skip, nl) == es[0].cut.text + rest
    ensures rest == Breaks(t[x..es[0].cut.hi]) + (KeepBreaks(t, Cuts(es[1..]), es[0].cut.hi) + NL(nl))
    decreases |t| - x, |es|, 0
  {
    assert FlatOK(t, es[1..]) && Ordered(Cuts(es[1..]), |t|) && x < NextLo(Cuts(es[1..]), |t|)
           && es[0].cut.hi == x by {
      FlatOKTail(t, es);
    }
    assert t[x..x] == [];
    rest := t[x..x + 1] + FlatWalk(t, es[1..], x + 1, skip, nl);
    assert FlatWalk(t, es, x, skip, nl) == es[0].cut.text + rest by {
      WalkInsert(t, es, x, skip, nl);
    }
    var kb := KeepBreaks(t, Cuts(es[1..]), x + 1);
    assert FlatWalk(t, es[1..], x + 1, skip, nl) == kb + NL(nl) by {
      FlatWalkKeepsBreaks(t, es[1..], x + 1, skip, nl);
    }
    assert KeepBreaks(t, Cuts(es[1..]), x) == t[x..x + 1] + kb by {
      KeepBreaksFrom(t, Cuts(es[1..]), x, x + 1);
    }
    assert Breaks(t[x..x]) == [];
    assert rest == t[x..x + 1] + (kb + NL(nl));
  }

  /** A pure insertion at a line end: the flush emits its text and nothing else changes. */
  lemma {:induction false} InsertionAtLineEnd(t: string, es: seq<Flat>, x: nat, skip: nat, nl: bool)
      returns (rest: string)
    requires FlatOK(t, es) && skip <= x <= |t| && |es| > 0 && es[0].cut.lo == x && es[0].ins
    requires !IsCell(t, x)
    ensures Ordered(Cuts(es[1..]), |t|) && es[0].cut.hi <= NextLo(Cuts(es[1..]), |t|)
    ensures FlatWalk(t, es, x, skip, nl) == es[0].cut.text + rest
    ensures rest == Breaks(t[x..es[0].cut.hi]) + (KeepBreaks(t, Cuts(es[1..]), es[0].cut.hi) + NL(nl))
    decreases |t| - x, |es|, 0
  {
    assert FlatOK(t, es[1..]) && Ordered(Cuts(es[1..]), |t|) && x <= NextLo(Cuts(es[1..]), |t|)
           && es[0].cut.hi == x by {
      FlatOKTail(t, es);
    }
    assert t[x..x] == [];
    rest := FlatWalk(t, es[1..], x, skip, nl);
    assert FlatWalk(t, es, x, skip, nl) == es[0].cut.text + rest by {
      WalkInsert(t, es, x, skip, nl);
    }
    FlatWalkKeepsBreaks(t, es[1..], x, skip, nl);
  }

  /** A replacement starting on a character: that character and the rest of the span are skipped, line feeds aside. */
  lemma {:induction false} CutAtCharacter(t: string, es: seq<Flat>, x: nat, skip: nat, nl: bool)
      returns (rest: string)
    requires FlatOK(t, es) && skip <= x <= |t| && |es| > 0 && es[0].cut.lo == x && !es[0].ins
    requires IsCell(t, x)
    ensures Ordered(Cuts(es[1..]), |t|) && es[0].cut.hi <= NextLo(Cuts(es[1..]), |t|)
    ensures FlatWalk(t, es, x, skip, nl) == es[0].cut.text + rest
    ensures rest == Breaks(t[x..es[0].cut.hi]) + (KeepBreaks(t, Cuts(es[1..]), es[0].cut.hi) + NL(nl))
    decreases |t| - x, |es|, 0
  {
    var h := es[0].cut.hi;
    assert FlatOK(t, es[1..]) && Ordered(Cuts(es[1..]), |t|) && x < h <= NextLo(Cuts(es[1..]), |t|)
           && h <= |t| by {
      FlatOKTail(t, es);
    }
    rest := FlatWalk(t, es[1..], x + 1, h, nl);
    assert FlatWalk(t, es, x, skip, nl) == es[0].cut.text + rest by {
      WalkReplace(t, es, x, skip, nl);
    }
    var after := KeepBreaks(t, Cuts(es[1..]), h) + NL(nl);
    assert rest == Breaks(t[x + 1..h]) + after by {
      SkipThenWalk(t, es[1..], x + 1, h, nl);
    }
    BreaksSkipCell(t, x, h);
  }

  /** A span starting on a character other than a line feed keeps the breaks of the rest of it. */
  lemma BreaksSkipCell(t: string, x: nat, h: nat)
    requires IsCell(t, x) && x < h <= |t|
    ensures Breaks(t[x..h]) == Breaks(t[x + 1..h])
  {
    assert t[x..h][0] == t[x] && t[x..h][1..] == t[x + 1..h];
  }

  /** A replacement starting at a line end: the span is skipped, line feeds aside. */
  lemma {:induction false} CutAtLineEnd(t: string, es: seq<Flat>, x: nat, skip: nat, nl: bool)
      returns (rest: string)
    requires FlatOK(t, es) && skip <= x <= |t| && |es| > 0 && es[0].cut.lo == x && !es[0].ins
    requires !IsCell(t, x)
    ensures Ordered(Cuts(es[1..]), |t|) && es[0].cut.hi <= NextLo(Cuts(es[1..]), |t|)
    ensures FlatWalk(t, es, x, skip, nl) == es[0].cut.text + rest
    ensures rest == Breaks(t[x..es[0].cut.hi]) + (KeepBreaks(t, Cuts(es[1..]), es[0].cut.hi) + NL(nl))
    decreases |t| - x, |es|, 0
  {
    var h := es[0].cut.hi;
    assert FlatOK(t, es[1..]) && Ordered(Cuts(es[1..]), |t|) && x <= h <= NextLo(Cuts(es[1..]), |t|)
           && h <= |t| by {
      FlatOKTail(t, es);
    }
    rest := FlatWalk(t, es[1..], x, h, nl);
    assert FlatWalk(t, es, x, skip, nl) == es[0].cut.text + rest by {
      WalkReplace(t, es, x, skip, nl);
    }
    SkipThenWalk(t, es[1..], x, h, nl);
  }

  /** Skipping up to `h`, then walking on: the line feeds skipped over, then the splice from `h`. */
  lemma {:induction false} SkipThenWalk(t: string, es: seq<Flat>, y: nat, h: nat, nl: bool)
    requires FlatOK(t, es) && Ordered(Cuts(es), |t|)
    requires y <= h <= |t| && h <= NextLo(Cuts(es), |t|)
    ensures FlatWalk(t, es, y, h, nl) == Breaks(t[y..h]) + (KeepBreaks(t, Cuts(es), h) + NL(nl))
    decreases |t| - y, |es|, 4
  {
    SkipRegion(t, es, y, h, nl);
    FlatWalkKeepsBreaks(t, es, h, h, nl);
  }
}
