/**
 * Splicing by character offset: what a list of sorted, non-overlapping replacements does to a
 * text, written forward, one untouched stretch and one replacement at a time.
 */
module Splice {
  import opened Text

  /** Replace the characters `[lo, hi)` by `text`; `lo == hi` inserts without removing anything. */
  datatype Cut = Cut(lo: nat, hi: nat, text: string)

  /** Every cut lies inside a text of length `n` and ends no later than the next one starts. */
  predicate Ordered(cuts: seq<Cut>, n: nat) {
    && (forall k :: 0 <= k < |cuts| ==> cuts[k].lo <= cuts[k].hi <= n)
    && (forall k :: 0 <= k < |cuts| - 1 ==> cuts[k].hi <= cuts[k + 1].lo)
  }

  /** Where the first cut starts, or the end of the text when there is none. */
  function NextLo(cuts: seq<Cut>, n: nat): nat {
    if cuts == [] then n else cuts[0].lo
  }

  lemma OrderedSuffix(cuts: seq<Cut>, n: nat, i: nat)
    requires Ordered(cuts, n) && i <= |cuts|
    ensures Ordered(cuts[i..], n)
    ensures NextLo(cuts[i..], n) <= n
    ensures 0 < i < |cuts| ==> cuts[i - 1].hi <= NextLo(cuts[i..], n)
  {
  }

  /**
   * The text from offset `from` on with the cuts applied: the untouched text up to the first cut,
   * its replacement, and so on, then the text after the last cut.
   */
  function Applied(s: string, cuts: seq<Cut>, from: nat): string
    requires Ordered(cuts, |s|) && from <= NextLo(cuts, |s|)
    decreases |cuts|
  {
    if cuts == [] then s[from..]
    else
      OrderedSuffix(cuts, |s|, 1);
      s[from..cuts[0].lo] + cuts[0].text + Applied(s, cuts[1..], cuts[0].hi)
  }

  /** Cutting a concatenation inside its first part. */
  lemma SplitAt(a: string, b: string, k: nat)
    requires k <= |a|
    ensures (a + b)[..k] == a[..k]
    ensures (a + b)[k..] == a[k..] + b
  {
  }

  lemma Assoc(a: string, b: string, c: string)
    ensures (a + b) + c == a + (b + c)
  {
  }

  /** Starting earlier only adds the untouched text before the first cut. */
  lemma {:induction false} AppliedFrom(s: string, cuts: seq<Cut>, a: nat, b: nat)
    requires Ordered(cuts, |s|) && a <= b <= NextLo(cuts, |s|)
    ensures Applied(s, cuts, a) == s[a..b] + Applied(s, cuts, b)
  {
    if cuts == [] {
      assert s[a..] == s[a..b] + s[b..];
    } else {
      var c := cuts[0];
      OrderedSuffix(cuts, |s|, 1);
      var rest := Applied(s, cuts[1..], c.hi);
      assert Applied(s, cuts, a) == s[a..c.lo] + c.text + rest;
      assert Applied(s, cuts, b) == s[b..c.lo] + c.text + rest;
      assert s[a..c.lo] == s[a..b] + s[b..c.lo];
    }
  }

  /**
   * One step of applying the cuts from the last to the first: when the cuts after `i` have been
   * applied to `s`, applying cut `i` to the result gives `s` with the cuts from `i` on applied.
   */
  lemma {:induction false} ApplyBackwardsStep(s: string, cuts: seq<Cut>, i: nat, r: string)
    requires Ordered(cuts, |s|) && i < |cuts|
    requires Ordered(cuts[i + 1..], |s|) && NextLo(cuts[i + 1..], |s|) <= |s|
    requires r == s[..NextLo(cuts[i + 1..], |s|)] + Applied(s, cuts[i + 1..], NextLo(cuts[i + 1..], |s|))
    ensures cuts[i].lo <= cuts[i].hi <= |r|
    ensures Ordered(cuts[i..], |s|) && NextLo(cuts[i..], |s|) == cuts[i].lo
    ensures r[..cuts[i].lo] + cuts[i].text + r[cuts[i].hi..]
            == s[..cuts[i].lo] + Applied(s, cuts[i..], cuts[i].lo)
  {
    var c := cuts[i];
    var next := NextLo(cuts[i + 1..], |s|);
    var rest := Applied(s, cuts[i + 1..], next);
    assert Ordered(cuts[i..], |s|) && c.lo <= c.hi <= next <= |s| by {
      OrderedSuffix(cuts, |s|, i + 1);
      OrderedSuffix(cuts, |s|, i);
    }
    var tail := Applied(s, cuts[i + 1..], c.hi);
    assert tail == s[c.hi..next] + rest by {
      AppliedFrom(s, cuts[i + 1..], c.hi, next);
    }
    assert Applied(s, cuts[i..], c.lo) == c.text + tail by {
      AppliedHead(s, cuts, i);
    }
    assert r[..c.lo] == s[..c.lo] && r[c.hi..] == s[c.hi..next] + rest by {
      var pre := s[..next];
      SplitAt(pre, rest, c.lo);
      SplitAt(pre, rest, c.hi);
      assert pre[..c.lo] == s[..c.lo] && pre[c.hi..] == s[c.hi..next];
    }
    Assoc(s[..c.lo], c.text, tail);
  }

  /** Applying the cuts from `i` on, from where cut `i` starts: its text, then the rest applied after it. */
  lemma AppliedHead(s: string, cuts: seq<Cut>, i: nat)
    requires Ordered(cuts, |s|) && i < |cuts|
    ensures Ordered(cuts[i..], |s|) && Ordered(cuts[i + 1..], |s|)
    ensures cuts[i].hi <= NextLo(cuts[i + 1..], |s|)
    ensures Applied(s, cuts[i..], cuts[i].lo) == cuts[i].text + Applied(s, cuts[i + 1..], cuts[i].hi)
  {
    OrderedSuffix(cuts, |s|, i);
    OrderedSuffix(cuts, |s|, i + 1);
    var c := cuts[i];
    assert cuts[i..][0] == c && cuts[i..][1..] == cuts[i + 1..];
    var after := Applied(s, cuts[i + 1..], c.hi);
    assert Applied(s, cuts[i..], c.lo) == s[c.lo..c.lo] + c.text + after;
    assert s[c.lo..c.lo] + c.text == c.text;
  }

  /** The number of characters the cuts remove. */
  function Removed(cuts: seq<Cut>): int {
    if cuts == [] then 0 else cuts[0].hi - cuts[0].lo + Removed(cuts[1..])
  }

  /** The number of characters the cuts insert. */
  function Inserted(cuts: seq<Cut>): nat {
    if cuts == [] then 0 else |cuts[0].text| + Inserted(cuts[1..])
  }

  /** Applying the cuts removes exactly the cut characters and adds exactly the replacements. */
  lemma {:induction false} AppliedLength(s: string, cuts: seq<Cut>, from: nat)
    requires Ordered(cuts, |s|) && from <= NextLo(cuts, |s|)
    ensures |Applied(s, cuts, from)| == |s| - from - Removed(cuts) + Inserted(cuts)
    decreases |cuts|
  {
    if cuts != [] {
      OrderedSuffix(cuts, |s|, 1);
      AppliedLength(s, cuts[1..], cuts[0].hi);
    }
  }

  /**
   * Like `Applied`, except that a cut leaves behind the line feeds of the text it removes, right
   * after its replacement.
   */
  function KeepBreaks(s: string, cuts: seq<Cut>, from: nat): string
    requires Ordered(cuts, |s|) && from <= NextLo(cuts, |s|)
    decreases |cuts|
  {
    if cuts == [] then s[from..]
    else
      OrderedSuffix(cuts, |s|, 1);
      s[from..cuts[0].lo] + (cuts[0].text + (Breaks(s[cuts[0].lo..cuts[0].hi])
      + KeepBreaks(s, cuts[1..], cuts[0].hi)))
  }

  /** When no cut removes a line feed, keeping line feeds changes nothing. */
  lemma {:induction false} KeepBreaksWithinLines(s: string, cuts: seq<Cut>, from: nat)
    requires Ordered(cuts, |s|) && from <= NextLo(cuts, |s|)
    requires forall k :: 0 <= k < |cuts| ==> '\n' !in s[cuts[k].lo..cuts[k].hi]
    ensures KeepBreaks(s, cuts, from) == Applied(s, cuts, from)
    decreases |cuts|
  {
    if cuts != [] {
      var c := cuts[0];
      assert Ordered(cuts[1..], |s|) && c.hi <= NextLo(cuts[1..], |s|) by {
        OrderedSuffix(cuts, |s|, 1);
      }
      var rest := KeepBreaks(s, cuts[1..], c.hi);
      assert rest == Applied(s, cuts[1..], c.hi) by {
        assert forall k :: 0 <= k < |cuts| - 1 ==> cuts[1..][k] == cuts[k + 1];
        KeepBreaksWithinLines(s, cuts[1..], c.hi);
      }
      assert Breaks(s[c.lo..c.hi]) == [];
      assert KeepBreaks(s, cuts, from) == s[from..c.lo] + (c.text + ([] + rest));
      assert [] + rest == rest;
      Assoc(s[from..c.lo], c.text, rest);
    }
  }

}
