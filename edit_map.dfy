/**
 * The build script's `BTreeMap<(LineColumn, LineColumn), String>` of replacements: entries kept
 * in ascending key order, where a key is a span compared by start and then by end, and
 * inserting under a key already present replaces that key's text.
 */
module EditMaps {
  import opened Base
  import opened Positions
  import opened ForwardWalk

  /** The key order: by start position, then by end position. */
  predicate KeyLt(a: Entry, b: Entry) {
    Lt(a.start, b.start) || (a.start == b.start && Lt(a.end, b.end))
  }

  predicate SameKey(a: Entry, b: Entry) {
    a.start == b.start && a.end == b.end
  }

  /** Entries strictly ascending by key, so no key occurs twice. */
  predicate Sorted(es: seq<Entry>) {
    forall k :: 0 <= k < |es| - 1 ==> KeyLt(es[k], es[k + 1])
  }

  /** `map.get(&(start, end))`. */
  function Get(es: seq<Entry>, start: Pos, end: Pos): (r: Option<string>)
    ensures r.Some? <==> exists k :: 0 <= k < |es| && es[k].start == start && es[k].end == end
    ensures r.Some? ==>
              exists k :: 0 <= k < |es| && es[k].start == start && es[k].end == end && es[k].text == r.value
  {
    if es == [] then None
    else if es[0].start == start && es[0].end == end then Some(es[0].text)
    else
      var r := Get(es[1..], start, end);
      assert forall k :: 1 <= k < |es| ==> es[1..][k - 1] == es[k];
      r
  }

  /** `map.insert((e.start, e.end), e.text)` on the entries in key order. */
  function Inserted(es: seq<Entry>, e: Entry): (r: seq<Entry>)
    ensures |r| > 0 && (r[0] == e || (es != [] && r[0] == es[0]))
  {
    if es == [] || KeyLt(e, es[0]) then [e] + es
    else if SameKey(e, es[0]) then [e] + es[1..]
    else [es[0]] + Inserted(es[1..], e)
  }

  /** Inserting keeps the entries ascending. */
  lemma {:induction false} InsertSorted(es: seq<Entry>, e: Entry)
    requires Sorted(es)
    ensures Sorted(Inserted(es, e))
  {
    if es != [] && !KeyLt(e, es[0]) && !SameKey(e, es[0]) {
      var tail := es[1..];
      assert Sorted(tail) by {
        assert forall k :: 0 <= k < |tail| ==> tail[k] == es[k + 1];
      }
      InsertSorted(tail, e);
      var r := Inserted(es, e);
      assert r == [es[0]] + Inserted(tail, e);
      assert forall k :: 1 <= k < |r| ==> r[k] == Inserted(tail, e)[k - 1];
    }
  }

  /**
   * After inserting, the key inserted maps to the new text and every other key maps to what it
   * mapped to before: a map update.
   */
  lemma {:induction false} InsertGet(es: seq<Entry>, e: Entry, start: Pos, end: Pos)
    requires Sorted(es)
    ensures Get(Inserted(es, e), start, end) ==
            if start == e.start && end == e.end then Some(e.text) else Get(es, start, end)
  {
    if es != [] {
      var tail := es[1..];
      if SameKey(e, es[0]) {
        assert Inserted(es, e) == [e] + tail;
        assert ([e] + tail)[1..] == tail;
      } else if !KeyLt(e, es[0]) {
        assert Sorted(tail) by {
          assert forall k :: 0 <= k < |tail| ==> tail[k] == es[k + 1];
        }
        InsertGet(tail, e, start, end);
        assert ([es[0]] + Inserted(tail, e))[1..] == Inserted(tail, e);
      } else {
        assert ([e] + es)[1..] == es;
      }
    } else {
      assert [e][1..] == [];
    }
  }

  /** Inserting several entries one after the other, as a loop over the planned entries does. */
  function InsertAll(es: seq<Entry>, xs: seq<Entry>): (r: seq<Entry>)
    decreases |xs|
  {
    if xs == [] then es else InsertAll(Inserted(es, xs[0]), xs[1..])
  }

  /** The last entry inserted under a key, if any. */
  function LastFor(xs: seq<Entry>, start: Pos, end: Pos): Option<string> {
    if xs == [] then None
    else if xs[|xs| - 1].start == start && xs[|xs| - 1].end == end then Some(xs[|xs| - 1].text)
    else LastFor(xs[..|xs| - 1], start, end)
  }

  /**
   * The last entry under a key is one of the entries, and there is one exactly when some entry
   * has that key.
   */
  lemma {:induction false} LastForSpec(xs: seq<Entry>, start: Pos, end: Pos)
    ensures LastFor(xs, start, end).Some? <==>
            exists k :: 0 <= k < |xs| && xs[k].start == start && xs[k].end == end
    ensures LastFor(xs, start, end).Some? ==>
            Entry(start, end, LastFor(xs, start, end).value) in xs
  {
    if xs != [] {
      var init := xs[..|xs| - 1];
      LastForSpec(init, start, end);
      assert forall k :: 0 <= k < |init| ==> init[k] == xs[k];
      if LastFor(xs, start, end).Some? && LastFor(init, start, end).Some? {
        assert LastFor(init, start, end).value == LastFor(xs, start, end).value
          || xs[|xs| - 1] == Entry(start, end, LastFor(xs, start, end).value);
      }
    }
  }

  /** Inserting the entries in order one by one keeps the map ascending. */
  lemma {:induction false} InsertAllSorted(es: seq<Entry>, xs: seq<Entry>)
    requires Sorted(es)
    ensures Sorted(InsertAll(es, xs))
    decreases |xs|
  {
    if xs != [] {
      InsertSorted(es, xs[0]);
      InsertAllSorted(Inserted(es, xs[0]), xs[1..]);
    }
  }

  /** `InsertAll` over `xs + [x]` is one more insertion after `InsertAll` over `xs`. */
  lemma {:induction false} InsertAllSnoc(es: seq<Entry>, xs: seq<Entry>, x: Entry)
    ensures InsertAll(es, xs + [x]) == Inserted(InsertAll(es, xs), x)
    decreases |xs|
  {
    if xs == [] {
      assert [x][1..] == [];
    } else {
      assert (xs + [x])[0] == xs[0] && (xs + [x])[1..] == xs[1..] + [x];
      InsertAllSnoc(Inserted(es, xs[0]), xs[1..], x);
    }
  }

  /** Inserting `a + b` inserts `a`, then `b`. */
  lemma {:induction false} InsertAllConcat(es: seq<Entry>, a: seq<Entry>, b: seq<Entry>)
    ensures InsertAll(es, a + b) == InsertAll(InsertAll(es, a), b)
    decreases |a|
  {
    if a == [] {
      assert a + b == b;
    } else {
      assert (a + b)[0] == a[0] && (a + b)[1..] == a[1..] + b;
      InsertAllConcat(Inserted(es, a[0]), a[1..], b);
    }
  }

  /**
   * After inserting `xs` into `es`, a key maps to the text of the last entry of `xs` under that
   * key, and to what it mapped to in `es` when `xs` has none: later insertions win.
   */
  lemma {:induction false} InsertAllGet(es: seq<Entry>, xs: seq<Entry>, start: Pos, end: Pos)
    requires Sorted(es)
    ensures Get(InsertAll(es, xs), start, end) ==
            if LastFor(xs, start, end).Some? then LastFor(xs, start, end) else Get(es, start, end)
    decreases |xs|
  {
    if xs != [] {
      var init := xs[..|xs| - 1];
      var x := xs[|xs| - 1];
      assert init + [x] == xs;
      InsertAllSnoc(es, init, x);
      InsertAllSorted(es, init);
      InsertGet(InsertAll(es, init), x, start, end);
      InsertAllGet(es, init, start, end);
    }
  }

  /** In an ascending map every entry comes before every later one. */
  lemma {:induction false} SortedBefore(es: seq<Entry>, i: nat, j: nat)
    requires Sorted(es) && i < j < |es|
    ensures KeyLt(es[i], es[j])
    decreases j - i
  {
    if i + 1 < j {
      SortedBefore(es, i + 1, j);
    }
  }

  /** Inserting a key above every key of the map appends the entry. */
  lemma {:induction false} InsertedLast(es: seq<Entry>, e: Entry)
    requires forall k :: 0 <= k < |es| ==> KeyLt(es[k], e)
    ensures Inserted(es, e) == es + [e]
  {
    if es != [] {
      var tail := es[1..];
      assert forall k :: 0 <= k < |tail| ==> tail[k] == es[k + 1];
      InsertedLast(tail, e);
      assert es == [es[0]] + tail;
    }
  }

  /**
   * Inserting entries that already come in ascending key order into the empty map gives those
   * entries back, in the same order: the map then holds every planned entry, each once.
   */
  lemma {:induction false} InsertAllInOrder(xs: seq<Entry>)
    requires Sorted(xs)
    ensures InsertAll([], xs) == xs
    decreases |xs|
  {
    if xs != [] {
      var init := xs[..|xs| - 1];
      var x := xs[|xs| - 1];
      assert init + [x] == xs;
      assert Sorted(init) by {
        assert forall k :: 0 <= k < |init| ==> init[k] == xs[k];
      }
      InsertAllInOrder(init);
      InsertAllSnoc([], init, x);
      forall k | 0 <= k < |init|
        ensures KeyLt(init[k], x)
      {
        SortedBefore(xs, k, |xs| - 1);
      }
      InsertedLast(init, x);
    }
  }

  /** The replacement map being filled, as a mutable object the planners and visitors insert into. */
  class EditMap {
    var entries: seq<Entry>

    ghost predicate Valid()
      reads this
    {
      Sorted(entries)
    }

    /** `btreemap!()`: the empty map. */
    constructor()
      ensures Valid() && entries == []
    {
      entries := [];
    }

    /** `insert((start, end), text)`. */
    method Insert(start: Pos, end: Pos, text: string)
      requires Valid()
      modifies this
      ensures Valid()
      ensures entries == Inserted(old(entries), Entry(start, end, text))
    {
      InsertSorted(entries, Entry(start, end, text));
      entries := Inserted(entries, Entry(start, end, text));
    }
  }
}
