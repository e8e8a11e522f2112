/**
 * What the build script's two rewrites produce, in offset terms. The maps the planners fill are
 * well formed whenever the spans they pick lie in source order and cover at least one character
 * each (as every parsed item, attribute and `pub(crate)` does), so the forward splicer's result
 * is the splice of the trimmed text that keeps the line feeds of every removed span.
 */
module BuildBridge {
  import opened Base
  import opened Text
  import opened Positions
  import opened Syntax
  import opened Plan
  import opened Splice
  import opened EditMaps
  import opened ForwardWalk
  import opened ForwardTheory
  import opened ForwardBridge
  import opened BuildPlan

  /** The span an entry is keyed by. */
  function EntrySpan(e: Entry): Span {
    Span(e.start, e.end)
  }

  /** Every entry covers at least one character. */
  predicate NonEmpty(es: seq<Entry>) {
    forall k :: 0 <= k < |es| ==> Lt(es[k].start, es[k].end)
  }

  /** Non-empty spans in source order are in strictly ascending key order and well formed. */
  lemma InOrderWellFormed(lines: seq<string>, es: seq<Entry>)
    requires SortedBy(lines, es, EntrySpan) && NonEmpty(es)
    ensures WellFormed(lines, es) && Sorted(es)
  {
  }

  /**
   * A planner that keys each entry by the span of the node it comes from, run over nodes in
   * source order whose spans are not empty, plans non-empty entries in source order.
   */
  lemma {:induction false} PlannedInOrder<T>(lines: seq<string>, xs: seq<T>, f: T -> Option<Entry>,
                                           spanOf: T -> Span)
    requires forall x :: f(x).Some? ==> EntrySpan(f(x).value) == spanOf(x)
    requires SortedBy(lines, xs, spanOf)
    requires forall k :: 0 <= k < |xs| ==> Lt(spanOf(xs[k]).start, spanOf(xs[k]).end)
    ensures SortedBy(lines, FilterMap(xs, f), EntrySpan) && NonEmpty(FilterMap(xs, f))
  {
    var es := FilterMap(xs, f);
    FilterMapSorted(lines, xs, f, spanOf, EntrySpan);
    forall k | 0 <= k < |es|
      ensures Lt(es[k].start, es[k].end)
    {
      FilterMapMembers(xs, f, es[k]);
      var i :| 0 <= i < |xs| && f(xs[i]) == Some(es[k]);
      assert EntrySpan(es[k]) == spanOf(xs[i]);
    }
  }

  /** Two runs of entries in source order, the first ending before the second starts, make one. */
  lemma SortedByConcat(lines: seq<string>, a: seq<Entry>, b: seq<Entry>)
    requires SortedBy(lines, a, EntrySpan) && SortedBy(lines, b, EntrySpan)
    requires a != [] && b != [] ==> Le(a[|a| - 1].end, b[0].start)
    ensures SortedBy(lines, a + b, EntrySpan)
  {
    var ab := a + b;
    forall k | 0 <= k < |ab|
      ensures OnLines(lines, ab[k].start) && OnLines(lines, ab[k].end) && Le(ab[k].start, ab[k].end)
    {
      if k < |a| {
        assert ab[k] == a[k];
      } else {
        assert ab[k] == b[k - |a|];
      }
    }
    forall k | 0 <= k < |ab| - 1
      ensures Le(ab[k].end, ab[k + 1].start)
    {
      if k + 1 < |a| {
        assert ab[k] == a[k] && ab[k + 1] == a[k + 1];
      } else if k + 1 == |a| {
        assert ab[k] == a[|a| - 1] && ab[k + 1] == b[0];
      } else {
        assert ab[k] == b[k - |a|] && ab[k + 1] == b[k + 1 - |a|];
      }
    }
  }

  lemma NonEmptyConcat(a: seq<Entry>, b: seq<Entry>)
    requires NonEmpty(a) && NonEmpty(b)
    ensures NonEmpty(a + b)
  {
    var ab := a + b;
    forall k | 0 <= k < |ab|
      ensures Lt(ab[k].start, ab[k].end)
    {
      if k < |a| {
        assert ab[k] == a[k];
      } else {
        assert ab[k] == b[k - |a|];
      }
    }
  }

  /** When every attribute ends before every later entry starts, so does the last `doc` deletion. */
  lemma DocsBefore(attrs: seq<Attr>, later: seq<Entry>)
    requires forall i, j :: 0 <= i < |attrs| && 0 <= j < |later| ==> Le(attrs[i].span.end, later[j].start)
    ensures FilterMap(attrs, DocEntry) != [] && later != [] ==>
              Le(FilterMap(attrs, DocEntry)[|FilterMap(attrs, DocEntry)| - 1].end, later[0].start)
  {
    var docs := FilterMap(attrs, DocEntry);
    if docs != [] && later != [] {
      FilterMapMembers(attrs, DocEntry, docs[|docs| - 1]);
      var i :| 0 <= i < |attrs| && DocEntry(attrs[i]) == Some(docs[|docs| - 1]);
      assert Le(attrs[i].span.end, later[0].start);
    }
  }

  /**
   * The root's map, for `mod` items in source order: it holds exactly the planned entries, in
   * item order, and is well formed.
   */
  lemma RootEntriesInOrder(lines: seq<string>, items: seq<Item>)
    requires SortedBy(lines, items, (i: Item) => i.span)
    requires forall k :: 0 <= k < |items| ==> Lt(items[k].span.start, items[k].span.end)
    ensures RootEntries(items) == FilterMap(items, RootEntry)
    ensures WellFormed(lines, RootEntries(items))
  {
    var es := FilterMap(items, RootEntry);
    PlannedInOrder(lines, items, RootEntry, (i: Item) => i.span);
    InOrderWellFormed(lines, es);
    InsertAllInOrder(es);
  }

  /**
   * The code `modify_root_module` wraps, in offset terms: the trimmed text with each `mod` item
   * replaced by its alias or deleted, the line feeds inside a deleted item kept.
   */
  lemma RootModuleSplice(code: string, items: seq<Item>)
    requires SortedBy(Split(TrimEnd(code)), items, (i: Item) => i.span)
    requires forall k :: 0 <= k < |items| ==> Lt(items[k].span.start, items[k].span.end)
    ensures WellFormed(Split(TrimEnd(code)), RootEntries(items))
    ensures Ordered(EntryCuts(Split(TrimEnd(code)), RootEntries(items)), |TrimEnd(code)|)
    ensures Walked(code, RootEntries(items)).out
            == KeepBreaks(TrimEnd(code), EntryCuts(Split(TrimEnd(code)), RootEntries(items)), 0)
               + NL(EndsWithNewline(code))
  {
    RootEntriesInOrder(Split(TrimEnd(code)), items);
    WalkedKeepsBreaks(code, RootEntries(items));
  }

  /**
   * The sub-module's map, for attributes in source order that all end before the first
   * `pub(crate)` starts: it holds exactly the planned entries, the `doc` deletions first, and is
   * well formed.
   */
  lemma SubModuleEntriesInOrder(lines: seq<string>, f: File)
    requires SortedBy(lines, f.attrs, (a: Attr) => a.span)
    requires forall k :: 0 <= k < |f.attrs| ==> Lt(f.attrs[k].span.start, f.attrs[k].span.end)
    requires SortedBy(lines, FilterMap(Visibilities(f.items), PubCrateEntry), EntrySpan)
    requires NonEmpty(FilterMap(Visibilities(f.items), PubCrateEntry))
    requires forall i, j :: 0 <= i < |f.attrs| && 0 <= j < |FilterMap(Visibilities(f.items), PubCrateEntry)| ==>
               Le(f.attrs[i].span.end, FilterMap(Visibilities(f.items), PubCrateEntry)[j].start)
    ensures SubModuleEntries(f)
            == FilterMap(f.attrs, DocEntry) + FilterMap(Visibilities(f.items), PubCrateEntry)
    ensures WellFormed(lines, SubModuleEntries(f))
  {
    var docs := FilterMap(f.attrs, DocEntry);
    var pubs := FilterMap(Visibilities(f.items), PubCrateEntry);
    PlannedInOrder(lines, f.attrs, DocEntry, (a: Attr) => a.span);
    DocsBefore(f.attrs, pubs);
    SortedByConcat(lines, docs, pubs);
    NonEmptyConcat(docs, pubs);
    var all := docs + pubs;
    InOrderWellFormed(lines, all);
    InsertAllConcat([], docs, pubs);
    InsertAllInOrder(all);
  }

  /**
   * The code `modify_sub_module` wraps, in offset terms: the trimmed text with the `doc`
   * attributes deleted and each `pub(crate)` made `pub`, the line feeds inside a deleted
   * attribute kept.
   */
  lemma SubModuleSplice(code: string, f: File)
    requires SortedBy(Split(TrimEnd(code)), f.attrs, (a: Attr) => a.span)
    requires forall k :: 0 <= k < |f.attrs| ==> Lt(f.attrs[k].span.start, f.attrs[k].span.end)
    requires SortedBy(Split(TrimEnd(code)), FilterMap(Visibilities(f.items), PubCrateEntry), EntrySpan)
    requires NonEmpty(FilterMap(Visibilities(f.items), PubCrateEntry))
    requires forall i, j :: 0 <= i < |f.attrs| && 0 <= j < |FilterMap(Visibilities(f.items), PubCrateEntry)| ==>
               Le(f.attrs[i].span.end, FilterMap(Visibilities(f.items), PubCrateEntry)[j].start)
    ensures WellFormed(Split(TrimEnd(code)), SubModuleEntries(f))
    ensures Ordered(EntryCuts(Split(TrimEnd(code)), SubModuleEntries(f)), |TrimEnd(code)|)
    ensures Walked(code, SubModuleEntries(f)).out
            == KeepBreaks(TrimEnd(code), EntryCuts(Split(TrimEnd(code)), SubModuleEntries(f)), 0)
               + NL(EndsWithNewline(code))
  {
    SubModuleEntriesInOrder(Split(TrimEnd(code)), f);
    WalkedKeepsBreaks(code, SubModuleEntries(f));
  }
}
