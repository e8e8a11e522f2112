/**
 * What the edit planners of both programs share: they walk a list of syntax nodes in order and
 * keep an edit for some of them (Rust's `flat_map` over an `Option`, or a visitor that pushes
 * or inserts for some nodes), and the text a public `mod` item is rewritten to.
 */
module Plan {
  import opened Base
  import opened Positions

  /** `xs.iter().flat_map(f)` for an `f` returning an `Option`: the kept results, in order. */
  function FilterMap<T, U>(xs: seq<T>, f: T -> Option<U>): (us: seq<U>)
    ensures |us| <= |xs|
  {
    if xs == [] then []
    else
      match f(xs[0])
      case Some(u) => [u] + FilterMap(xs[1..], f)
      case None => FilterMap(xs[1..], f)
  }

  /** How many nodes `f` keeps. */
  function Kept<T, U>(xs: seq<T>, f: T -> Option<U>): nat {
    if xs == [] then 0 else (if f(xs[0]).Some? then 1 else 0) + Kept(xs[1..], f)
  }

  /** Planning over `a + b` plans over `a`, then over `b`: the planner looks at one node at a time. */
  lemma {:induction false} FilterMapConcat<T, U>(a: seq<T>, b: seq<T>, f: T -> Option<U>)
    ensures FilterMap(a + b, f) == FilterMap(a, f) + FilterMap(b, f)
  {
    if a != [] {
      assert (a + b)[0] == a[0] && (a + b)[1..] == a[1..] + b;
      FilterMapConcat(a[1..], b, f);
    } else {
      assert a + b == b;
    }
  }

  /** Planning over one node. */
  lemma FilterMapOne<T, U>(x: T, f: T -> Option<U>)
    ensures FilterMap([x], f) == if f(x).Some? then [f(x).value] else []
  {
    assert [x][1..] == [];
  }

  /** Exactly one result per kept node. */
  lemma {:induction false} FilterMapCount<T, U>(xs: seq<T>, f: T -> Option<U>)
    ensures |FilterMap(xs, f)| == Kept(xs, f)
  {
    if xs != [] {
      FilterMapCount(xs[1..], f);
    }
  }

  /** A result is planned if and only if some node yields it: nothing is made up, nothing is lost. */
  lemma {:induction false} FilterMapMembers<T, U>(xs: seq<T>, f: T -> Option<U>, u: U)
    ensures u in FilterMap(xs, f) <==> exists k :: 0 <= k < |xs| && f(xs[k]) == Some(u)
  {
    if xs != [] {
      FilterMapMembers(xs[1..], f, u);
      if u in FilterMap(xs, f) && f(xs[0]) != Some(u) {
        assert u in FilterMap(xs[1..], f);
        var k :| 0 <= k < |xs[1..]| && f(xs[1..][k]) == Some(u);
        assert xs[1..][k] == xs[k + 1];
      }
      if exists k :: 0 <= k < |xs| && f(xs[k]) == Some(u) {
        var k :| 0 <= k < |xs| && f(xs[k]) == Some(u);
        if k > 0 {
          assert xs[1..][k - 1] == xs[k];
        }
      }
    }
  }

  /** `unzip`: the first components, in order. */
  function Firsts<A, B>(ps: seq<(A, B)>): (r: seq<A>)
    ensures |r| == |ps| && forall k :: 0 <= k < |ps| ==> r[k] == ps[k].0
  {
    seq(|ps|, k requires 0 <= k < |ps| => ps[k].0)
  }

  /** `unzip`: the second components, in order. */
  function Seconds<A, B>(ps: seq<(A, B)>): (r: seq<B>)
    ensures |r| == |ps| && forall k :: 0 <= k < |ps| ==> r[k] == ps[k].1
  {
    seq(|ps|, k requires 0 <= k < |ps| => ps[k].1)
  }

  /** Unzipping a concatenation unzips each part. */
  lemma UnzipConcat<A, B>(x: seq<(A, B)>, y: seq<(A, B)>)
    ensures Firsts(x + y) == Firsts(x) + Firsts(y)
    ensures Seconds(x + y) == Seconds(x) + Seconds(y)
  {
  }

  /** When no node is kept, nothing is planned. */
  lemma {:induction false} FilterMapNone<T, U>(xs: seq<T>, f: T -> Option<U>)
    requires forall k :: 0 <= k < |xs| ==> f(xs[k]).None?
    ensures FilterMap(xs, f) == []
  {
    if xs != [] {
      assert forall k :: 0 <= k < |xs[1..]| ==> xs[1..][k] == xs[k + 1];
      FilterMapNone(xs[1..], f);
    }
  }

  /**
   * Nodes whose spans lie on the text's lines, each starting no later than it ends and ending no
   * later than the next one starts: the order in which the parser hands them over.
   */
  predicate SortedBy<T>(lines: seq<string>, xs: seq<T>, spanOf: T -> Span) {
    && (forall k :: 0 <= k < |xs| ==>
          && OnLines(lines, spanOf(xs[k]).start)
          && OnLines(lines, spanOf(xs[k]).end)
          && Le(spanOf(xs[k]).start, spanOf(xs[k]).end))
    && (forall k :: 0 <= k < |xs| - 1 ==> Le(spanOf(xs[k]).end, spanOf(xs[k + 1]).start))
  }

  /**
   * A result keeps the span of the node it comes from, so planning over nodes in source order
   * gives results in source order; the first result starts no earlier than the first node.
   */
  lemma {:induction false} FilterMapSorted<T, U>(lines: seq<string>, xs: seq<T>, f: T -> Option<U>,
                                                spanOf: T -> Span, spanOfResult: U -> Span)
    requires forall x :: f(x).Some? ==> spanOfResult(f(x).value) == spanOf(x)
    requires SortedBy(lines, xs, spanOf)
    ensures SortedBy(lines, FilterMap(xs, f), spanOfResult)
    ensures FilterMap(xs, f) != [] ==> Le(spanOf(xs[0]).start, spanOfResult(FilterMap(xs, f)[0]).start)
  {
    if xs != [] {
      var tail := xs[1..];
      assert SortedBy(lines, tail, spanOf) by {
        assert forall k :: 0 <= k < |tail| ==> tail[k] == xs[k + 1];
      }
      FilterMapSorted(lines, tail, f, spanOf, spanOfResult);
      var rest := FilterMap(tail, f);
      if rest != [] {
        assert Le(spanOf(xs[0]).end, spanOf(tail[0]).start);
      }
    }
  }

  /** What a public `mod x` item of the library root becomes: `pub extern crate __acl_x as x;`. */
  function PubAlias(ident: string): string {
    "pub extern crate __acl_" + ident + " as " + ident + ";"
  }
}
