/**
 * The parsed Rust file the planners look at, as `syn` hands it over: only the parts the
 * planners inspect. Parsing, `parse_meta` and the `Visit` traversal belong to `syn`; their
 * results are inputs here. Spans are `LineColumn` pairs (1-based line, 0-based char column).
 */
module Syntax {
  import opened Base
  import opened Positions

  /** One path segment: its identifier and whether it carries generic arguments. */
  datatype Segment = Segment(ident: string, hasArguments: bool)

  /** `syn::Path`: an optional leading `::` and the segments. */
  datatype Path = Path(leadingColon: bool, segments: seq<Segment>)

  /** `Path::is_ident`: no leading `::`, exactly one segment, no arguments, the given identifier. */
  predicate IsIdent(p: Path, name: string) {
    && !p.leadingColon
    && |p.segments| == 1
    && !p.segments[0].hasArguments
    && p.segments[0].ident == name
  }

  /**
   * `syn::Visibility`: `pub`, the `crate` keyword visibility, `pub(crate)`/`pub(self)`/
   * `pub(super)`/`pub(in path)` (the path, and whether the `in` token is there), or nothing.
   */
  datatype Visibility = Public | Crate | Restricted(path: Path, inToken: bool) | Inherited

  /** A visibility as the visitor meets it, with the span it covers. */
  datatype VisNode = VisNode(vis: Visibility, span: Span)

  /** A literal: a string literal with its value, or any other literal. */
  datatype Lit = LitStr(value: string) | LitOther

  /** `syn::Meta`: a bare path, a list `path(...)`, or `path = lit`. */
  datatype Meta = MetaPath(path: Path) | MetaList(path: Path) | MetaNameValue(path: Path, lit: Lit)

  /** The path of any meta. */
  function MetaPathOf(m: Meta): Path {
    match m
    case MetaPath(p) => p
    case MetaList(p) => p
    case MetaNameValue(p, _) => p
  }

  /** An attribute with its span; `meta` is `None` where `parse_meta` fails. */
  datatype Attr = Attr(span: Span, meta: Option<Meta>)

  /** What kind of item: a `mod` with its visibility and name, or anything else. */
  datatype ItemKind = ModItem(vis: Visibility, ident: string) | OtherItem

  /**
   * A top-level item: its kind, its span, and every visibility inside it (its own and those of
   * nested items and fields), in the order the visitor reaches them.
   */
  datatype Item = Item(kind: ItemKind, span: Span, visibilities: seq<VisNode>)

  /** `syn::File`: the inner attributes (`#![...]`) and the items. */
  datatype File = File(attrs: seq<Attr>, items: seq<Item>)

  /** Every visibility of the file, in visiting order. */
  function Visibilities(items: seq<Item>): (vs: seq<VisNode>)
    ensures items == [] ==> vs == []
  {
    if items == [] then [] else items[0].visibilities + Visibilities(items[1..])
  }

  /** Visiting the items of `a + b` is visiting those of `a`, then those of `b`. */
  lemma {:induction false} VisibilitiesConcat(a: seq<Item>, b: seq<Item>)
    ensures Visibilities(a + b) == Visibilities(a) + Visibilities(b)
  {
    if a != [] {
      assert (a + b)[0] == a[0] && (a + b)[1..] == a[1..] + b;
      VisibilitiesConcat(a[1..], b);
    } else {
      assert a + b == b;
    }
  }
}
