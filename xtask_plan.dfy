/**
 * The planners and emitters of `xtask` (xtask/src/main.rs). Each planner turns the parsed file
 * into a list of `(Span, String)` edits and hands it to the reverse splicer; the emitters build
 * the generated sub-crate around the rewritten module code.
 */
module XtaskPlan {
  import opened Base
  import opened Text
  import opened Positions
  import opened Splice
  import opened Syntax
  import opened Plan
  import opened ReverseSplice

  /** Edits whose spans are in source order are what the reverse splicer accepts. */
  lemma EditsInOrder(lines: seq<string>, edits: seq<Edit>)
    requires SortedBy(lines, edits, (e: Edit) => e.span)
    ensures SpansInOrder(lines, edits)
  {
  }

  // ---------------------------------------------------------------------------------------------
  // take_crate_level_doc

  /** `#![doc = "..."]`: a name-value attribute whose path is `doc` and whose literal is a string. */
  predicate IsDocString(a: Attr) {
    && a.meta.Some?
    && a.meta.value.MetaNameValue?
    && a.meta.value.lit.LitStr?
    && IsIdent(a.meta.value.path, "doc")
  }

  /** For a doc string: the edit deleting the attribute, and the string's value. */
  function DocPair(a: Attr): Option<(Edit, string)> {
    match a.meta
    case Some(MetaNameValue(path, LitStr(value))) =>
      if IsIdent(path, "doc") then Some((Edit(a.span, ""), value)) else None
    case _ => None
  }

  /** The pairs, unzipped: first the edits, then the doc strings. */
  function DocEdits(attrs: seq<Attr>): (edits: seq<Edit>) {
    Firsts(FilterMap(attrs, DocPair))
  }

  function Docs(attrs: seq<Attr>): (docs: seq<string>) {
    Seconds(FilterMap(attrs, DocPair))
  }

  /**
   * The `k`-th doc string comes with the `k`-th edit, and together they come from a doc-string
   * attribute: the edit deletes exactly that attribute and the string is its value. Every doc
   * string attribute gives such a pair, and one edit per doc-string attribute is planned.
   */
  lemma DocPlan(attrs: seq<Attr>)
    ensures |DocEdits(attrs)| == |Docs(attrs)| == Kept(attrs, DocPair)
    ensures forall k :: 0 <= k < |DocEdits(attrs)| ==>
              exists i :: 0 <= i < |attrs| && IsDocString(attrs[i])
                && DocEdits(attrs)[k] == Edit(attrs[i].span, "")
                && Docs(attrs)[k] == attrs[i].meta.value.lit.value
    ensures forall i :: 0 <= i < |attrs| && IsDocString(attrs[i]) ==>
              exists k :: 0 <= k < |DocEdits(attrs)|
                && DocEdits(attrs)[k] == Edit(attrs[i].span, "")
                && Docs(attrs)[k] == attrs[i].meta.value.lit.value
  {
    FilterMapCount(attrs, DocPair);
    forall k | 0 <= k < |DocEdits(attrs)|
      ensures exists i :: 0 <= i < |attrs| && IsDocString(attrs[i])
                && DocEdits(attrs)[k] == Edit(attrs[i].span, "")
                && Docs(attrs)[k] == attrs[i].meta.value.lit.value
    {
      DocPlannedFrom(attrs, k);
    }
    forall i | 0 <= i < |attrs| && IsDocString(attrs[i])
      ensures exists k :: 0 <= k < |DocEdits(attrs)|
                && DocEdits(attrs)[k] == Edit(attrs[i].span, "")
                && Docs(attrs)[k] == attrs[i].meta.value.lit.value
    {
      DocPlannedFor(attrs, i);
    }
  }

  /** The `k`-th planned pair comes from a doc-string attribute. */
  lemma DocPlannedFrom(attrs: seq<Attr>, k: nat)
    requires k < |DocEdits(attrs)|
    ensures exists i :: 0 <= i < |attrs| && IsDocString(attrs[i])
              && DocEdits(attrs)[k] == Edit(attrs[i].span, "")
              && Docs(attrs)[k] == attrs[i].meta.value.lit.value
  {
    var ps := FilterMap(attrs, DocPair);
    FilterMapMembers(attrs, DocPair, ps[k]);
    var i :| 0 <= i < |attrs| && DocPair(attrs[i]) == Some(ps[k]);
    assert IsDocString(attrs[i]);
    assert DocEdits(attrs)[k] == ps[k].0 && Docs(attrs)[k] == ps[k].1;
  }

  /** A doc-string attribute is planned: its deletion and its value sit at the same index. */
  lemma DocPlannedFor(attrs: seq<Attr>, i: nat)
    requires i < |attrs| && IsDocString(attrs[i])
    ensures exists k :: 0 <= k < |DocEdits(attrs)|
              && DocEdits(attrs)[k] == Edit(attrs[i].span, "")
              && Docs(attrs)[k] == attrs[i].meta.value.lit.value
  {
    var ps := FilterMap(attrs, DocPair);
    var p := (Edit(attrs[i].span, ""), attrs[i].meta.value.lit.value);
    assert DocPair(attrs[i]) == Some(p);
    FilterMapMembers(attrs, DocPair, p);
    var k :| 0 <= k < |ps| && ps[k] == p;
    assert DocEdits(attrs)[k] == p.0 && Docs(attrs)[k] == p.1;
  }

  /** The doc strings come out in attribute order: those of `a`, then those of `b`. */
  lemma DocsInOrder(a: seq<Attr>, b: seq<Attr>)
    ensures Docs(a + b) == Docs(a) + Docs(b)
    ensures DocEdits(a + b) == DocEdits(a) + DocEdits(b)
  {
    FilterMapConcat(a, b, DocPair);
    UnzipConcat(FilterMap(a, DocPair), FilterMap(b, DocPair));
  }

  /** A file without doc-string attributes has no edit and no doc: every other attribute stays. */
  lemma NoDocStrings(attrs: seq<Attr>)
    requires forall i :: 0 <= i < |attrs| ==> !IsDocString(attrs[i])
    ensures DocEdits(attrs) == [] && Docs(attrs) == []
  {
    FilterMapNone(attrs, DocPair);
  }

  /** Attributes in source order give deleting edits in source order. */
  lemma DocEditsInOrder(lines: seq<string>, attrs: seq<Attr>)
    requires SortedBy(lines, attrs, (a: Attr) => a.span)
    ensures SpansInOrder(lines, DocEdits(attrs))
  {
    var ps := FilterMap(attrs, DocPair);
    FilterMapSorted(lines, attrs, DocPair, (a: Attr) => a.span, (p: (Edit, string)) => p.0.span);
    var edits := DocEdits(attrs);
    assert forall k :: 0 <= k < |edits| ==> edits[k].span == ps[k].0.span;
    EditsInOrder(lines, edits);
  }

  /**
   * `take_crate_level_doc(code)`: a parse error is passed on; otherwise every doc-string attribute
   * is deleted from the code and its value returned, in order.
   */
  method TakeCrateLevelDoc(code: string, parsed: Result<File>) returns (r: Result<(string, seq<string>)>)
    requires parsed.Ok? ==> SortedBy(Split(code), parsed.value.attrs, (a: Attr) => a.span)
    ensures parsed.Err? ==> r == Err(parsed.error)
    ensures parsed.Ok? ==> r.Ok? && r.value.1 == Docs(parsed.value.attrs)
    ensures parsed.Ok? ==> SpansInOrder(Split(code), DocEdits(parsed.value.attrs))
    ensures parsed.Ok? ==> r.Ok? && r.value.0 == Spliced(code, DocEdits(parsed.value.attrs))
    ensures parsed.Ok? && DocEdits(parsed.value.attrs) == [] ==> r == Ok((code, []))
  {
    if parsed.Err? {
      return Err(parsed.error);
    }
    var attrs := parsed.value.attrs;
    DocEditsInOrder(Split(code), attrs);
    var replaceWith := DocEdits(attrs);
    var doc := Docs(attrs);
    if replaceWith == [] {
      assert |doc| == 0 by { DocPlan(attrs); }
    }
    var out := ReplaceRanges(code, replaceWith);
    r := Ok((out, doc));
  }

  // ---------------------------------------------------------------------------------------------
  // replace_vis_stricts

  /** The visitor's push: `pub(...)` of any kind becomes `pub`. */
  function VisEdit(v: VisNode): Option<Edit> {
    if v.vis.Restricted? then Some(Edit(v.span, "pub")) else None
  }

  /** Every edit the visitor pushes, for the visibilities in the order it visits them. */
  function VisEdits(vs: seq<VisNode>): seq<Edit> {
    FilterMap(vs, VisEdit)
  }

  /**
   * An edit is planned exactly for the restricted visibilities, and it writes `pub` over the
   * visibility's span; `pub`, `crate` and inherited visibilities get none.
   */
  lemma VisPlan(vs: seq<VisNode>, e: Edit)
    ensures e in VisEdits(vs) <==>
            exists k :: 0 <= k < |vs| && vs[k].vis.Restricted? && e == Edit(vs[k].span, "pub")
    ensures |VisEdits(vs)| == Kept(vs, VisEdit)
  {
    FilterMapMembers(vs, VisEdit, e);
    FilterMapCount(vs, VisEdit);
  }

  /** With no restricted visibility nothing is planned. */
  lemma NoRestricted(vs: seq<VisNode>)
    requires forall k :: 0 <= k < |vs| ==> !vs[k].vis.Restricted?
    ensures VisEdits(vs) == []
  {
    FilterMapNone(vs, VisEdit);
  }

  /** The visitor walking one item: a push for each restricted visibility it meets, in order. */
  method VisitItem(replaceWith: seq<Edit>, item: Item) returns (r: seq<Edit>)
    ensures r == replaceWith + VisEdits(item.visibilities)
  {
    var vs := item.visibilities;
    r := replaceWith;
    for j := 0 to |vs|
      invariant r == replaceWith + VisEdits(vs[..j])
    {
      FilterMapConcat(vs[..j], [vs[j]], VisEdit);
      assert vs[..j + 1] == vs[..j] + [vs[j]];
      if vs[j].vis.Restricted? {
        r := r + [Edit(vs[j].span, "pub")];
      }
    }
    assert vs[..|vs|] == vs;
  }

  /**
   * `replace_vis_stricts(code)`: a parse error is passed on; otherwise the visitor walks every
   * item, pushing `(span, "pub")` for each restricted visibility, and the pushes are applied.
   * The spans pushed (those of restricted visibilities, which cover real tokens) are in source order.
   */
  method ReplaceVisStricts(code: string, parsed: Result<File>) returns (r: Result<string>)
    requires parsed.Ok? ==> SpansInOrder(Split(code), VisEdits(Visibilities(parsed.value.items)))
    ensures parsed.Err? ==> r == Err(parsed.error)
    ensures parsed.Ok? ==> SpansInOrder(Split(code), VisEdits(Visibilities(parsed.value.items)))
    ensures parsed.Ok? ==> r == Ok(Spliced(code, VisEdits(Visibilities(parsed.value.items))))
  {
    if parsed.Err? {
      return Err(parsed.error);
    }
    var items := parsed.value.items;
    var replaceWith: seq<Edit> := [];
    for i := 0 to |items|
      invariant replaceWith == VisEdits(Visibilities(items[..i]))
    {
      ghost var before := Visibilities(items[..i]);
      replaceWith := VisitItem(replaceWith, items[i]);
      VisibilitiesConcat(items[..i], [items[i]]);
      assert items[..i + 1] == items[..i] + [items[i]];
      assert Visibilities([items[i]]) == items[i].visibilities by {
        assert [items[i]][1..] == [];
      }
      FilterMapConcat(before, items[i].visibilities, VisEdit);
    }
    assert items[..|items|] == items;
    var out := ReplaceRanges(code, replaceWith);
    r := Ok(out);
  }

  // ---------------------------------------------------------------------------------------------
  // modify_top

  /** A `mod` item is replaced by its alias when public and deleted otherwise; other items stay. */
  function TopEdit(item: Item): Option<Edit> {
    match item.kind
    case ModItem(vis, ident) => Some(Edit(item.span, if vis.Public? then PubAlias(ident) else ""))
    case OtherItem => None
  }

  function TopEdits(items: seq<Item>): seq<Edit> {
    FilterMap(items, TopEdit)
  }

  /**
   * Every `mod` item gets exactly one edit over its span: the `pub extern crate` alias when the
   * item is public and the empty string otherwise; no other item gets one.
   */
  lemma TopPlan(items: seq<Item>, e: Edit)
    ensures e in TopEdits(items) <==>
            exists k :: 0 <= k < |items| && items[k].kind.ModItem? && e == Edit(items[k].span,
              if items[k].kind.vis.Public? then PubAlias(items[k].kind.ident) else "")
    ensures |TopEdits(items)| == Kept(items, TopEdit)
  {
    FilterMapMembers(items, TopEdit, e);
    FilterMapCount(items, TopEdit);
  }

  /** One edit per `mod` item, in item order. */
  lemma TopInOrder(a: seq<Item>, b: seq<Item>)
    ensures TopEdits(a + b) == TopEdits(a) + TopEdits(b)
  {
    FilterMapConcat(a, b, TopEdit);
  }

  /** `modify_top(code)`: a parse error is passed on; otherwise the `mod` items are rewritten. */
  method ModifyTop(code: string, parsed: Result<File>) returns (r: Result<string>)
    requires parsed.Ok? ==> SortedBy(Split(code), parsed.value.items, (i: Item) => i.span)
    ensures parsed.Err? ==> r == Err(parsed.error)
    ensures parsed.Ok? ==> SpansInOrder(Split(code), TopEdits(parsed.value.items))
    ensures parsed.Ok? ==> r == Ok(Spliced(code, TopEdits(parsed.value.items)))
  {
    if parsed.Err? {
      return Err(parsed.error);
    }
    var items := parsed.value.items;
    FilterMapSorted(Split(code), items, TopEdit, (i: Item) => i.span, (e: Edit) => e.span);
    var replaceWith := TopEdits(items);
    EditsInOrder(Split(code), replaceWith);
    var out := ReplaceRanges(code, replaceWith);
    r := Ok(out);
  }

  // ---------------------------------------------------------------------------------------------
  // The emitters inside `main`

  /** `s.trim_start_matches(p)`: every leading repetition of `p` removed. */
  function TrimStartMatches(s: string, p: string): string
    decreases |s|
  {
    if p != [] && p <= s then TrimStartMatches(s[|p|..], p) else s
  }

  /** After trimming, the text no longer starts with `p`. */
  lemma {:induction false} TrimStartMatchesDone(s: string, p: string)
    requires p != []
    ensures !(p <= TrimStartMatches(s, p))
    decreases |s|
  {
    if p <= s {
      TrimStartMatchesDone(s[|p|..], p);
    }
  }

  /** What is trimmed is `p` some number of times. */
  lemma {:induction false} TrimStartMatchesRepeat(s: string, p: string)
    ensures exists n: nat :: s == Repeat(p, n) + TrimStartMatches(s, p)
    decreases |s|
  {
    var r := TrimStartMatches(s, p);
    if p != [] && p <= s {
      var rest := s[|p|..];
      assert r == TrimStartMatches(rest, p);
      TrimStartMatchesRepeat(rest, p);
      var n: nat :| rest == Repeat(p, n) + r;
      assert s == p + rest;
      assert Repeat(p, n + 1) == p + Repeat(p, n);
      Assoc(p, Repeat(p, n), r);
    } else {
      assert s == Repeat(p, 0) + r;
    }
  }

  function Repeat(p: string, n: nat): string {
    if n == 0 then [] else p + Repeat(p, n - 1)
  }

  /** The `extern crate` line for a dependency, aliased to its name without the `__acl_` prefix. */
  function ExternCrate(from: string): string {
    "extern crate " + from + " as " + TrimStartMatches(from, "__acl_") + ";"
  }

  /** `extern_crates`: those lines joined with line feeds. */
  function ExternCrates(names: seq<string>): string {
    Join(seq(|names|, k requires 0 <= k < |names| => ExternCrate(names[k])))
  }

  /** A dependency name without a line feed gives an `extern crate` line without one. */
  lemma ExternCrateNoBreak(from: string)
    requires '\n' !in from
    ensures '\n' !in ExternCrate(from)
  {
    var t := TrimStartMatches(from, "__acl_");
    TrimStartMatchesRepeat(from, "__acl_");
    var n: nat :| from == Repeat("__acl_", n) + t;
    assert forall i :: 0 <= i < |t| ==> t[i] == from[|Repeat("__acl_", n)| + i];
  }

  /**
   * `extern_crates` writes one line per dependency, in order: its text splits back into the
   * `extern crate` lines of the names.
   */
  lemma ExternCratesLines(names: seq<string>)
    requires names != []
    requires forall k :: 0 <= k < |names| ==> '\n' !in names[k]
    ensures Split(ExternCrates(names)) == seq(|names|, k requires 0 <= k < |names| => ExternCrate(names[k]))
  {
    var lines := seq(|names|, k requires 0 <= k < |names| => ExternCrate(names[k]));
    forall k | 0 <= k < |names|
      ensures '\n' !in lines[k]
    {
      ExternCrateNoBreak(names[k]);
    }
    SplitJoin(lines);
  }

  /**
   * For a crate `__acl_x` the alias is `x`, so the line reads `extern crate __acl_x as x;`: the
   * root's alias item is this line made public.
   */
  lemma ExternCrateAlias(name: string)
    requires !("__acl_" <= name)
    ensures ExternCrate("__acl_" + name) == "extern crate __acl_" + name + " as " + name + ";"
    ensures PubAlias(name) == "pub " + ExternCrate("__acl_" + name)
  {
    TrimAclPrefix(name);
    Assoc("extern crate ", "__acl_", name);
    assert "extern crate " + "__acl_" == "extern crate __acl_";
    Glue("pub ", "extern crate __acl_", name, " as ", ";");
    assert "pub " + "extern crate __acl_" == "pub extern crate __acl_";
  }

  lemma Glue(u: string, x: string, n: string, a: string, s: string)
    ensures u + x + n + a + n + s == u + (x + n + a + n + s)
  {
  }

  /** `trim_start_matches("__acl_")` takes back off the one prefix put on. */
  lemma TrimAclPrefix(name: string)
    requires !("__acl_" <= name)
    ensures TrimStartMatches("__acl_" + name, "__acl_") == name
  {
    var p := "__acl_";
    var s := p + name;
    assert p <= s;
    assert s[|p|..] == name;
  }

  /** One line of the module code, indented: an empty line stays empty. */
  function IndentLine(line: string): string {
    if line == "" then "\n" else "    " + line + "\n"
  }

  function Indented(lines: seq<string>): string {
    if lines == [] then [] else IndentLine(lines[0]) + Indented(lines[1..])
  }

  /** The indentation step: `code.lines()` mapped line by line and concatenated. */
  function Indent(code: string): string {
    Indented(RustLines(code))
  }

  /** A line of the indented text with its four leading spaces taken off. */
  function Dedent(line: string): string {
    if |line| >= 4 && line[..4] == "    " then line[4..] else line
  }

  /** A line of the indented text, without its line feed. */
  function IndentedPiece(line: string): string {
    if line == "" then "" else "    " + line
  }

  /** The lines of the indented text, without their line feeds. */
  function Pieces(lines: seq<string>): (ps: seq<string>)
    ensures |ps| == |lines|
    ensures forall k :: 0 <= k < |lines| ==> ps[k] == IndentedPiece(lines[k])
  {
    if lines == [] then []
    else
      var rest := Pieces(lines[1..]);
      assert forall k :: 1 <= k < |lines| ==> rest[k - 1] == IndentedPiece(lines[k]);
      [IndentedPiece(lines[0])] + rest
  }

  /** Splitting the indented text gives one piece per line and an empty piece after the last. */
  lemma {:induction false} IndentedSplit(lines: seq<string>)
    requires forall k :: 0 <= k < |lines| ==> '\n' !in lines[k]
    ensures Split(Indented(lines)) == Pieces(lines) + [""]
  {
    if lines == [] {
      assert Split([]) == [[]];
    } else {
      var tail := lines[1..];
      assert forall k :: 0 <= k < |tail| ==> '\n' !in tail[k] by {
        assert forall k :: 0 <= k < |tail| ==> tail[k] == lines[k + 1];
      }
      IndentedSplit(tail);
      IndentLineShape(lines[0]);
      SplitLine(IndentedPiece(lines[0]), Indented(tail));
    }
  }

  /** An indented line is its piece and a line feed, and the piece holds no line feed. */
  lemma IndentLineShape(line: string)
    requires '\n' !in line
    ensures IndentLine(line) == IndentedPiece(line) + "\n"
    ensures '\n' !in IndentedPiece(line)
  {
    if line != "" {
      var piece := IndentedPiece(line);
      forall m | 0 <= m < |piece|
        ensures piece[m] != '\n'
      {
        if m >= 4 {
          assert piece[m] == line[m - 4];
        }
      }
    }
  }

  /**
   * Indenting loses nothing: taking the four spaces off each line of the indented code gives
   * back the lines of the code, one for one.
   */
  lemma IndentRoundTrip(code: string)
    ensures |Split(Indent(code))| == |RustLines(code)| + 1
    ensures forall k :: 0 <= k < |RustLines(code)| ==> Dedent(Split(Indent(code))[k]) == RustLines(code)[k]
  {
    var lines := RustLines(code);
    IndentedSplit(lines);
    forall k | 0 <= k < |lines|
      ensures Dedent(IndentedPiece(lines[k])) == lines[k]
    {
      if lines[k] != "" {
        var piece := IndentedPiece(lines[k]);
        assert piece[..4] == "    " && piece[4..] == lines[k];
      }
    }
  }

  /** The generated `lib.rs` of a sub-crate, around the indented module code. */
  function ExpandedModule(docHeader: string, externCrateNames: seq<string>, moduleName: string,
                          code: string): string
  {
    "// This code was expanded by `xtask`.\n\n" + docHeader + "\n\n" + ExternCrates(externCrateNames)
    + "\n\npub use self::" + moduleName + "::*;\n\nmod " + moduleName + " {\n" + Indent(code)
    + "\n             }\n"
  }

  /** The head of the generated file, up to and including the line opening the module. */
  function ExpandedHead(docHeader: string, externCrateNames: seq<string>, moduleName: string): string {
    "// This code was expanded by `xtask`.\n\n" + docHeader + "\n\n" + ExternCrates(externCrateNames)
    + "\n\npub use self::" + moduleName + "::*;\n\nmod " + moduleName + " {\n"
  }

  /**
   * The generated file is its head, then the module code indented line by line, then the
   * closing brace: the module's lines are read back, one for one, from between the two.
   */
  lemma ExpandedModuleBody(docHeader: string, externCrateNames: seq<string>, moduleName: string,
                           code: string)
    ensures var out := ExpandedModule(docHeader, externCrateNames, moduleName, code);
            var head := ExpandedHead(docHeader, externCrateNames, moduleName);
            && |head| + 16 <= |out| && head <= out
            && out[|out| - 16..] == "\n             }\n"
            && |Split(out[|head|..|out| - 16])| == |RustLines(code)| + 1
            && forall k :: 0 <= k < |RustLines(code)| ==>
                 Dedent(Split(out[|head|..|out| - 16])[k]) == RustLines(code)[k]
  {
    var head := ExpandedHead(docHeader, externCrateNames, moduleName);
    var out := ExpandedModule(docHeader, externCrateNames, moduleName, code);
    assert out == head + Indent(code) + "\n             }\n";
    assert out[|head|..|out| - 16] == Indent(code);
    IndentRoundTrip(code);
  }
}
