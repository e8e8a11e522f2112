/**
 * The planners and emitters of the build script (ac-library-rs-parted-build/build.rs). Each
 * planner inserts its replacements into a `BTreeMap` keyed by span and hands the map, in key
 * order, to the forward-walking splicer; the emitters wrap the result in the crate's shell.
 */
module BuildPlan {
  import opened Base
  import opened Text
  import opened Positions
  import opened Syntax
  import opened Plan
  import opened EditMaps
  import opened ForwardWalk
  import ForwardSplice
  import Splice
  import XtaskPlan

  // ---------------------------------------------------------------------------------------------
  // modify_sub_module

  /** Only `pub(crate)`: a restricted visibility without `in` whose path is the identifier `crate`. */
  predicate IsPubCrate(v: Visibility) {
    v.Restricted? && !v.inToken && IsIdent(v.path, "crate")
  }

  /** The visitor's insertion: `pub(crate)` becomes `pub`. */
  function PubCrateEntry(v: VisNode): Option<Entry> {
    if IsPubCrate(v.vis) then Some(Entry(v.span.start, v.span.end, "pub")) else None
  }

  /** Any attribute whose meta parses and whose path is `doc` is deleted. */
  predicate IsDocAttr(a: Attr) {
    a.meta.Some? && IsIdent(MetaPathOf(a.meta.value), "doc")
  }

  function DocEntry(a: Attr): Option<Entry> {
    if IsDocAttr(a) then Some(Entry(a.span.start, a.span.end, "")) else None
  }

  /** `visit_pub_visibilities(item, replacements)`: the visitor over one item inserting into the map. */
  method VisitPubVisibilities(item: Item, replacements: EditMap)
    requires replacements.Valid()
    modifies replacements
    ensures replacements.Valid()
    ensures replacements.entries == InsertAll(old(replacements.entries), FilterMap(item.visibilities, PubCrateEntry))
  {
    var vs := item.visibilities;
    ghost var start := replacements.entries;
    for j := 0 to |vs|
      invariant replacements.Valid()
      invariant replacements.entries == InsertAll(start, FilterMap(vs[..j], PubCrateEntry))
    {
      FilterMapConcat(vs[..j], [vs[j]], PubCrateEntry);
      assert vs[..j + 1] == vs[..j] + [vs[j]];
      FilterMapOne(vs[j], PubCrateEntry);
      if IsPubCrate(vs[j].vis) {
        InsertAllSnoc(start, FilterMap(vs[..j], PubCrateEntry), Entry(vs[j].span.start, vs[j].span.end, "pub"));
        assert FilterMap(vs[..j + 1], PubCrateEntry) == FilterMap(vs[..j], PubCrateEntry) + [Entry(vs[j].span.start, vs[j].span.end, "pub")];
        replacements.Insert(vs[j].span.start, vs[j].span.end, "pub");
      } else {
        assert FilterMap(vs[..j + 1], PubCrateEntry) == FilterMap(vs[..j], PubCrateEntry);
      }
    }
    assert vs[..|vs|] == vs;
  }

  /** The map `modify_sub_module` builds: the doc attributes first, then the visibilities. */
  function SubModuleEntries(f: File): seq<Entry> {
    InsertAll(InsertAll([], FilterMap(f.attrs, DocEntry)), FilterMap(Visibilities(f.items), PubCrateEntry))
  }

  /**
   * The map holds `pub` exactly at the spans of `pub(crate)` visibilities, the empty string at the
   * spans of the other `doc` attributes, and nothing else: `pub(super)`, `pub(self)`, `pub(in ...)`
   * and every other attribute are left alone.
   */
  lemma SubModulePlan(f: File, start: Pos, end: Pos)
    ensures Get(SubModuleEntries(f), start, end) ==
            if exists k :: 0 <= k < |Visibilities(f.items)| && IsPubCrate(Visibilities(f.items)[k].vis)
                             && Visibilities(f.items)[k].span == Span(start, end)
            then Some("pub")
            else if exists k :: 0 <= k < |f.attrs| && IsDocAttr(f.attrs[k]) && f.attrs[k].span == Span(start, end)
            then Some("")
            else None
  {
    var docs := InsertAll([], FilterMap(f.attrs, DocEntry));
    var vs := Visibilities(f.items);
    InsertAllSorted([], FilterMap(f.attrs, DocEntry));
    InsertAllGet(docs, FilterMap(vs, PubCrateEntry), start, end);
    DocMapGet(f.attrs, start, end);
    PubCrateKeys(vs, start, end);
  }

  /** The visibility entries: `pub` exactly under the spans of `pub(crate)` visibilities. */
  lemma PubCrateKeys(vs: seq<VisNode>, start: Pos, end: Pos)
    ensures LastFor(FilterMap(vs, PubCrateEntry), start, end) ==
            if exists k :: 0 <= k < |vs| && IsPubCrate(vs[k].vis) && vs[k].span == Span(start, end)
            then Some("pub") else None
  {
    PlannedKey(vs, PubCrateEntry, (v: VisNode) => v.span, "pub", start, end);
    assert forall k :: 0 <= k < |vs| ==> (PubCrateEntry(vs[k]).Some? <==> IsPubCrate(vs[k].vis));
  }

  /** After the attribute loop, the map holds the empty string exactly at the `doc` attributes. */
  lemma DocMapGet(attrs: seq<Attr>, start: Pos, end: Pos)
    ensures Get(InsertAll([], FilterMap(attrs, DocEntry)), start, end) ==
            if exists k :: 0 <= k < |attrs| && IsDocAttr(attrs[k]) && attrs[k].span == Span(start, end)
            then Some("") else None
  {
    InsertAllGet([], FilterMap(attrs, DocEntry), start, end);
    PlannedKey(attrs, DocEntry, (a: Attr) => a.span, "", start, end);
    assert forall k :: 0 <= k < |attrs| ==> (DocEntry(attrs[k]).Some? <==> IsDocAttr(attrs[k]));
  }

  /**
   * For a planner that puts each kept node's entry under that node's span, the last entry under
   * a key exists exactly when some kept node has that span, and it is the entry of such a node.
   */
  lemma KeyPlanned<T>(xs: seq<T>, f: T -> Option<Entry>, spanOf: T -> Span, start: Pos, end: Pos)
    requires forall x :: f(x).Some? ==> Span(f(x).value.start, f(x).value.end) == spanOf(x)
    ensures LastFor(FilterMap(xs, f), start, end).Some? <==>
            exists k :: 0 <= k < |xs| && f(xs[k]).Some? && spanOf(xs[k]) == Span(start, end)
    ensures LastFor(FilterMap(xs, f), start, end).Some? ==>
            exists k :: 0 <= k < |xs| && f(xs[k]) == Some(Entry(start, end, LastFor(FilterMap(xs, f), start, end).value))
  {
    var es := FilterMap(xs, f);
    LastForSpec(es, start, end);
    if exists k :: 0 <= k < |xs| && f(xs[k]).Some? && spanOf(xs[k]) == Span(start, end) {
      var k :| 0 <= k < |xs| && f(xs[k]).Some? && spanOf(xs[k]) == Span(start, end);
      FilterMapMembers(xs, f, f(xs[k]).value);
      var m :| 0 <= m < |es| && es[m] == f(xs[k]).value;
    }
    if LastFor(es, start, end).Some? {
      FilterMapMembers(xs, f, Entry(start, end, LastFor(es, start, end).value));
    }
  }

  /** The same, for a planner that writes one fixed text. */
  lemma PlannedKey<T>(xs: seq<T>, f: T -> Option<Entry>, spanOf: T -> Span, text: string, start: Pos, end: Pos)
    requires forall x :: f(x).Some? ==> f(x).value == Entry(spanOf(x).start, spanOf(x).end, text)
    ensures LastFor(FilterMap(xs, f), start, end) ==
            if exists k :: 0 <= k < |xs| && f(xs[k]).Some? && spanOf(xs[k]) == Span(start, end)
            then Some(text) else None
  {
    KeyPlanned(xs, f, spanOf, start, end);
  }

  /** The static `DEPS` table: the crates each public module's crate depends on, in table order. */
  function Deps(name: string): seq<string> {
    if name == "convolution" then ["internal_bit", "internal_math", "modint"]
    else if name == "lazysegtree" then ["internal_bit", "segtree"]
    else if name == "math" then ["internal_math"]
    else if name == "maxflow" then ["internal_type_traits", "internal_queue"]
    else if name == "mincostflow" then ["internal_type_traits"]
    else if name == "modint" then ["internal_math"]
    else if name == "scc" then ["internal_scc"]
    else if name == "segtree" then ["internal_bit", "internal_type_traits"]
    else if name == "twosat" then ["internal_scc"]
    else []
  }

  /** The modules the library is split into, one crate each. */
  const ModuleNames: seq<string> := [
    "convolution", "dsu", "fenwicktree", "internal_bit", "internal_math", "internal_queue",
    "internal_scc", "internal_type_traits", "lazysegtree", "math", "maxflow", "mincostflow",
    "modint", "scc", "segtree", "string", "twosat"]

  /**
   * The table only names crates that exist, never the crate itself, and the internal crates
   * depend on nothing; a name outside the table has no dependency.
   */
  lemma DepsWellFormed(name: string)
    ensures forall k :: 0 <= k < |Deps(name)| ==> Deps(name)[k] in ModuleNames && Deps(name)[k] != name
    ensures "internal_" <= name ==> Deps(name) == []
    ensures name !in ["convolution", "lazysegtree", "math", "maxflow", "mincostflow", "modint", "scc", "segtree", "twosat"] ==> Deps(name) == []
  {
    if "internal_" <= name {
      assert name[0] == 'i';
    }
  }

  /** No crate depends on a crate that depends back on it. */
  lemma DepsNoCycle(name: string)
    ensures forall k :: 0 <= k < |Deps(name)| ==> name !in Deps(Deps(name)[k])
  {
  }

  /** The `extern crate` line for one dependency. */
  function DepLine(dep: string): string {
    "extern crate __acl_" + dep + " as " + dep + ";"
  }

  /** One `extern crate` line per dependency, in table order. */
  function DepLines(deps: seq<string>): (lines: seq<string>)
    ensures |lines| == |deps| && forall k :: 0 <= k < |deps| ==> lines[k] == DepLine(deps[k])
  {
    seq(|deps|, k requires 0 <= k < |deps| => DepLine(deps[k]))
  }

  /** The dependency lines, each ended by a line feed, concatenated. */
  function ExternCrateLines(deps: seq<string>): string {
    Terminated(DepLines(deps))
  }

  /** The same dependency gets the same `extern crate` line from both programs. */
  lemma DepLineAsXtask(dep: string)
    requires !("__acl_" <= dep)
    ensures DepLine(dep) == XtaskPlan.ExternCrate("__acl_" + dep)
  {
    XtaskPlan.ExternCrateAlias(dep);
  }

  lemma DepLineNoBreak(dep: string)
    requires '\n' !in dep
    ensures '\n' !in DepLine(dep)
  {
    var line := DepLine(dep);
    var n := |"extern crate __acl_"|;
    forall m | 0 <= m < |line|
      ensures line[m] != '\n'
    {
      if n <= m < n + |dep| {
        assert line[m] == dep[m - n];
      } else if n + |dep| + 4 <= m < n + |dep| + 4 + |dep| {
        assert line[m] == dep[m - n - |dep| - 4];
      }
    }
  }

  /** The re-export line of the sub-module shell. */
  const ReExport: string := "#[doc(inline)]pub use self::items::*;"

  /** The line opening the inner module. */
  const OpenItems: string := "mod items {"

  /** The crate shell of a sub-module: its dependencies, the re-export, and the module itself. */
  function SubModuleShell(name: string, code: string): string {
    ExternCrateLines(Deps(name)) + ReExport + "\n" + OpenItems + "\n" + code + "}\n"
  }

  /**
   * The shell's lines: one `extern crate` line per dependency in table order, the re-export, the
   * line opening the module, and then the module's own lines, closed by the brace.
   */
  lemma SubModuleShellLines(name: string, code: string)
    ensures Split(SubModuleShell(name, code)) ==
            DepLines(Deps(name)) + [ReExport, OpenItems] + Split(code + "}\n")
  {
    DepsNoBreak(name);
    ShellLines(DepLines(Deps(name)), code);
  }

  /** The shell around any block of terminated lines without line feeds. */
  lemma ShellLines(lines: seq<string>, code: string)
    requires forall k :: 0 <= k < |lines| ==> '\n' !in lines[k]
    ensures Split(Terminated(lines) + ReExport + "\n" + OpenItems + "\n" + code + "}\n") ==
            lines + [ReExport, OpenItems] + Split(code + "}\n")
  {
    var t := code + "}\n";
    Regroup(Terminated(lines), ReExport, OpenItems, code, "\n", "}\n");
    SplitTerminated(lines, ReExport + "\n" + (OpenItems + "\n" + t));
    FixedLinesNoBreak();
    SplitLine(ReExport, OpenItems + "\n" + t);
    SplitLine(OpenItems, t);
    assert lines + ([ReExport] + ([OpenItems] + Split(t))) == lines + [ReExport, OpenItems] + Split(t);
  }

  lemma Regroup(a: string, b: string, c: string, d: string, nl: string, close: string)
    ensures a + b + nl + c + nl + d + close == a + (b + nl + (c + nl + (d + close)))
  {
  }

  /** The fixed lines of the shell hold no line feed. */
  lemma FixedLinesNoBreak()
    ensures '\n' !in ReExport && '\n' !in OpenItems
  {
  }

  /** No dependency line holds a line feed. */
  lemma DepsNoBreak(name: string)
    ensures forall k :: 0 <= k < |Deps(name)| ==> '\n' !in DepLines(Deps(name))[k]
  {
    var deps := Deps(name);
    forall k | 0 <= k < |deps|
      ensures '\n' !in DepLines(deps)[k]
    {
      DepLineNoBreak(deps[k]);
    }
  }

  /** The loop over the file's attributes: every `doc` attribute is planned for deletion. */
  method PlanDocAttrs(attrs: seq<Attr>, replacements: EditMap)
    requires replacements.Valid()
    modifies replacements
    ensures replacements.Valid()
    ensures replacements.entries == InsertAll(old(replacements.entries), FilterMap(attrs, DocEntry))
  {
    ghost var start := replacements.entries;
    for i := 0 to |attrs|
      invariant replacements.Valid()
      invariant replacements.entries == InsertAll(start, FilterMap(attrs[..i], DocEntry))
    {
      FilterMapConcat(attrs[..i], [attrs[i]], DocEntry);
      assert attrs[..i + 1] == attrs[..i] + [attrs[i]];
      FilterMapOne(attrs[i], DocEntry);
      var a := attrs[i];
      if a.meta.Some? && IsIdent(MetaPathOf(a.meta.value), "doc") {
        InsertAllSnoc(start, FilterMap(attrs[..i], DocEntry), Entry(a.span.start, a.span.end, ""));
        assert FilterMap(attrs[..i + 1], DocEntry) == FilterMap(attrs[..i], DocEntry) + [Entry(a.span.start, a.span.end, "")];
        replacements.Insert(a.span.start, a.span.end, "");
      } else {
        assert FilterMap(attrs[..i + 1], DocEntry) == FilterMap(attrs[..i], DocEntry);
      }
    }
    assert attrs[..|attrs|] == attrs;
  }

  /**
   * `modify_sub_module(name, code)`: a parse error is passed on; otherwise the `doc` attributes
   * and the `pub(crate)` visibilities are planned into the map, the map is applied by the forward
   * splicer, and the result is wrapped in the sub-module's shell.
   */
  method ModifySubModule(name: string, code: string, parsed: Result<File>) returns (r: Result<string>)
    ensures parsed.Err? ==> r == Err(parsed.error)
    ensures parsed.Ok? ==> r == Ok(SubModuleShell(name, Walked(code, SubModuleEntries(parsed.value)).out))
  {
    if parsed.Err? {
      return Err(parsed.error);
    }
    var attrs := parsed.value.attrs;
    var items := parsed.value.items;
    var replacements := new EditMap();
    PlanDocAttrs(attrs, replacements);
    ghost var docs := replacements.entries;
    for i := 0 to |items|
      invariant replacements.Valid()
      invariant replacements.entries == InsertAll(docs, FilterMap(Visibilities(items[..i]), PubCrateEntry))
    {
      ghost var before := FilterMap(Visibilities(items[..i]), PubCrateEntry);
      ghost var added := FilterMap(items[i].visibilities, PubCrateEntry);
      VisitPubVisibilities(items[i], replacements);
      InsertAllConcat(docs, before, added);
      VisibilitiesConcat(items[..i], [items[i]]);
      assert items[..i + 1] == items[..i] + [items[i]];
      assert Visibilities([items[i]]) == items[i].visibilities by {
        assert [items[i]][1..] == [];
      }
      FilterMapConcat(Visibilities(items[..i]), items[i].visibilities, PubCrateEntry);
    }
    assert items[..|items|] == items;
    var out := ForwardSplice.ReplaceRanges(code, replacements.entries);
    r := Ok(SubModuleShell(name, out));
  }

  // ---------------------------------------------------------------------------------------------
  // modify_root_module

  /** A `mod` item is replaced by its alias when public and deleted otherwise; other items stay. */
  function RootEntry(item: Item): Option<Entry> {
    match item.kind
    case ModItem(vis, ident) =>
      Some(Entry(item.span.start, item.span.end, if vis.Public? then PubAlias(ident) else ""))
    case OtherItem => None
  }

  function RootEntries(items: seq<Item>): seq<Entry> {
    InsertAll([], FilterMap(items, RootEntry))
  }

  /**
   * The map has an entry exactly at the spans of `mod` items, and the entry is the alias of such
   * an item when it is public and the empty string when it is not.
   */
  lemma RootPlan(items: seq<Item>, start: Pos, end: Pos)
    ensures Get(RootEntries(items), start, end).Some? <==>
            exists k :: 0 <= k < |items| && items[k].kind.ModItem? && items[k].span == Span(start, end)
    ensures Get(RootEntries(items), start, end).Some? ==>
            exists k :: 0 <= k < |items| && items[k].kind.ModItem? && items[k].span == Span(start, end)
              && Get(RootEntries(items), start, end).value ==
                 if items[k].kind.vis.Public? then PubAlias(items[k].kind.ident) else ""
  {
    InsertAllGet([], FilterMap(items, RootEntry), start, end);
    KeyPlanned(items, RootEntry, (i: Item) => i.span, start, end);
  }

  /** The crates the root re-exports, in the order of its alias header. */
  const PublicModules: seq<string> := [
    "convolution", "dsu", "fenwicktree", "lazysegtree", "math", "maxflow", "mincostflow",
    "modint", "scc", "segtree", "string", "twosat"]

  /** One `pub extern crate` alias line per crate, in order. */
  function AliasLines(names: seq<string>): (lines: seq<string>)
    ensures |lines| == |names| && forall k :: 0 <= k < |names| ==> lines[k] == PubAlias(names[k])
  {
    seq(|names|, k requires 0 <= k < |names| => PubAlias(names[k]))
  }

  /** The header of the root shell: the alias of each public crate on its own line, in the order above. */
  const RootHeader: string := Terminated(AliasLines(PublicModules))

  /** The re-export line of the root shell. */
  const RootReExport: string := "pub use self::items::*;"

  /** The lines between the header and the module code: a blank line, the re-export, a blank line, the opening. */
  const RootMiddle: seq<string> := ["", RootReExport, "", OpenItems]

  /** The shell of the root crate around the rewritten module code. */
  function RootShell(code: string): string {
    RootHeader + Terminated(RootMiddle) + code + "}\n"
  }

  /** A crate's public alias is its `extern crate` line made public. */
  lemma PubAliasLine(name: string)
    ensures PubAlias(name) == "pub " + DepLine(name)
  {
  }

  /** The crate names hold no line feed. */
  lemma PublicModulesNoBreak()
    ensures forall k :: 0 <= k < |PublicModules| ==> '\n' !in PublicModules[k]
  {
  }

  /**
   * The root shell's lines: one alias per public crate in order, a blank line, the re-export, a
   * blank line, the line opening the module, and then the module's own lines, closed by the brace.
   */
  lemma RootShellLines(code: string)
    ensures Split(RootShell(code)) == AliasLines(PublicModules) + RootMiddle + Split(code + "}\n")
  {
    var aliases := AliasLines(PublicModules);
    var middle := Terminated(RootMiddle);
    var t := code + "}\n";
    AliasLinesNoBreak();
    MiddleNoBreak();
    Splice.Assoc(RootHeader + middle, code, "}\n");
    Splice.Assoc(RootHeader, middle, t);
    SplitTerminated(aliases, middle + t);
    SplitTerminated(RootMiddle, t);
  }

  /** No alias line of the root header holds a line feed. */
  lemma AliasLinesNoBreak()
    ensures forall k :: 0 <= k < |AliasLines(PublicModules)| ==> '\n' !in AliasLines(PublicModules)[k]
  {
    var aliases := AliasLines(PublicModules);
    PublicModulesNoBreak();
    forall k | 0 <= k < |aliases|
      ensures '\n' !in aliases[k]
    {
      PubAliasLine(PublicModules[k]);
      DepLineNoBreak(PublicModules[k]);
      NotInConcat("pub ", DepLine(PublicModules[k]), '\n');
    }
  }

  /** The fixed lines of the root shell hold no line feed. */
  lemma MiddleNoBreak()
    ensures forall k :: 0 <= k < |RootMiddle| ==> '\n' !in RootMiddle[k]
  {
    FixedLinesNoBreak();
    assert '\n' !in RootReExport;
  }

  lemma NotInConcat(a: string, b: string, c: char)
    requires c !in a && c !in b
    ensures c !in a + b
  {
  }

  /**
   * `modify_root_module(code)`: a parse error is passed on; otherwise every `mod` item is
   * planned into the map, the map is applied by the forward splicer, and the result is wrapped
   * after the alias header.
   */
  method ModifyRootModule(code: string, parsed: Result<File>) returns (r: Result<string>)
    ensures parsed.Err? ==> r == Err(parsed.error)
    ensures parsed.Ok? ==> r == Ok(RootShell(Walked(code, RootEntries(parsed.value.items)).out))
  {
    if parsed.Err? {
      return Err(parsed.error);
    }
    var items := parsed.value.items;
    var replacements := new EditMap();
    for i := 0 to |items|
      invariant replacements.Valid()
      invariant replacements.entries == InsertAll([], FilterMap(items[..i], RootEntry))
    {
      FilterMapConcat(items[..i], [items[i]], RootEntry);
      assert items[..i + 1] == items[..i] + [items[i]];
      FilterMapOne(items[i], RootEntry);
      var item := items[i];
      if item.kind.ModItem? {
        var text := if item.kind.vis.Public? then PubAlias(item.kind.ident) else "";
        InsertAllSnoc([], FilterMap(items[..i], RootEntry), Entry(item.span.start, item.span.end, text));
        assert RootEntry(item) == Some(Entry(item.span.start, item.span.end, text));
        assert FilterMap(items[..i + 1], RootEntry) == FilterMap(items[..i], RootEntry) + [Entry(item.span.start, item.span.end, text)];
        replacements.Insert(item.span.start, item.span.end, text);
        assert replacements.entries == InsertAll([], FilterMap(items[..i + 1], RootEntry));
      } else {
        assert FilterMap(items[..i + 1], RootEntry) == FilterMap(items[..i], RootEntry);
      }
    }
    assert items[..|items|] == items;
    var out := ForwardSplice.ReplaceRanges(code, replacements.entries);
    r := Ok(RootShell(out));
  }
}
