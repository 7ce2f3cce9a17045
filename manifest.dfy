/**
 * The conversion of one manifest: every dependency table, at the root and
 * under each `target.<cfg>`, has its bare-string and inline-table entries
 * expanded into full tables, is sorted by key and is marked implicit; the
 * `converted` flag records whether anything was expanded.
 */
module Manifest {
  import opened Wrappers
  import opened Sequences
  import opened Document

  /** The three dependency kinds, in the order they are visited. */
  const DEPENDENCY_TABLE_KEYS: seq<string> := ["dependencies", "dev-dependencies", "build-dependencies"]

  lemma KindsDistinct()
    ensures Distinct(DEPENDENCY_TABLE_KEYS)
    ensures "target" !in DEPENDENCY_TABLE_KEYS
  {
    var k := DEPENDENCY_TABLE_KEYS;
    assert k[0] != k[1] && k[0] != k[2] && k[1] != k[2];
    assert multiset(k) == multiset{k[0]} + multiset{k[1]} + multiset{k[2]} by {
      assert k == [k[0]] + [k[1]] + [k[2]];
    }
  }

  // ---------------------------------------------------------------------------
  // One dependency table
  // ---------------------------------------------------------------------------

  /** Inserts the replacements one after the other, in order. */
  function InsertAll(t: Table, replacements: Entries): (r: Table)
    ensures r.implicit == t.implicit
    decreases |replacements|
  {
    if replacements == [] then t
    else InsertAll(Insert(t, replacements[0].0, replacements[0].1), replacements[1..])
  }

  /** Every entry with its item rewritten: the reference for what inserting the replacements achieves. */
  function RewriteEach(s: Entries): (r: Entries)
    ensures Keys(r) == Keys(s)
    ensures forall p :: p in r ==> !IsExpandable(p.1)
  {
    if s == [] then []
    else
      KeysCons(s[0], s[1..]);
      KeysCons((s[0].0, Rewritten(s[0].1)), RewriteEach(s[1..]));
      [(s[0].0, Rewritten(s[0].1))] + RewriteEach(s[1..])
  }

  lemma {:induction false} RewriteEachLookup(s: Entries, key: string)
    ensures Lookup(RewriteEach(s), key).Some? == Lookup(s, key).Some?
    ensures Lookup(s, key).Some? ==> Lookup(RewriteEach(s), key) == Some(Rewritten(Lookup(s, key).value))
  {
    if s != [] && s[0].0 != key {
      RewriteEachLookup(s[1..], key);
    }
  }

  lemma {:induction false} RewriteEachItems(s: Entries, p: (string, Item))
    requires p in RewriteEach(s)
    ensures exists e :: e in s && p == (e.0, Rewritten(e.1))
  {
    if p != RewriteEach(s)[0] {
      RewriteEachItems(s[1..], p);
      var e :| e in s[1..] && p == (e.0, Rewritten(e.1));
      assert e in s;
    } else {
      assert s[0] in s;
    }
  }

  lemma InsertBehind(e: (string, Item), s: Entries, implicit: bool, key: string, item: Item)
    requires key != e.0
    ensures Insert(Table([e] + s, implicit), key, item) == Table([e] + Put(s, key, item), implicit)
  {
    assert ([e] + s)[0] == e && ([e] + s)[1..] == s;
  }

  lemma {:induction false} InsertAllCons(e: (string, Item), s: Entries, implicit: bool, replacements: Entries)
    requires e.0 !in Keys(replacements)
    ensures InsertAll(Table([e] + s, implicit), replacements)
         == Table([e] + InsertAll(Table(s, implicit), replacements).entries, implicit)
    decreases |replacements|
  {
    if replacements != [] {
      var (key, item) := replacements[0];
      KeysCons(replacements[0], replacements[1..]);
      assert replacements == [replacements[0]] + replacements[1..];
      InsertBehind(e, s, implicit, key, item);
      InsertAllCons(e, Put(s, key, item), implicit, replacements[1..]);
    }
  }

  /**
   * Inserting the replacements of a table with distinct keys rewrites each
   * entry in place: keys and their order stay, expandable items become their
   * expansions, the rest is untouched.
   */
  lemma {:induction false} InsertAllExclude(s: Entries, implicit: bool)
    requires UniqueKeys(s)
    ensures InsertAll(Table(s, implicit), ExcludeTable(Table(s, implicit))) == Table(RewriteEach(s), implicit)
  {
    if s != [] {
      var e := s[0];
      var tail := s[1..];
      assert s == [e] + tail;
      KeysCons(e, tail);
      DistinctCons(Keys(s));
      var later := ExcludeTable(Table(tail, implicit));
      assert later == Exclude(tail);
      SubsequenceMultiset(Keys(later), Keys(tail));
      assert multiset(Keys(later))[e.0] == 0;
      InsertAllExclude(tail, implicit);
      match Expand(e.1)
      case Some(expanded) =>
        assert ExcludeTable(Table(s, implicit)) == [(e.0, expanded)] + later;
        assert Insert(Table(s, implicit), e.0, expanded) == Table([(e.0, expanded)] + tail, implicit);
        InsertAllCons((e.0, expanded), tail, implicit, later);
      case None =>
        assert ExcludeTable(Table(s, implicit)) == later;
        InsertAllCons(e, tail, implicit, later);
    }
  }

  /** A dependency table after conversion: nothing left to expand, sorted by key, implicit. */
  ghost predicate IsConverted(t: Table) {
    && t.implicit
    && SortedByKey(t.entries)
    && forall e :: e in t.entries ==> !IsExpandable(e.1)
  }

  /** What the converter makes of one located dependency table. */
  function ConvertedTable(t: Table): Table {
    SetImplicit(SortValues(InsertAll(t, ExcludeTable(t))), true)
  }

  /**
   * The shape of a converted table: it is converted, holds exactly the keys
   * it held before, and each key now holds the rewriting of its old item.
   */
  lemma ConvertedTableShape(t: Table)
    requires UniqueKeys(t.entries)
    ensures IsConverted(ConvertedTable(t))
    ensures UniqueKeys(ConvertedTable(t).entries)
    ensures multiset(Keys(ConvertedTable(t).entries)) == multiset(Keys(t.entries))
    ensures forall key :: Lookup(ConvertedTable(t).entries, key).Some? == Lookup(t.entries, key).Some?
    ensures forall key :: Lookup(t.entries, key).Some? ==>
      Lookup(ConvertedTable(t).entries, key) == Some(Rewritten(Lookup(t.entries, key).value))
  {
    var inserted := InsertAll(t, ExcludeTable(t));
    InsertAllExclude(t.entries, t.implicit);
    assert t == Table(t.entries, t.implicit);
    assert inserted.entries == RewriteEach(t.entries);
    var r := ConvertedTable(t);
    forall e | e in r.entries ensures !IsExpandable(e.1) {
      assert e in multiset(r.entries);
      assert e in inserted.entries;
    }
    forall key
      ensures Lookup(r.entries, key).Some? == Lookup(t.entries, key).Some?
      ensures Lookup(t.entries, key).Some? ==> Lookup(r.entries, key) == Some(Rewritten(Lookup(t.entries, key).value))
    {
      SortValuesLookup(inserted, key);
      RewriteEachLookup(t.entries, key);
    }
  }

  lemma ConvertedTableOfConverted(t: Table)
    requires IsConverted(t)
    ensures ExcludeTable(t) == [] && ConvertedTable(t) == t
  {
    ExcludeTableSpec(t);
  }

  /** Converting a converted table finds nothing to expand and changes nothing. */
  lemma ConvertedTableIdempotent(t: Table)
    requires UniqueKeys(t.entries)
    ensures ExcludeTable(ConvertedTable(t)) == []
    ensures ConvertedTable(ConvertedTable(t)) == ConvertedTable(t)
  {
    ConvertedTableShape(t);
    ConvertedTableOfConverted(ConvertedTable(t));
  }

  lemma ConvertedTableValid(t: Table)
    requires ValidTable(t)
    ensures ValidTable(ConvertedTable(t))
  {
    ConvertedTableShape(t);
    InsertAllExclude(t.entries, t.implicit);
    assert t == Table(t.entries, t.implicit);
    var r := ConvertedTable(t);
    forall p | p in r.entries ensures ValidItem(p.1) {
      assert p in multiset(r.entries);
      assert p in RewriteEach(t.entries);
      RewriteEachItems(t.entries, p);
      var e :| e in t.entries && p == (e.0, Rewritten(e.1));
      if IsExpandable(e.1) {
        ExpandValid(e.1);
      }
    }
  }

  /**
   * The per-table step of convert: insert every replacement, then sort the
   * table and mark it implicit. `changed` is set as soon as one replacement
   * is inserted.
   */
  method ConvertTable(dependencies: Table) returns (table: Table, changed: bool)
    ensures table == ConvertedTable(dependencies)
    ensures changed == (ExcludeTable(dependencies) != [])
  {
    var replacements := ExcludeTable(dependencies);
    table := dependencies;
    changed := false;
    var k := 0;
    while k < |replacements|
      invariant 0 <= k <= |replacements|
      invariant InsertAll(table, replacements[k..]) == InsertAll(dependencies, replacements)
      invariant changed == (k > 0)
    {
      var (name, item) := replacements[k];
      assert replacements[k..][1..] == replacements[k + 1..];
      table := Insert(table, name, item);
      changed := true;
      k := k + 1;
    }
    table := SortValues(table);
    table := SetImplicit(table, true);
  }

  // ---------------------------------------------------------------------------
  // Locations of dependency tables in the document
  // ---------------------------------------------------------------------------

  /** Where a dependency table may sit: at the root, or under `target.<cfg>`. */
  datatype Location = Root(kind: string) | Target(cfg: string, kind: string)

  predicate IsDependencyLocation(loc: Location) {
    loc.kind in DEPENDENCY_TABLE_KEYS
  }

  function Locate(doc: Table, loc: Location): Option<Table> {
    match loc
    case Root(kind) => GetDependencies(doc, kind)
    case Target(cfg, kind) => GetTargetDependencies(doc, cfg, kind)
  }

  function Update(doc: Table, loc: Location, deps: Table): Table
    requires Locate(doc, loc).Some?
  {
    match loc
    case Root(kind) => SetDependencies(doc, kind, deps)
    case Target(cfg, kind) => SetTargetDependencies(doc, cfg, kind, deps)
  }

  function ConvertLocated(located: Option<Table>): Option<Table> {
    match located
    case None => None
    case Some(t) => Some(ConvertedTable(t))
  }

  /** Writing back one dependency table leaves every other dependency table where it was. */
  lemma UpdateLocate(doc: Table, loc: Location, deps: Table, other: Location)
    requires Locate(doc, loc).Some?
    requires IsDependencyLocation(loc) && IsDependencyLocation(other)
    ensures Locate(Update(doc, loc, deps), other) == if other == loc then Some(deps) else Locate(doc, other)
  {
    KindsDistinct();
    if other != loc {
      match loc
      case Root(kind) =>
        UpdateRootLocate(doc, kind, deps, other);
      case Target(cfg, kind) =>
        UpdateTargetLocate(doc, cfg, kind, deps, other);
    }
  }

  lemma UpdateRootLocate(doc: Table, kind: string, deps: Table, other: Location)
    requires GetDependencies(doc, kind).Some? && kind != "target" && other != Root(kind)
    ensures Locate(SetDependencies(doc, kind, deps), other) == Locate(doc, other)
  {
    assert Subtable(SetDependencies(doc, kind, deps), "target") == Subtable(doc, "target");
  }

  lemma UpdateTargetLocate(doc: Table, cfg: string, kind: string, deps: Table, other: Location)
    requires GetTargetDependencies(doc, cfg, kind).Some? && other.kind != "target" && other != Target(cfg, kind)
    ensures Locate(SetTargetDependencies(doc, cfg, kind, deps), other) == Locate(doc, other)
  {
    var target := Subtable(doc, "target").value;
    var cfgTable := Subtable(target, cfg).value;
    var cfgTable' := SetSubtable(cfgTable, kind, deps);
    var target' := SetSubtable(target, cfg, cfgTable');
    var doc' := SetSubtable(doc, "target", target');
    assert SetTargetDependencies(doc, cfg, kind, deps) == doc';
    match other
    case Root(k) =>
      assert Lookup(doc'.entries, k) == Lookup(doc.entries, k);
    case Target(c, k) =>
      assert Subtable(doc', "target") == Some(target');
      UpdateCfgLocate(target, cfg, kind, deps, c, k);
  }

  /** Inside `target`: rewriting `<cfg>.<kind>` leaves every other `<c>.<k>` as it was. */
  lemma UpdateCfgLocate(target: Table, cfg: string, kind: string, deps: Table, c: string, k: string)
    requires Subtable(target, cfg).Some? && Subtable(Subtable(target, cfg).value, kind).Some?
    requires c != cfg || k != kind
    ensures var target' := SetSubtable(target, cfg, SetSubtable(Subtable(target, cfg).value, kind, deps));
      && Subtable(target', c).Some? == Subtable(target, c).Some?
      && (Subtable(target, c).Some? ==> Subtable(Subtable(target', c).value, k) == Subtable(Subtable(target, c).value, k))
  {
    var cfgTable' := SetSubtable(Subtable(target, cfg).value, kind, deps);
    var target' := SetSubtable(target, cfg, cfgTable');
    if c != cfg {
      assert Subtable(target', c) == Subtable(target, c);
    } else {
      assert Subtable(target', c) == Some(cfgTable');
    }
  }

  lemma UpdateSame(doc: Table, loc: Location)
    requires Locate(doc, loc).Some?
    ensures Update(doc, loc, Locate(doc, loc).value) == doc
  {
  }

  /** The root key under which a location lies: its kind, or `target`. */
  function RootKey(loc: Location): string {
    if loc.Root? then loc.kind else "target"
  }

  /** Writing back a dependency table changes no root item other than the one it lies under. */
  lemma UpdateKeepsRest(doc: Table, loc: Location, deps: Table)
    requires Locate(doc, loc).Some? && IsDependencyLocation(loc)
    ensures Keys(Update(doc, loc, deps).entries) == Keys(doc.entries)
    ensures Update(doc, loc, deps).implicit == doc.implicit
    ensures forall key :: key != RootKey(loc) ==> Lookup(Update(doc, loc, deps).entries, key) == Lookup(doc.entries, key)
    ensures GetCfgs(Update(doc, loc, deps)) == GetCfgs(doc)
  {
    KindsDistinct();
    match loc
    case Root(kind) =>
      assert Subtable(Update(doc, loc, deps), "target") == Subtable(doc, "target");
    case Target(cfg, kind) =>
  }

  lemma LocateValid(doc: Table, loc: Location)
    requires ValidTable(doc) && Locate(doc, loc).Some?
    ensures ValidTable(Locate(doc, loc).value)
  {
    match loc
    case Root(kind) =>
      SubtableValid(doc, kind);
    case Target(cfg, kind) =>
      SubtableValid(doc, "target");
      SubtableValid(Subtable(doc, "target").value, cfg);
      SubtableValid(Subtable(Subtable(doc, "target").value, cfg).value, kind);
  }

  lemma UpdateValid(doc: Table, loc: Location, deps: Table)
    requires ValidTable(doc) && Locate(doc, loc).Some? && ValidTable(deps)
    ensures ValidTable(Update(doc, loc, deps))
  {
    match loc
    case Root(kind) =>
      InsertValid(doc, kind, TableItem(deps));
    case Target(cfg, kind) =>
      var target := Subtable(doc, "target").value;
      var cfgTable := Subtable(target, cfg).value;
      SubtableValid(doc, "target");
      SubtableValid(target, cfg);
      InsertValid(cfgTable, kind, TableItem(deps));
      var cfgTable' := SetSubtable(cfgTable, kind, deps);
      InsertValid(target, cfg, TableItem(cfgTable'));
      InsertValid(doc, "target", TableItem(SetSubtable(target, cfg, cfgTable')));
  }

  // ---------------------------------------------------------------------------
  // The walk over all locations
  // ---------------------------------------------------------------------------

  /** The document after a conversion, and whether any entry was expanded. */
  datatype Outcome = Outcome(document: Table, converted: bool)

  /**
   * One location: an absent one (or one that is not a table) is skipped;
   * otherwise its table is converted and written back.
   */
  function Step(doc: Table, loc: Location): Outcome {
    match Locate(doc, loc)
    case None => Outcome(doc, false)
    case Some(deps) => Outcome(Update(doc, loc, ConvertedTable(deps)), ExcludeTable(deps) != [])
  }

  /** Visits the locations in order. */
  function Walk(doc: Table, visits: seq<Location>): Outcome
    decreases |visits|
  {
    if visits == [] then Outcome(doc, false)
    else
      var first := Step(doc, visits[0]);
      var rest := Walk(first.document, visits[1..]);
      Outcome(rest.document, first.converted || rest.converted)
  }

  /**
   * The body of convert for one location: fetch the dependency table, if
   * there is one, convert it and write it back.
   */
  method ConvertLocation(doc: Table, loc: Location) returns (updated: Table, changed: bool)
    ensures updated == Step(doc, loc).document
    ensures changed == Step(doc, loc).converted
  {
    updated := doc;
    changed := false;
    var dependencies := Locate(doc, loc);
    if dependencies.Some? {
      var table;
      table, changed := ConvertTable(dependencies.value);
      updated := Update(doc, loc, table);
    }
  }

  lemma WalkCons(doc: Table, loc: Location, visits: seq<Location>)
    ensures Walk(doc, [loc] + visits).document == Walk(Step(doc, loc).document, visits).document
    ensures Walk(doc, [loc] + visits).converted
         == (Step(doc, loc).converted || Walk(Step(doc, loc).document, visits).converted)
  {
    assert ([loc] + visits)[0] == loc && ([loc] + visits)[1..] == visits;
  }

  lemma StepValid(doc: Table, loc: Location)
    requires ValidTable(doc)
    ensures ValidTable(Step(doc, loc).document)
  {
    if Locate(doc, loc).Some? {
      var deps := Locate(doc, loc).value;
      LocateValid(doc, loc);
      ConvertedTableValid(deps);
      UpdateValid(doc, loc, ConvertedTable(deps));
    }
  }

  function TargetVisits(cfgs: seq<string>, kind: string): (r: seq<Location>)
    ensures |r| == |cfgs|
    ensures forall i :: 0 <= i < |cfgs| ==> r[i] == Target(cfgs[i], kind)
  {
    if cfgs == [] then [] else [Target(cfgs[0], kind)] + TargetVisits(cfgs[1..], kind)
  }

  function KindVisits(kinds: seq<string>, cfgs: seq<string>): seq<Location> {
    if kinds == [] then []
    else [Root(kinds[0])] + TargetVisits(cfgs, kinds[0]) + KindVisits(kinds[1..], cfgs)
  }

  /** The visiting order: kind by kind, the root table first, then the kind under each cfg. */
  function Visits(cfgs: seq<string>): seq<Location> {
    KindVisits(DEPENDENCY_TABLE_KEYS, cfgs)
  }

  /** The conversion of a whole document; the cfgs are read once, before anything changes. */
  function ConvertDocument(doc: Table): (r: Outcome)
    ensures ValidTable(doc) ==> ValidTable(r.document)
  {
    WalkValidIf(doc, Visits(GetCfgs(doc)));
    Walk(doc, Visits(GetCfgs(doc)))
  }

  lemma {:induction false} TargetVisitsCount(cfgs: seq<string>, kind: string, loc: Location)
    ensures multiset(TargetVisits(cfgs, kind))[loc]
         == if loc.Target? && loc.kind == kind then multiset(cfgs)[loc.cfg] else 0
  {
    if cfgs != [] {
      TargetVisitsCount(cfgs[1..], kind, loc);
      assert TargetVisits(cfgs, kind) == [Target(cfgs[0], kind)] + TargetVisits(cfgs[1..], kind);
      CountCons(Target(cfgs[0], kind), TargetVisits(cfgs[1..], kind), loc);
      if loc.Target? {
        assert cfgs == [cfgs[0]] + cfgs[1..];
        CountCons(cfgs[0], cfgs[1..], loc.cfg);
      }
    }
  }

  /** The visits of one kind: its root location once, and the kind under each cfg. */
  lemma KindBlockCount(kind: string, cfgs: seq<string>, loc: Location)
    ensures multiset([Root(kind)] + TargetVisits(cfgs, kind))[loc]
         == if loc.kind != kind then 0 else if loc.Root? then 1 else multiset(cfgs)[loc.cfg]
  {
    TargetVisitsCount(cfgs, kind, loc);
    CountAppend([Root(kind)], TargetVisits(cfgs, kind), loc);
    if loc.Root? && loc.kind == kind {
      assert loc == Root(kind);
    }
  }

  lemma {:induction false} KindVisitsCount(kinds: seq<string>, cfgs: seq<string>, loc: Location)
    requires Distinct(kinds)
    ensures multiset(KindVisits(kinds, cfgs))[loc]
         == if loc.kind !in kinds then 0 else if loc.Root? then 1 else multiset(cfgs)[loc.cfg]
  {
    if kinds != [] {
      var kind := kinds[0];
      var block := [Root(kind)] + TargetVisits(cfgs, kind);
      var later := KindVisits(kinds[1..], cfgs);
      DistinctCons(kinds);
      KindVisitsCount(kinds[1..], cfgs, loc);
      KindBlockCount(kind, cfgs, loc);
      CountAppend(block, later, loc);
      assert KindVisits(kinds, cfgs) == block + later;
      assert loc.kind in kinds <==> loc.kind == kind || loc.kind in kinds[1..] by {
        assert kinds == [kind] + kinds[1..];
      }
    }
  }

  /**
   * Exact coverage: the visits are every (kind, root) and every (kind, cfg)
   * pair for the given cfgs, and with distinct cfgs each is visited once.
   */
  lemma VisitsCoverage(cfgs: seq<string>, loc: Location)
    ensures loc in Visits(cfgs) <==> IsDependencyLocation(loc) && (loc.Target? ==> loc.cfg in cfgs)
    ensures Distinct(cfgs) ==> multiset(Visits(cfgs))[loc] <= 1
  {
    KindsDistinct();
    KindVisitsCount(DEPENDENCY_TABLE_KEYS, cfgs, loc);
  }

  lemma VisitsDistinct(cfgs: seq<string>)
    requires Distinct(cfgs)
    ensures Distinct(Visits(cfgs))
    ensures forall loc :: loc in Visits(cfgs) ==> IsDependencyLocation(loc)
  {
    forall loc | loc in Visits(cfgs)
      ensures multiset(Visits(cfgs))[loc] <= 1 && IsDependencyLocation(loc)
    {
      VisitsCoverage(cfgs, loc);
    }
  }

  /** The kind-major visiting order, written out. */
  lemma VisitsOrder(cfgs: seq<string>)
    ensures Visits(cfgs)
         == [Root("dependencies")] + TargetVisits(cfgs, "dependencies")
          + [Root("dev-dependencies")] + TargetVisits(cfgs, "dev-dependencies")
          + [Root("build-dependencies")] + TargetVisits(cfgs, "build-dependencies")
  {
    var kinds := DEPENDENCY_TABLE_KEYS;
    var d := [Root("dependencies")] + TargetVisits(cfgs, "dependencies");
    var v := [Root("dev-dependencies")] + TargetVisits(cfgs, "dev-dependencies");
    var b := [Root("build-dependencies")] + TargetVisits(cfgs, "build-dependencies");
    assert kinds[1..][1..][1..] == [];
    assert KindVisits(kinds[1..][1..], cfgs) == b + [];
    assert KindVisits(kinds[1..], cfgs) == v + b;
    assert Visits(cfgs) == d + (v + b);
  }

  ghost predicate WellAimed(visits: seq<Location>) {
    forall loc :: loc in visits ==> IsDependencyLocation(loc)
  }

  /** What the walk leaves at a dependency location: converted once if visited, untouched if not. */
  lemma {:induction false} WalkLocate(doc: Table, visits: seq<Location>, loc: Location)
    requires Distinct(visits) && WellAimed(visits) && IsDependencyLocation(loc)
    ensures Locate(Walk(doc, visits).document, loc)
         == if loc in visits then ConvertLocated(Locate(doc, loc)) else Locate(doc, loc)
    decreases |visits|
  {
    if visits != [] {
      var first := visits[0];
      DistinctCons(visits);
      assert visits == [first] + visits[1..];
      if Locate(doc, first).Some? {
        UpdateLocate(doc, first, ConvertedTable(Locate(doc, first).value), loc);
      }
      WalkLocate(Step(doc, first).document, visits[1..], loc);
    }
  }

  /** A dependency location whose table has at least one entry to expand. */
  ghost predicate Rewrites(doc: Table, loc: Location) {
    Locate(doc, loc).Some? && ExcludeTable(Locate(doc, loc).value) != []
  }

  /** The walk's flag is true exactly when some visited table had an entry to expand. */
  lemma {:induction false} WalkFlag(doc: Table, visits: seq<Location>)
    requires Distinct(visits) && WellAimed(visits)
    ensures Walk(doc, visits).converted <==> exists loc :: loc in visits && Rewrites(doc, loc)
    decreases |visits|
  {
    if visits != [] {
      var first := visits[0];
      var rest := visits[1..];
      DistinctCons(visits);
      assert visits == [first] + rest;
      assert first in visits;
      var doc' := Step(doc, first).document;
      WalkFlag(doc', rest);
      forall loc | loc in rest
        ensures Rewrites(doc', loc) == Rewrites(doc, loc)
      {
        assert loc in visits;
        StepKeepsOthers(doc, first, loc);
      }
      assert Walk(doc, visits).converted == (Rewrites(doc, first) || Walk(doc', rest).converted);
      assert (exists loc :: loc in visits && Rewrites(doc, loc))
         <==> Rewrites(doc, first) || exists loc :: loc in rest && Rewrites(doc, loc);
    }
  }

  lemma StepKeepsOthers(doc: Table, loc: Location, other: Location)
    requires IsDependencyLocation(loc) && IsDependencyLocation(other) && other != loc
    ensures Locate(Step(doc, loc).document, other) == Locate(doc, other)
  {
    if Locate(doc, loc).Some? {
      UpdateLocate(doc, loc, ConvertedTable(Locate(doc, loc).value), other);
    }
  }

  /**
   * A dependency-kind table `u'` that differs from `u` at most inside the
   * dependency tables `u` holds: the same keys in the same order, the same
   * flag, every key that does not hold a dependency table keeps its item, and
   * every dependency table is still a table.
   */
  ghost predicate SameOutsideKinds(u: Table, u': Table) {
    && Keys(u'.entries) == Keys(u.entries)
    && u'.implicit == u.implicit
    && (forall k :: (k !in DEPENDENCY_TABLE_KEYS || Subtable(u, k).None?) ==> Lookup(u'.entries, k) == Lookup(u.entries, k))
    && (forall k :: Subtable(u, k).Some? ==> Subtable(u', k).Some?)
  }

  /**
   * The `target` table `t'` differs from `t` at most inside the dependency
   * tables of its cfg tables: the same cfgs in the same order, the same flag,
   * an item that is not a full table kept as it is, and each cfg table
   * changed only inside its dependency tables.
   */
  ghost predicate SameOutsideTargets(t: Table, t': Table) {
    && Keys(t'.entries) == Keys(t.entries)
    && t'.implicit == t.implicit
    && (forall c :: Subtable(t, c).None? ==> Lookup(t'.entries, c) == Lookup(t.entries, c))
    && (forall c :: Subtable(t, c).Some? ==>
          Subtable(t', c).Some? && SameOutsideKinds(Subtable(t, c).value, Subtable(t', c).value))
  }

  /**
   * The document `doc'` differs from `doc` at most inside dependency tables,
   * at the root or under `target.<cfg>`: everything else, down to the key
   * order and the `implicit` flag of every enclosing table, is kept.
   */
  ghost predicate SameOutsideDependencies(doc: Table, doc': Table) {
    && Keys(doc'.entries) == Keys(doc.entries)
    && doc'.implicit == doc.implicit
    && (forall k :: k != "target" && (k !in DEPENDENCY_TABLE_KEYS || Subtable(doc, k).None?) ==>
          Lookup(doc'.entries, k) == Lookup(doc.entries, k))
    && (forall k :: Subtable(doc, k).Some? ==> Subtable(doc', k).Some?)
    && (Subtable(doc, "target").None? ==> Lookup(doc'.entries, "target") == Lookup(doc.entries, "target"))
    && (Subtable(doc, "target").Some? ==>
          SameOutsideTargets(Subtable(doc, "target").value, Subtable(doc', "target").value))
  }

  lemma SameOutsideRefl(doc: Table)
    ensures SameOutsideDependencies(doc, doc)
  {
    if Subtable(doc, "target").Some? {
      var t := Subtable(doc, "target").value;
      forall c | Subtable(t, c).Some?
        ensures SameOutsideKinds(Subtable(t, c).value, Subtable(t, c).value)
      {
      }
    }
  }

  lemma SameOutsideKindsTrans(a: Table, b: Table, c: Table)
    requires SameOutsideKinds(a, b) && SameOutsideKinds(b, c)
    ensures SameOutsideKinds(a, c)
  {
    forall k | k !in DEPENDENCY_TABLE_KEYS || Subtable(a, k).None?
      ensures Lookup(c.entries, k) == Lookup(a.entries, k)
    {
      assert Subtable(b, k) == Subtable(a, k);
    }
  }

  lemma SameOutsideTargetsTrans(a: Table, b: Table, c: Table)
    requires SameOutsideTargets(a, b) && SameOutsideTargets(b, c)
    ensures SameOutsideTargets(a, c)
  {
    forall cfg | Subtable(a, cfg).None?
      ensures Lookup(c.entries, cfg) == Lookup(a.entries, cfg)
    {
      assert Subtable(b, cfg) == Subtable(a, cfg);
    }
    forall cfg | Subtable(a, cfg).Some?
      ensures Subtable(c, cfg).Some? && SameOutsideKinds(Subtable(a, cfg).value, Subtable(c, cfg).value)
    {
      SameOutsideKindsTrans(Subtable(a, cfg).value, Subtable(b, cfg).value, Subtable(c, cfg).value);
    }
  }

  lemma SameOutsideTrans(a: Table, b: Table, c: Table)
    requires SameOutsideDependencies(a, b) && SameOutsideDependencies(b, c)
    ensures SameOutsideDependencies(a, c)
  {
    forall k | k != "target" && (k !in DEPENDENCY_TABLE_KEYS || Subtable(a, k).None?)
      ensures Lookup(c.entries, k) == Lookup(a.entries, k)
    {
      assert Subtable(b, k) == Subtable(a, k);
    }
    if Subtable(a, "target").None? {
      assert Subtable(b, "target") == Subtable(a, "target");
    } else {
      SameOutsideTargetsTrans(Subtable(a, "target").value, Subtable(b, "target").value, Subtable(c, "target").value);
    }
  }

  /** What stays outside the dependency tables fixes the cfg list. */
  lemma SameOutsideCfgs(doc: Table, doc': Table)
    requires SameOutsideDependencies(doc, doc')
    ensures GetCfgs(doc') == GetCfgs(doc)
  {
    if Subtable(doc, "target").None? {
      assert Subtable(doc', "target") == Subtable(doc, "target");
    }
  }

  lemma UpdateRootSameOutside(doc: Table, kind: string, deps: Table)
    requires GetDependencies(doc, kind).Some? && kind in DEPENDENCY_TABLE_KEYS
    ensures SameOutsideDependencies(doc, SetDependencies(doc, kind, deps))
  {
    KindsDistinct();
    assert Subtable(SetDependencies(doc, kind, deps), "target") == Subtable(doc, "target");
    SameOutsideRefl(doc);
  }

  lemma UpdateCfgSameOutside(cfgTable: Table, kind: string, deps: Table)
    requires Subtable(cfgTable, kind).Some? && kind in DEPENDENCY_TABLE_KEYS
    ensures SameOutsideKinds(cfgTable, SetSubtable(cfgTable, kind, deps))
  {
  }

  lemma SetCfgSameOutside(target: Table, cfg: string, cfgTable': Table)
    requires Subtable(target, cfg).Some? && SameOutsideKinds(Subtable(target, cfg).value, cfgTable')
    ensures SameOutsideTargets(target, SetSubtable(target, cfg, cfgTable'))
  {
    var target' := SetSubtable(target, cfg, cfgTable');
    forall c | Subtable(target, c).Some?
      ensures Subtable(target', c).Some?
      ensures SameOutsideKinds(Subtable(target, c).value, Subtable(target', c).value)
    {
      if c != cfg {
        assert Subtable(target', c) == Subtable(target, c);
      }
    }
  }

  lemma UpdateTargetSameOutside(doc: Table, cfg: string, kind: string, deps: Table)
    requires GetTargetDependencies(doc, cfg, kind).Some? && kind in DEPENDENCY_TABLE_KEYS
    ensures SameOutsideDependencies(doc, SetTargetDependencies(doc, cfg, kind, deps))
  {
    var target := Subtable(doc, "target").value;
    var cfgTable := Subtable(target, cfg).value;
    var target' := SetSubtable(target, cfg, SetSubtable(cfgTable, kind, deps));
    var doc' := SetSubtable(doc, "target", target');
    assert SetTargetDependencies(doc, cfg, kind, deps) == doc';
    UpdateCfgSameOutside(cfgTable, kind, deps);
    SetCfgSameOutside(target, cfg, SetSubtable(cfgTable, kind, deps));
    SetTargetSameOutside(doc, target');
  }

  lemma SetTargetSameOutside(doc: Table, target': Table)
    requires Subtable(doc, "target").Some? && SameOutsideTargets(Subtable(doc, "target").value, target')
    ensures SameOutsideDependencies(doc, SetSubtable(doc, "target", target'))
  {
  }

  lemma StepSameOutside(doc: Table, loc: Location)
    requires IsDependencyLocation(loc)
    ensures SameOutsideDependencies(doc, Step(doc, loc).document)
  {
    if Locate(doc, loc).None? {
      SameOutsideRefl(doc);
    } else {
      var deps := ConvertedTable(Locate(doc, loc).value);
      match loc
      case Root(kind) =>
        UpdateRootSameOutside(doc, kind, deps);
      case Target(cfg, kind) =>
        UpdateTargetSameOutside(doc, cfg, kind, deps);
    }
  }

  /**
   * A walk over dependency locations changes nothing outside the dependency
   * tables, and so keeps the cfg list.
   */
  lemma {:induction false} WalkKeepsRest(doc: Table, visits: seq<Location>)
    requires WellAimed(visits)
    ensures SameOutsideDependencies(doc, Walk(doc, visits).document)
    ensures GetCfgs(Walk(doc, visits).document) == GetCfgs(doc)
    decreases |visits|
  {
    if visits == [] {
      SameOutsideRefl(doc);
    } else {
      assert visits[0] in visits;
      var doc' := Step(doc, visits[0]).document;
      StepSameOutside(doc, visits[0]);
      WalkKeepsRest(doc', visits[1..]);
      SameOutsideTrans(doc, doc', Walk(doc, visits).document);
    }
    SameOutsideCfgs(doc, Walk(doc, visits).document);
  }

  lemma {:induction false} WalkValid(doc: Table, visits: seq<Location>)
    requires ValidTable(doc)
    ensures ValidTable(Walk(doc, visits).document)
    decreases |visits|
  {
    if visits != [] {
      StepValid(doc, visits[0]);
      WalkValid(Step(doc, visits[0]).document, visits[1..]);
    }
  }

  lemma WalkValidIf(doc: Table, visits: seq<Location>)
    ensures ValidTable(doc) ==> ValidTable(Walk(doc, visits).document)
  {
    if ValidTable(doc) {
      WalkValid(doc, visits);
    }
  }

  /** A walk over tables that are all converted already changes nothing and reports nothing. */
  lemma {:induction false} WalkFixpoint(doc: Table, visits: seq<Location>)
    requires forall loc :: loc in visits && Locate(doc, loc).Some? ==> IsConverted(Locate(doc, loc).value)
    ensures Walk(doc, visits) == Outcome(doc, false)
    decreases |visits|
  {
    if visits != [] {
      assert visits[0] in visits;
      assert forall loc :: loc in visits[1..] ==> loc in visits;
      if Locate(doc, visits[0]).Some? {
        ConvertedTableOfConverted(Locate(doc, visits[0]).value);
        UpdateSame(doc, visits[0]);
      }
      WalkFixpoint(doc, visits[1..]);
    }
  }

  // ---------------------------------------------------------------------------
  // Properties of the whole conversion
  // ---------------------------------------------------------------------------

  lemma TargetLocatedHasCfg(doc: Table, loc: Location)
    requires loc.Target? && Locate(doc, loc).Some?
    ensures loc.cfg in GetCfgs(doc)
  {
  }

  /**
   * Every dependency table, at the root or under any `target.<cfg>`, is
   * converted exactly once; a missing or non-table location stays missing.
   */
  lemma ConvertCoverage(doc: Table, loc: Location)
    requires ValidTable(doc) && IsDependencyLocation(loc)
    ensures Locate(ConvertDocument(doc).document, loc) == ConvertLocated(Locate(doc, loc))
  {
    var cfgs := GetCfgs(doc);
    VisitsDistinct(cfgs);
    VisitsCoverage(cfgs, loc);
    WalkLocate(doc, Visits(cfgs), loc);
    if loc.Target? && Locate(doc, loc).Some? {
      TargetLocatedHasCfg(doc, loc);
    }
  }

  /**
   * After conversion every dependency table is converted: no bare-string or
   * inline-table entry is left, its entries are sorted by key, it is implicit,
   * and it holds the same keys as before.
   */
  lemma ConvertNormalizes(doc: Table, loc: Location)
    requires ValidTable(doc) && IsDependencyLocation(loc)
    ensures Locate(ConvertDocument(doc).document, loc).Some? == Locate(doc, loc).Some?
    ensures Locate(doc, loc).Some? ==>
      && IsConverted(Locate(ConvertDocument(doc).document, loc).value)
      && multiset(Keys(Locate(ConvertDocument(doc).document, loc).value.entries))
         == multiset(Keys(Locate(doc, loc).value.entries))
  {
    ConvertCoverage(doc, loc);
    if Locate(doc, loc).Some? {
      LocateValid(doc, loc);
      ConvertedTableShape(Locate(doc, loc).value);
    }
  }

  /** `converted` is true exactly when some dependency table had an entry to expand. */
  lemma ConvertFlag(doc: Table)
    requires ValidTable(doc)
    ensures ConvertDocument(doc).converted <==>
      exists loc :: IsDependencyLocation(loc) && Rewrites(doc, loc)
  {
    var cfgs := GetCfgs(doc);
    VisitsDistinct(cfgs);
    WalkFlag(doc, Visits(cfgs));
    if exists loc :: IsDependencyLocation(loc) && Rewrites(doc, loc) {
      var loc :| IsDependencyLocation(loc) && Rewrites(doc, loc);
      VisitsCoverage(cfgs, loc);
      if loc.Target? {
        TargetLocatedHasCfg(doc, loc);
      }
    }
  }

  /** Converting a converted document changes nothing and reports no update. */
  lemma ConvertIdempotent(doc: Table)
    requires ValidTable(doc)
    ensures ConvertDocument(ConvertDocument(doc).document) == Outcome(ConvertDocument(doc).document, false)
  {
    var cfgs := GetCfgs(doc);
    var doc' := ConvertDocument(doc).document;
    VisitsDistinct(cfgs);
    WalkKeepsRest(doc, Visits(cfgs));
    assert GetCfgs(doc') == cfgs;
    forall loc | loc in Visits(cfgs) && Locate(doc', loc).Some?
      ensures IsConverted(Locate(doc', loc).value)
    {
      ConvertNormalizes(doc, loc);
    }
    WalkFixpoint(doc', Visits(cfgs));
  }

  /**
   * Nothing outside the dependency tables changes: at the root, in `target`
   * and in every `target.<cfg>`, the keys keep their order, the flag is kept,
   * and every item that is not a dependency table (a missing or non-table
   * kind included) keeps its exact value; the cfg list is kept.
   */
  lemma ConvertKeepsRest(doc: Table)
    ensures SameOutsideDependencies(doc, ConvertDocument(doc).document)
    ensures GetCfgs(ConvertDocument(doc).document) == GetCfgs(doc)
  {
    var cfgs := GetCfgs(doc);
    forall loc | loc in Visits(cfgs) ensures IsDependencyLocation(loc) {
      VisitsCoverage(cfgs, loc);
    }
    WalkKeepsRest(doc, Visits(cfgs));
  }

  /** A walk over `visits` from `doc`, with `flag` set so far, ends in `goal`. */
  ghost predicate Resumes(doc: Table, flag: bool, visits: seq<Location>, goal: Outcome) {
    && Walk(doc, visits).document == goal.document
    && (flag || Walk(doc, visits).converted) == goal.converted
  }

  lemma ResumesCons(doc: Table, flag: bool, loc: Location, visits: seq<Location>, goal: Outcome)
    requires Resumes(doc, flag, [loc] + visits, goal)
    ensures Resumes(Step(doc, loc).document, flag || Step(doc, loc).converted, visits, goal)
  {
    WalkCons(doc, loc, visits);
  }

  lemma KindVisitsCons(kinds: seq<string>, i: nat, cfgs: seq<string>)
    requires i < |kinds|
    ensures KindVisits(kinds[i..], cfgs)
         == [Root(kinds[i])] + (TargetVisits(cfgs, kinds[i]) + KindVisits(kinds[i + 1..], cfgs))
  {
    assert kinds[i..][0] == kinds[i] && kinds[i..][1..] == kinds[i + 1..];
  }

  lemma TargetVisitsCons(cfgs: seq<string>, j: nat, kind: string, later: seq<Location>)
    requires j < |cfgs|
    ensures TargetVisits(cfgs[j..], kind) + later
         == [Target(cfgs[j], kind)] + (TargetVisits(cfgs[j + 1..], kind) + later)
  {
    assert cfgs[j..][0] == cfgs[j] && cfgs[j..][1..] == cfgs[j + 1..];
  }

  // ---------------------------------------------------------------------------
  // The visiting order as the loop is written
  // ---------------------------------------------------------------------------

  /**
   * The kind loop exactly as written: when the root table of a kind is
   * missing (or not a table), the `continue` skips the cfg loop too, so that
   * kind's `target.<cfg>.<kind>` tables are never visited.
   */
  function WalkKindsAsWritten(doc: Table, kinds: seq<string>, cfgs: seq<string>): Outcome
    decreases |kinds|
  {
    if kinds == [] then Outcome(doc, false)
    else
      var visits := if GetDependencies(doc, kinds[0]).Some? then [Root(kinds[0])] + TargetVisits(cfgs, kinds[0]) else [];
      var first := Walk(doc, visits);
      var rest := WalkKindsAsWritten(first.document, kinds[1..], cfgs);
      Outcome(rest.document, first.converted || rest.converted)
  }

  /** Convert as the loop is written, with the `continue` that skips a kind without a root table. */
  function ConvertDocumentAsWritten(doc: Table): (r: Outcome)
    ensures ValidTable(doc) ==> ValidTable(r.document)
  {
    WalkKindsAsWrittenIsWalk(doc, DEPENDENCY_TABLE_KEYS, GetCfgs(doc));
    WalkValidIf(doc, AsWrittenVisits(doc, DEPENDENCY_TABLE_KEYS, GetCfgs(doc)));
    WalkKindsAsWritten(doc, DEPENDENCY_TABLE_KEYS, GetCfgs(doc))
  }

  lemma {:induction false} WalkAppend(doc: Table, a: seq<Location>, b: seq<Location>)
    ensures Walk(doc, a + b).document == Walk(Walk(doc, a).document, b).document
    ensures Walk(doc, a + b).converted == (Walk(doc, a).converted || Walk(Walk(doc, a).document, b).converted)
    decreases |a|
  {
    if a == [] {
      assert a + b == b;
    } else {
      assert (a + b)[0] == a[0] && (a + b)[1..] == a[1..] + b;
      WalkAppend(Step(doc, a[0]).document, a[1..], b);
    }
  }

  /** A dependency table that is present stays present through a walk. */
  lemma {:induction false} WalkKeepsPresence(doc: Table, visits: seq<Location>, loc: Location)
    requires WellAimed(visits) && IsDependencyLocation(loc) && Locate(doc, loc).Some?
    ensures Locate(Walk(doc, visits).document, loc).Some?
    decreases |visits|
  {
    if visits != [] {
      assert visits[0] in visits;
      if Locate(doc, visits[0]).Some? {
        UpdateLocate(doc, visits[0], ConvertedTable(Locate(doc, visits[0]).value), loc);
      }
      WalkKeepsPresence(Step(doc, visits[0]).document, visits[1..], loc);
    }
  }

  lemma {:induction false} WalkKindsAsWrittenAgrees(doc: Table, kinds: seq<string>, cfgs: seq<string>)
    requires forall k :: k in kinds ==> k in DEPENDENCY_TABLE_KEYS && GetDependencies(doc, k).Some?
    ensures WalkKindsAsWritten(doc, kinds, cfgs) == Walk(doc, KindVisits(kinds, cfgs))
    decreases |kinds|
  {
    if kinds != [] {
      var kind := kinds[0];
      assert kind in kinds;
      var visits := [Root(kind)] + TargetVisits(cfgs, kind);
      WalkAppend(doc, visits, KindVisits(kinds[1..], cfgs));
      var doc' := Walk(doc, visits).document;
      forall k | k in kinds[1..]
        ensures k in DEPENDENCY_TABLE_KEYS && GetDependencies(doc', k).Some?
      {
        assert k in kinds;
        WalkKeepsPresence(doc, visits, Root(k));
      }
      WalkKindsAsWrittenAgrees(doc', kinds[1..], cfgs);
    }
  }

  /**
   * The locations the loop as written visits, when the root tables present
   * are those of `doc`: a kind whose root table is missing contributes
   * nothing, not even its `target.<cfg>.<kind>` locations.
   */
  function AsWrittenVisits(doc: Table, kinds: seq<string>, cfgs: seq<string>): seq<Location> {
    if kinds == [] then []
    else
      (if GetDependencies(doc, kinds[0]).Some? then [Root(kinds[0])] + TargetVisits(cfgs, kinds[0]) else [])
      + AsWrittenVisits(doc, kinds[1..], cfgs)
  }

  lemma {:induction false} AsWrittenVisitsCount(doc: Table, kinds: seq<string>, cfgs: seq<string>, loc: Location)
    requires Distinct(kinds)
    ensures multiset(AsWrittenVisits(doc, kinds, cfgs))[loc]
         == if loc.kind !in kinds || GetDependencies(doc, loc.kind).None? then 0
            else if loc.Root? then 1 else multiset(cfgs)[loc.cfg]
  {
    if kinds != [] {
      var kind := kinds[0];
      var block := if GetDependencies(doc, kind).Some? then [Root(kind)] + TargetVisits(cfgs, kind) else [];
      var later := AsWrittenVisits(doc, kinds[1..], cfgs);
      DistinctCons(kinds);
      AsWrittenVisitsCount(doc, kinds[1..], cfgs, loc);
      KindBlockCount(kind, cfgs, loc);
      CountAppend(block, later, loc);
      assert AsWrittenVisits(doc, kinds, cfgs) == block + later;
      assert loc.kind in kinds <==> loc.kind == kind || loc.kind in kinds[1..] by {
        assert kinds == [kind] + kinds[1..];
      }
    }
  }

  /** A walk over dependency locations keeps which root dependency tables exist. */
  lemma WalkKeepsRoots(doc: Table, visits: seq<Location>, kind: string)
    requires WellAimed(visits) && kind in DEPENDENCY_TABLE_KEYS
    ensures GetDependencies(Walk(doc, visits).document, kind).Some? == GetDependencies(doc, kind).Some?
  {
    KindsDistinct();
    WalkKeepsRest(doc, visits);
  }

  lemma {:induction false} AsWrittenVisitsSameRoots(doc: Table, doc': Table, kinds: seq<string>, cfgs: seq<string>)
    requires forall k :: k in kinds ==> GetDependencies(doc', k).Some? == GetDependencies(doc, k).Some?
    ensures AsWrittenVisits(doc', kinds, cfgs) == AsWrittenVisits(doc, kinds, cfgs)
  {
    if kinds != [] {
      assert kinds[0] in kinds;
      forall k | k in kinds[1..] ensures GetDependencies(doc', k).Some? == GetDependencies(doc, k).Some? {
        assert k in kinds;
      }
      AsWrittenVisitsSameRoots(doc, doc', kinds[1..], cfgs);
    }
  }

  /** The kind loop as written is the walk over `AsWrittenVisits`, read off the document it starts from. */
  lemma {:induction false} WalkKindsAsWrittenIsWalk(doc: Table, kinds: seq<string>, cfgs: seq<string>)
    requires forall k :: k in kinds ==> k in DEPENDENCY_TABLE_KEYS
    ensures WalkKindsAsWritten(doc, kinds, cfgs) == Walk(doc, AsWrittenVisits(doc, kinds, cfgs))
    decreases |kinds|
  {
    if kinds != [] {
      var kind := kinds[0];
      assert kind in kinds;
      var visits := if GetDependencies(doc, kind).Some? then [Root(kind)] + TargetVisits(cfgs, kind) else [];
      assert WellAimed(visits);
      var doc' := Walk(doc, visits).document;
      forall k | k in kinds[1..]
        ensures k in DEPENDENCY_TABLE_KEYS && GetDependencies(doc', k).Some? == GetDependencies(doc, k).Some?
      {
        assert k in kinds;
        WalkKeepsRoots(doc, visits, k);
      }
      WalkKindsAsWrittenIsWalk(doc', kinds[1..], cfgs);
      AsWrittenVisitsSameRoots(doc, doc', kinds[1..], cfgs);
      WalkAppend(doc, visits, AsWrittenVisits(doc, kinds[1..], cfgs));
    }
  }

  lemma AsWrittenVisitsFacts(doc: Table, loc: Location)
    requires ValidTable(doc)
    ensures Distinct(AsWrittenVisits(doc, DEPENDENCY_TABLE_KEYS, GetCfgs(doc)))
    ensures WellAimed(AsWrittenVisits(doc, DEPENDENCY_TABLE_KEYS, GetCfgs(doc)))
    ensures loc in AsWrittenVisits(doc, DEPENDENCY_TABLE_KEYS, GetCfgs(doc))
        <==> IsDependencyLocation(loc) && GetDependencies(doc, loc.kind).Some? && (loc.Target? ==> loc.cfg in GetCfgs(doc))
  {
    var cfgs := GetCfgs(doc);
    var visits := AsWrittenVisits(doc, DEPENDENCY_TABLE_KEYS, cfgs);
    KindsDistinct();
    AsWrittenVisitsCount(doc, DEPENDENCY_TABLE_KEYS, cfgs, loc);
    forall l | l in visits ensures multiset(visits)[l] <= 1 && IsDependencyLocation(l) {
      AsWrittenVisitsCount(doc, DEPENDENCY_TABLE_KEYS, cfgs, l);
    }
  }

  /**
   * What the loop as written does to every dependency location: when the
   * root table of the location's kind exists, the location is converted
   * exactly once; otherwise it is left exactly as it was, a present
   * `target.<cfg>.<kind>` table included.
   */
  lemma AsWrittenCoverage(doc: Table, loc: Location)
    requires ValidTable(doc) && IsDependencyLocation(loc)
    ensures Locate(ConvertDocumentAsWritten(doc).document, loc)
         == if GetDependencies(doc, loc.kind).Some? then ConvertLocated(Locate(doc, loc)) else Locate(doc, loc)
  {
    var visits := AsWrittenVisits(doc, DEPENDENCY_TABLE_KEYS, GetCfgs(doc));
    KindsDistinct();
    WalkKindsAsWrittenIsWalk(doc, DEPENDENCY_TABLE_KEYS, GetCfgs(doc));
    AsWrittenVisitsFacts(doc, loc);
    WalkLocate(doc, visits, loc);
    if loc.Target? && Locate(doc, loc).Some? {
      TargetLocatedHasCfg(doc, loc);
    }
  }

  /**
   * The flag of the loop as written is true exactly when some dependency
   * table whose kind has a root table had an entry to expand.
   */
  lemma AsWrittenFlag(doc: Table)
    requires ValidTable(doc)
    ensures ConvertDocumentAsWritten(doc).converted <==>
      exists loc :: IsDependencyLocation(loc) && GetDependencies(doc, loc.kind).Some? && Rewrites(doc, loc)
  {
    var visits := AsWrittenVisits(doc, DEPENDENCY_TABLE_KEYS, GetCfgs(doc));
    KindsDistinct();
    WalkKindsAsWrittenIsWalk(doc, DEPENDENCY_TABLE_KEYS, GetCfgs(doc));
    AsWrittenVisitsFacts(doc, Root("dependencies"));
    WalkFlag(doc, visits);
    if exists loc :: IsDependencyLocation(loc) && GetDependencies(doc, loc.kind).Some? && Rewrites(doc, loc) {
      var loc :| IsDependencyLocation(loc) && GetDependencies(doc, loc.kind).Some? && Rewrites(doc, loc);
      AsWrittenVisitsFacts(doc, loc);
      if loc.Target? {
        TargetLocatedHasCfg(doc, loc);
      }
    }
    if Walk(doc, visits).converted {
      var loc :| loc in visits && Rewrites(doc, loc);
      AsWrittenVisitsFacts(doc, loc);
    }
  }

  /** When every root dependency table is present, the loop as written does visit everything. */
  lemma AsWrittenAgreesWhenRootsPresent(doc: Table)
    requires forall k :: k in DEPENDENCY_TABLE_KEYS ==> GetDependencies(doc, k).Some?
    ensures ConvertDocumentAsWritten(doc) == ConvertDocument(doc)
  {
    WalkKindsAsWrittenAgrees(doc, DEPENDENCY_TABLE_KEYS, GetCfgs(doc));
  }

  lemma AsWrittenWellAimed(doc: Table, cfgs: seq<string>)
    ensures WellAimed(AsWrittenVisits(doc, DEPENDENCY_TABLE_KEYS, cfgs))
  {
    KindsDistinct();
    forall loc | loc in AsWrittenVisits(doc, DEPENDENCY_TABLE_KEYS, cfgs) ensures IsDependencyLocation(loc) {
      AsWrittenVisitsCount(doc, DEPENDENCY_TABLE_KEYS, cfgs, loc);
    }
  }

  /** The loop as written, too, changes nothing outside the dependency tables and keeps the cfg list. */
  lemma AsWrittenKeepsRest(doc: Table)
    ensures SameOutsideDependencies(doc, ConvertDocumentAsWritten(doc).document)
    ensures GetCfgs(ConvertDocumentAsWritten(doc).document) == GetCfgs(doc)
  {
    var visits := AsWrittenVisits(doc, DEPENDENCY_TABLE_KEYS, GetCfgs(doc));
    WalkKindsAsWrittenIsWalk(doc, DEPENDENCY_TABLE_KEYS, GetCfgs(doc));
    AsWrittenWellAimed(doc, GetCfgs(doc));
    WalkKeepsRest(doc, visits);
  }

  /** Running the loop as written a second time changes nothing and reports no update. */
  lemma AsWrittenIdempotent(doc: Table)
    requires ValidTable(doc)
    ensures ConvertDocumentAsWritten(ConvertDocumentAsWritten(doc).document)
         == Outcome(ConvertDocumentAsWritten(doc).document, false)
  {
    var cfgs := GetCfgs(doc);
    var visits := AsWrittenVisits(doc, DEPENDENCY_TABLE_KEYS, cfgs);
    WalkKindsAsWrittenIsWalk(doc, DEPENDENCY_TABLE_KEYS, cfgs);
    AsWrittenWellAimed(doc, cfgs);
    var doc' := Walk(doc, visits).document;
    assert doc' == ConvertDocumentAsWritten(doc).document;
    WalkKeepsRest(doc, visits);
    forall k | k in DEPENDENCY_TABLE_KEYS
      ensures GetDependencies(doc', k).Some? == GetDependencies(doc, k).Some?
    {
      WalkKeepsRoots(doc, visits, k);
    }
    AsWrittenVisitsSameRoots(doc, doc', DEPENDENCY_TABLE_KEYS, cfgs);
    WalkKindsAsWrittenIsWalk(doc', DEPENDENCY_TABLE_KEYS, cfgs);
    forall loc | loc in visits && Locate(doc', loc).Some?
      ensures IsConverted(Locate(doc', loc).value)
    {
      AsWrittenVisitsFacts(doc, loc);
      AsWrittenCoverage(doc, loc);
      LocateValid(doc, loc);
      ConvertedTableShape(Locate(doc, loc).value);
    }
    WalkFixpoint(doc', visits);
  }

  /** `libc = "0.2"`, as a dependency table. */
  const UnixDependencies: Table := Table([("libc", ValueItem(String("0.2")))], false)

  /** A manifest whose only dependencies sit under `[target."cfg(unix)".dependencies]`. */
  const TargetOnlyManifest: Table :=
    Table([("target", TableItem(Table([("cfg(unix)", TableItem(Table([("dependencies", TableItem(UnixDependencies))], true)))], true)))], false)

  lemma TargetOnlyManifestValid()
    ensures ValidTable(TargetOnlyManifest)
  {
    var cfgTable := Table([("dependencies", TableItem(UnixDependencies))], true);
    var target := Table([("cfg(unix)", TableItem(cfgTable))], true);
    assert Keys(UnixDependencies.entries) == ["libc"];
    assert Keys(cfgTable.entries) == ["dependencies"];
    assert Keys(target.entries) == ["cfg(unix)"];
    assert Keys(TargetOnlyManifest.entries) == ["target"];
    assert ValidItem(UnixDependencies.entries[0].1);
    assert ValidTable(UnixDependencies);
    assert ValidTable(cfgTable);
    assert ValidTable(target);
  }

  /**
   * The discrepancy on a concrete manifest: as written, nothing is converted
   * and the flag stays false; the corrected conversion expands `libc` into a
   * full table and reports the update.
   */
  lemma AsWrittenSkipsTargetTables()
    ensures ConvertDocumentAsWritten(TargetOnlyManifest) == Outcome(TargetOnlyManifest, false)
    ensures ConvertDocument(TargetOnlyManifest).converted
    ensures Locate(ConvertDocument(TargetOnlyManifest).document, Target("cfg(unix)", "dependencies"))
         == Some(Table([("libc", TableItem(Table([("version", ValueItem(String("0.2")))], false)))], true))
  {
    var doc := TargetOnlyManifest;
    var kinds := DEPENDENCY_TABLE_KEYS;
    assert GetDependencies(doc, kinds[0]).None?;
    assert GetDependencies(doc, kinds[1]).None?;
    assert GetDependencies(doc, kinds[2]).None?;
    assert kinds[1..] == ["dev-dependencies", "build-dependencies"];
    assert kinds[1..][1..] == ["build-dependencies"];
    assert WalkKindsAsWritten(doc, kinds[1..][1..][1..], GetCfgs(doc)) == Outcome(doc, false);

    var loc := Target("cfg(unix)", "dependencies");
    assert Locate(doc, loc) == Some(UnixDependencies);
    var expanded := Table([("version", ValueItem(String("0.2")))], false);
    assert ExcludeTable(UnixDependencies) == [("libc", TableItem(expanded))];
    assert InsertAll(UnixDependencies, ExcludeTable(UnixDependencies)) == Table([("libc", TableItem(expanded))], false);
    assert SortByKey([("libc", TableItem(expanded))]) == [("libc", TableItem(expanded))];
    TargetOnlyManifestValid();
    ConvertCoverage(doc, loc);
    ConvertFlag(doc);
    assert IsDependencyLocation(loc) && Rewrites(doc, loc);
  }

  // ---------------------------------------------------------------------------
  // The manifest
  // ---------------------------------------------------------------------------

  datatype BuildError = ParseFailed(path: string, cause: string)

  class Manifest {
    var converted: bool
    var document: Table
    const path: string

    ghost predicate Valid()
      reads this
    {
      ValidTable(document)
    }

    constructor (path: string, document: Table)
      requires ValidTable(document)
      ensures Valid()
      ensures this.path == path && this.document == document && !converted
    {
      this.path := path;
      this.document := document;
      this.converted := false;
    }

    /**
     * Parses `text` into a manifest that has converted nothing yet; a parse
     * failure becomes an error naming the path.
     */
    static method Build(path: string, text: string, parse: string -> Result<Table, string>)
      returns (r: Result<Manifest, BuildError>)
      requires parse(text).Success? ==> ValidTable(parse(text).value)
      ensures parse(text).Failure? ==> r == Failure(ParseFailed(path, parse(text).error))
      ensures parse(text).Success? ==>
        && r.Success? && fresh(r.value) && r.value.Valid()
        && r.value.path == path && r.value.document == parse(text).value && !r.value.converted
    {
      var parsed := parse(text);
      if parsed.Failure? {
        return Failure(ParseFailed(path, parsed.error));
      }
      var manifest := new Manifest(path, parsed.value);
      return Success(manifest);
    }

    /**
     * Converts every dependency table of the document in place, kind by kind:
     * the root table of the kind, then the kind under each cfg of `target`.
     */
    method Convert()
      requires Valid()
      modifies this
      ensures Valid()
      ensures document == ConvertDocument(old(document)).document
      ensures converted == (old(converted) || ConvertDocument(old(document)).converted)
    {
      var targetCfgs := GetCfgs(document);
      ghost var goal := Outcome(ConvertDocument(document).document, converted || ConvertDocument(document).converted);
      assert DEPENDENCY_TABLE_KEYS[0..] == DEPENDENCY_TABLE_KEYS;
      var i := 0;
      while i < |DEPENDENCY_TABLE_KEYS|
        invariant 0 <= i <= |DEPENDENCY_TABLE_KEYS|
        invariant Resumes(document, converted, KindVisits(DEPENDENCY_TABLE_KEYS[i..], targetCfgs), goal)
      {
        var key := DEPENDENCY_TABLE_KEYS[i];
        ghost var later := KindVisits(DEPENDENCY_TABLE_KEYS[i + 1..], targetCfgs);
        KindVisitsCons(DEPENDENCY_TABLE_KEYS, i, targetCfgs);
        ResumesCons(document, converted, Root(key), TargetVisits(targetCfgs, key) + later, goal);
        var updated, changed := ConvertLocation(document, Root(key));
        document := updated;
        if changed {
          converted := true;
        }
        ghost var before := document;
        ConvertTargets(key, targetCfgs);
        WalkAppend(before, TargetVisits(targetCfgs, key), later);
        i := i + 1;
      }
      WalkValid(old(document), Visits(targetCfgs));
    }

    /**
     * The inner loop of convert: the dependency table `key` under each cfg, in
     * order. Its ensures give the whole new state as a walk, so a well-formed
     * document stays well-formed by `WalkValid`.
     */
    method ConvertTargets(key: string, targetCfgs: seq<string>)
      modifies this
      ensures document == Walk(old(document), TargetVisits(targetCfgs, key)).document
      ensures converted == (old(converted) || Walk(old(document), TargetVisits(targetCfgs, key)).converted)
    {
      ghost var visits := TargetVisits(targetCfgs, key);
      ghost var goal := Outcome(Walk(document, visits).document, converted || Walk(document, visits).converted);
      assert targetCfgs[0..] == targetCfgs && visits + [] == visits;
      var j := 0;
      while j < |targetCfgs|
        invariant 0 <= j <= |targetCfgs|
        invariant Resumes(document, converted, TargetVisits(targetCfgs[j..], key) + [], goal)
      {
        var cfg := targetCfgs[j];
        TargetVisitsCons(targetCfgs, j, key, []);
        ResumesCons(document, converted, Target(cfg, key), TargetVisits(targetCfgs[j + 1..], key) + [], goal);
        var updated, changed := ConvertLocation(document, Target(cfg, key));
        document := updated;
        if changed {
          converted := true;
        }
        j := j + 1;
      }
      assert TargetVisits(targetCfgs[j..], key) + [] == [];
    }
  }
}
