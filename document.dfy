/**
 * The editable manifest document: a tree of tables, the capabilities the
 * converter uses on a table (insert, sort, implicit flag), the locators that
 * find dependency tables, and the computation of the replacements for one
 * dependency table.
 */
module Document {
  import opened Wrappers
  import opened Sequences
  import opened KeyOrder

  /** A value as the converter sees it: only strings and inline tables matter. */
  datatype Value =
    | String(str: string)
    | InlineTable(pairs: seq<(string, Value)>)
    | OtherValue(raw: string)   // integer, float, boolean, date-time, array

  /** What a key of a table holds. */
  datatype Item =
    | TableItem(table: Table)
    | ValueItem(value: Value)
    | ArrayOfTables(tables: seq<Table>)

  /** A full table: its entries in table order, and whether its header is left implicit. */
  datatype Table = Table(entries: seq<(string, Item)>, implicit: bool)

  type Entries = seq<(string, Item)>

  function Keys<V>(s: seq<(string, V)>): (ks: seq<string>)
    ensures |ks| == |s|
    ensures forall i :: 0 <= i < |s| ==> ks[i] == s[i].0
  {
    if s == [] then [] else [s[0].0] + Keys(s[1..])
  }

  lemma KeysCons<V>(a: (string, V), b: seq<(string, V)>)
    ensures Keys([a] + b) == [a.0] + Keys(b)
  {
    assert ([a] + b)[1..] == b;
  }

  ghost predicate UniqueKeys<V>(s: seq<(string, V)>) {
    Distinct(Keys(s))
  }

  /** A well-formed document: no table or inline table holds a key twice. */
  ghost predicate ValidTable(t: Table)
    decreases t, 2
  {
    && UniqueKeys(t.entries)
    && forall e | e in t.entries :: ValidItem(e.1)
  }

  ghost predicate ValidItem(item: Item)
    decreases item, 1
  {
    match item
    case TableItem(t) => ValidTable(t)
    case ValueItem(v) => ValidValue(v)
    case ArrayOfTables(ts) => forall t | t in ts :: ValidTable(t)
  }

  ghost predicate ValidValue(v: Value)
    decreases v, 0
  {
    match v
    case InlineTable(pairs) =>
      && UniqueKeys(pairs)
      && forall p | p in pairs :: ValidValue(p.1)
    case _ => true
  }

  /** The item at `key`, if the table holds that key. */
  function Lookup(s: Entries, key: string): (r: Option<Item>)
    ensures r.Some? <==> key in Keys(s)
    ensures r.Some? ==> (key, r.value) in s
  {
    if s == [] then None
    else if s[0].0 == key then Some(s[0].1)
    else Lookup(s[1..], key)
  }

  lemma KeysMember<V>(s: seq<(string, V)>, e: (string, V))
    ensures e in s ==> e.0 in Keys(s)
  {
    if e in s {
      var i :| 0 <= i < |s| && s[i] == e;
      assert Keys(s)[i] == e.0;
    }
  }

  lemma {:induction false} LookupUnique(s: Entries, key: string, item: Item)
    requires UniqueKeys(s)
    ensures Lookup(s, key) == Some(item) <==> (key, item) in s
  {
    if s != [] {
      DistinctCons(Keys(s));
      if s[0].0 != key {
        LookupUnique(s[1..], key, item);
        assert s == [s[0]] + s[1..];
      } else {
        KeysMember(s[1..], (key, item));
        assert s == [s[0]] + s[1..];
      }
    }
  }

  // ---------------------------------------------------------------------------
  // The table capability: insert, sort_values, set_implicit
  // ---------------------------------------------------------------------------

  function Put(s: Entries, key: string, item: Item): (r: Entries)
    ensures Lookup(r, key) == Some(item)
    ensures forall k :: k != key ==> Lookup(r, k) == Lookup(s, k)
    ensures forall e :: e in r ==> e == (key, item) || e in s
    ensures Lookup(s, key) == Some(item) ==> r == s
  {
    if s == [] then [(key, item)]
    else if s[0].0 == key then [(key, item)] + s[1..]
    else [s[0]] + Put(s[1..], key, item)
  }

  lemma {:induction false} PutKeys(s: Entries, key: string, item: Item)
    ensures Keys(Put(s, key, item)) == if key in Keys(s) then Keys(s) else Keys(s) + [key]
  {
    if s != [] && s[0].0 != key {
      PutKeys(s[1..], key, item);
      assert Keys(Put(s, key, item)) == [s[0].0] + Keys(Put(s[1..], key, item));
    }
  }

  /**
   * Sets `key` to `item`: an existing key keeps its place and gets the new
   * item, a new key is appended.
   */
  function Insert(t: Table, key: string, item: Item): (r: Table)
    ensures r.implicit == t.implicit
    ensures key in Keys(t.entries) ==> Keys(r.entries) == Keys(t.entries)
    ensures key !in Keys(t.entries) ==> Keys(r.entries) == Keys(t.entries) + [key]
    ensures Lookup(r.entries, key) == Some(item)
    ensures forall k :: k != key ==> Lookup(r.entries, k) == Lookup(t.entries, k)
    ensures Lookup(t.entries, key) == Some(item) ==> r == t
  {
    PutKeys(t.entries, key, item);
    Table(Put(t.entries, key, item), t.implicit)
  }

  lemma InsertValid(t: Table, key: string, item: Item)
    requires ValidTable(t) && key in Keys(t.entries) && ValidItem(item)
    ensures ValidTable(Insert(t, key, item))
  {
  }

  function InsertByKey(e: (string, Item), s: Entries): Entries {
    if s == [] then [e]
    else if Leq(e.0, s[0].0) then [e] + s
    else [s[0]] + InsertByKey(e, s[1..])
  }

  function SortByKey(s: Entries): Entries {
    if s == [] then [] else InsertByKey(s[0], SortByKey(s[1..]))
  }

  ghost predicate SortedByKey(s: Entries) {
    forall i, j :: 0 <= i < j < |s| ==> Leq(s[i].0, s[j].0)
  }

  lemma {:induction false} InsertByKeyPermutes(e: (string, Item), s: Entries)
    ensures multiset(InsertByKey(e, s)) == multiset(s) + multiset{e}
  {
    if s != [] && !Leq(e.0, s[0].0) {
      InsertByKeyPermutes(e, s[1..]);
      assert s == [s[0]] + s[1..];
    }
  }

  lemma {:induction false} InsertByKeyPermutesKeys(e: (string, Item), s: Entries)
    ensures multiset(Keys(InsertByKey(e, s))) == multiset(Keys(s)) + multiset{e.0}
  {
    if s == [] {
      assert Keys([e]) == [e.0];
    } else if Leq(e.0, s[0].0) {
      KeysCons(e, s);
    } else {
      var rest := InsertByKey(e, s[1..]);
      InsertByKeyPermutesKeys(e, s[1..]);
      KeysCons(s[0], rest);
      KeysCons(s[0], s[1..]);
      assert s == [s[0]] + s[1..];
      calc {
        multiset(Keys(InsertByKey(e, s)));
        multiset([s[0].0] + Keys(rest));
        multiset{s[0].0} + multiset(Keys(rest));
        multiset{s[0].0} + multiset(Keys(s[1..])) + multiset{e.0};
        multiset([s[0].0] + Keys(s[1..])) + multiset{e.0};
      }
    }
  }

  lemma {:induction false} InsertByKeySorted(e: (string, Item), s: Entries)
    requires SortedByKey(s)
    ensures SortedByKey(InsertByKey(e, s))
  {
    if s == [] {
    } else if Leq(e.0, s[0].0) {
      forall j | 0 < j < |s| ensures Leq(e.0, s[j].0) {
        LeqTransitive(e.0, s[0].0, s[j].0);
      }
    } else {
      var rest := InsertByKey(e, s[1..]);
      InsertByKeySorted(e, s[1..]);
      InsertByKeyPermutes(e, s[1..]);
      LeqTotal(e.0, s[0].0);
      forall j | 0 <= j < |rest| ensures Leq(s[0].0, rest[j].0) {
        assert rest[j] in multiset(rest);
        if rest[j] != e {
          assert rest[j] in multiset(s[1..]);
          var k :| 0 <= k < |s[1..]| && s[1..][k] == rest[j];
          assert s[k + 1] == rest[j];
        }
      }
      assert s == [s[0]] + s[1..];
    }
  }

  lemma {:induction false} SortByKeySorted(s: Entries)
    ensures SortedByKey(SortByKey(s))
  {
    if s != [] {
      SortByKeySorted(s[1..]);
      InsertByKeySorted(s[0], SortByKey(s[1..]));
    }
  }

  lemma {:induction false} SortByKeyPermutes(s: Entries)
    ensures multiset(SortByKey(s)) == multiset(s)
  {
    if s != [] {
      SortByKeyPermutes(s[1..]);
      InsertByKeyPermutes(s[0], SortByKey(s[1..]));
      assert s == [s[0]] + s[1..];
    }
  }

  lemma {:induction false} SortByKeyPermutesKeys(s: Entries)
    ensures multiset(Keys(SortByKey(s))) == multiset(Keys(s))
  {
    if s != [] {
      var sorted := SortByKey(s[1..]);
      assert SortByKey(s) == InsertByKey(s[0], sorted);
      assert Keys(s) == [s[0].0] + Keys(s[1..]);
      SortByKeyPermutesKeys(s[1..]);
      InsertByKeyPermutesKeys(s[0], sorted);
      calc {
        multiset(Keys(SortByKey(s)));
        multiset(Keys(sorted)) + multiset{s[0].0};
        multiset(Keys(s[1..])) + multiset{s[0].0};
        multiset([s[0].0] + Keys(s[1..]));
      }
    }
  }

  lemma {:induction false} SortByKeyOfSorted(s: Entries)
    ensures SortedByKey(s) ==> SortByKey(s) == s
  {
    if s != [] && SortedByKey(s) {
      SortByKeyOfSorted(s[1..]);
    }
  }

  /** Reorders the entries into ascending key order. */
  function SortValues(t: Table): (r: Table)
    ensures r.implicit == t.implicit
    ensures SortedByKey(r.entries)
    ensures multiset(r.entries) == multiset(t.entries)
    ensures multiset(Keys(r.entries)) == multiset(Keys(t.entries))
    ensures SortedByKey(t.entries) ==> r == t
  {
    SortByKeySorted(t.entries);
    SortByKeyPermutes(t.entries);
    SortByKeyPermutesKeys(t.entries);
    SortByKeyOfSorted(t.entries);
    Table(SortByKey(t.entries), t.implicit)
  }

  /** Sorting keeps every key's item: a lookup gives the same answer before and after. */
  lemma SortValuesLookup(t: Table, key: string)
    requires UniqueKeys(t.entries)
    ensures UniqueKeys(SortValues(t).entries)
    ensures Lookup(SortValues(t).entries, key) == Lookup(t.entries, key)
  {
    var r := SortValues(t);
    assert forall k :: k in Keys(r.entries) <==> k in Keys(t.entries) by {
      forall k ensures k in Keys(r.entries) <==> k in Keys(t.entries) {
        assert k in Keys(r.entries) <==> k in multiset(Keys(r.entries));
        assert k in Keys(t.entries) <==> k in multiset(Keys(t.entries));
      }
    }
    var found := Lookup(r.entries, key);
    if found.Some? {
      LookupUnique(r.entries, key, found.value);
      assert (key, found.value) in multiset(r.entries);
      LookupUnique(t.entries, key, found.value);
    }
  }

  function SetImplicit(t: Table, implicit: bool): (r: Table)
    ensures r.entries == t.entries && r.implicit == implicit
  {
    t.(implicit := implicit)
  }

  // ---------------------------------------------------------------------------
  // Locators
  // ---------------------------------------------------------------------------

  /** The full table held at `key`; a missing key or any other item is no table. */
  function Subtable(t: Table, key: string): (r: Option<Table>)
    ensures r.Some? <==> Lookup(t.entries, key).Some? && Lookup(t.entries, key).value.TableItem?
    ensures r.Some? ==> Lookup(t.entries, key) == Some(TableItem(r.value))
  {
    match Lookup(t.entries, key)
    case Some(TableItem(sub)) => Some(sub)
    case _ => None
  }

  /** Replaces the table held at `key`. */
  function SetSubtable(t: Table, key: string, sub: Table): (r: Table)
    requires Subtable(t, key).Some?
    ensures Keys(r.entries) == Keys(t.entries) && r.implicit == t.implicit
    ensures Subtable(r, key) == Some(sub)
    ensures forall k :: k != key ==> Lookup(r.entries, k) == Lookup(t.entries, k)
    ensures Subtable(t, key) == Some(sub) ==> r == t
  {
    Insert(t, key, TableItem(sub))
  }

  lemma SubtableValid(t: Table, key: string)
    ensures ValidTable(t) && Subtable(t, key).Some? ==> ValidTable(Subtable(t, key).value)
  {
    if Subtable(t, key).Some? {
      var e := (key, TableItem(Subtable(t, key).value));
      assert e in t.entries;
      if ValidTable(t) {
        assert ValidItem(e.1);
      }
    }
  }

  /** The keys of the root `target` table, in table order; none when it is absent or not a table. */
  function GetCfgs(doc: Table): (cfgs: seq<string>)
    ensures Subtable(doc, "target").None? ==> cfgs == []
    ensures Subtable(doc, "target").Some? ==> cfgs == Keys(Subtable(doc, "target").value.entries)
    ensures ValidTable(doc) ==> Distinct(cfgs)
  {
    match Subtable(doc, "target")
    case None => []
    case Some(target) => SubtableValid(doc, "target"); Keys(target.entries)
  }

  /** The dependency table `key` at the root, when that item is a full table. */
  function GetDependencies(doc: Table, key: string): (r: Option<Table>)
    ensures r.Some? <==> Lookup(doc.entries, key).Some? && Lookup(doc.entries, key).value.TableItem?
    ensures r.Some? ==> Lookup(doc.entries, key) == Some(TableItem(r.value))
  {
    Subtable(doc, key)
  }

  /**
   * The dependency table `target.<k1>.<k2>`, when `target`, `target.<k1>` and
   * `target.<k1>.<k2>` are all full tables. (A lookup through an inline table
   * only ever yields values, never a full table, so those paths give none.)
   */
  function GetTargetDependencies(doc: Table, k1: string, k2: string): (r: Option<Table>)
    ensures r.Some? <==>
      && Subtable(doc, "target").Some?
      && Subtable(Subtable(doc, "target").value, k1).Some?
      && Subtable(Subtable(Subtable(doc, "target").value, k1).value, k2).Some?
    ensures r.Some? ==> Lookup(Subtable(Subtable(doc, "target").value, k1).value.entries, k2) == Some(TableItem(r.value))
  {
    match Subtable(doc, "target")
    case None => None
    case Some(target) =>
      match Subtable(target, k1)
      case None => None
      case Some(cfg) => Subtable(cfg, k2)
  }

  /** Writes back the table handed out by GetDependencies. */
  function SetDependencies(doc: Table, key: string, deps: Table): (r: Table)
    requires GetDependencies(doc, key).Some?
    ensures GetDependencies(r, key) == Some(deps)
  {
    SetSubtable(doc, key, deps)
  }

  /** Writes back the table handed out by GetTargetDependencies. */
  function SetTargetDependencies(doc: Table, k1: string, k2: string, deps: Table): (r: Table)
    requires GetTargetDependencies(doc, k1, k2).Some?
    ensures GetTargetDependencies(r, k1, k2) == Some(deps)
  {
    var target := Subtable(doc, "target").value;
    var cfg := Subtable(target, k1).value;
    SetSubtable(doc, "target", SetSubtable(target, k1, SetSubtable(cfg, k2, deps)))
  }

  // ---------------------------------------------------------------------------
  // The replacements for one dependency table
  // ---------------------------------------------------------------------------

  /** A dependency written as a bare string or an inline table. */
  predicate IsExpandable(item: Item) {
    item.ValueItem? && (item.value.String? || item.value.InlineTable?)
  }

  function Promote(pairs: seq<(string, Value)>): (r: Entries)
    ensures Keys(r) == Keys(pairs)
    ensures forall i :: 0 <= i < |pairs| ==> r[i].1 == ValueItem(pairs[i].1)
  {
    if pairs == [] then [] else [(pairs[0].0, ValueItem(pairs[0].1))] + Promote(pairs[1..])
  }

  /**
   * The full table that replaces an entry: `"X"` becomes a table with the one
   * key `version` holding `"X"`; an inline table becomes a full table with the
   * same pairs in the same order. Any other item has no replacement.
   */
  function Expand(item: Item): (r: Option<Item>)
    ensures r.Some? <==> IsExpandable(item)
    ensures r.Some? ==> r.value.TableItem? && !r.value.table.implicit
    ensures item.ValueItem? && item.value.String? ==>
      && r.Some?
      && Keys(r.value.table.entries) == ["version"]
      && Lookup(r.value.table.entries, "version") == Some(ValueItem(String(item.value.str)))
    ensures item.ValueItem? && item.value.InlineTable? ==>
      && r.Some?
      && Keys(r.value.table.entries) == Keys(item.value.pairs)
      && forall i :: 0 <= i < |item.value.pairs| ==>
           r.value.table.entries[i].1 == ValueItem(item.value.pairs[i].1)
  {
    match item
    case ValueItem(String(version)) =>
      Some(TableItem(Table([("version", ValueItem(String(version)))], false)))
    case ValueItem(InlineTable(pairs)) =>
      Some(TableItem(Table(Promote(pairs), false)))
    case _ => None
  }

  lemma ExpandValid(item: Item)
    requires ValidItem(item) && IsExpandable(item)
    ensures ValidItem(Expand(item).value)
  {
    if item.value.String? {
      var version := Expand(item).value.table;
      assert Keys(version.entries) == ["version"];
      assert multiset(Keys(version.entries))["version"] == 1;
    } else {
      var pairs := item.value.pairs;
      var entries := Promote(pairs);
      forall e | e in entries ensures ValidItem(e.1) {
        var i :| 0 <= i < |entries| && entries[i] == e;
        assert pairs[i] in pairs;
      }
    }
  }

  /** The item an entry holds after conversion. */
  function Rewritten(item: Item): (r: Item)
    ensures !IsExpandable(r)
    ensures IsExpandable(item) ==> Some(r) == Expand(item)
    ensures !IsExpandable(item) ==> r == item
  {
    match Expand(item)
    case Some(table) => table
    case None => item
  }

  function Exclude(s: Entries): (r: Entries)
    ensures Subsequence(Keys(r), Keys(s))
  {
    if s == [] then []
    else
      match Expand(s[0].1)
      case Some(table) =>
        KeysCons(s[0], s[1..]);
        KeysCons((s[0].0, table), Exclude(s[1..]));
        assert s == [s[0]] + s[1..];
        [(s[0].0, table)] + Exclude(s[1..])
      case None =>
        KeysCons(s[0], s[1..]);
        SubsequencePrepend(Keys(Exclude(s[1..])), Keys(s[1..]), s[0].0);
        Exclude(s[1..])
  }

  lemma {:induction false} ExcludeSound(s: Entries, p: (string, Item))
    requires p in Exclude(s)
    ensures exists e :: e in s && e.0 == p.0 && Expand(e.1) == Some(p.1)
  {
    assert s != [];
    if Expand(s[0].1).Some? && p == (s[0].0, Expand(s[0].1).value) {
      assert s[0] in s;
    } else {
      ExcludeSound(s[1..], p);
      var e :| e in s[1..] && e.0 == p.0 && Expand(e.1) == Some(p.1);
      assert e in s;
    }
  }

  lemma {:induction false} ExcludeComplete(s: Entries, e: (string, Item))
    requires e in s && IsExpandable(e.1)
    ensures (e.0, Expand(e.1).value) in Exclude(s)
  {
    if s[0] != e {
      assert s == [s[0]] + s[1..];
      ExcludeComplete(s[1..], e);
    }
  }

  /**
   * The replacements for a dependency table, in table order: one pair for
   * each entry that is a bare string or an inline table, and none for any
   * other entry.
   */
  function ExcludeTable(t: Table): (r: Entries)
    ensures Subsequence(Keys(r), Keys(t.entries))
  {
    Exclude(t.entries)
  }

  /**
   * Soundness and completeness of the replacements: each one expands an
   * entry of the table, every expandable entry has one, and there are none
   * exactly when no entry is expandable.
   */
  lemma ExcludeTableSpec(t: Table)
    ensures forall p :: p in ExcludeTable(t) ==>
      exists e :: e in t.entries && e.0 == p.0 && Expand(e.1) == Some(p.1)
    ensures forall e :: e in t.entries && IsExpandable(e.1) ==> (e.0, Expand(e.1).value) in ExcludeTable(t)
    ensures ExcludeTable(t) == [] <==> forall e :: e in t.entries ==> !IsExpandable(e.1)
  {
    var r := ExcludeTable(t);
    assert forall p | p in r :: exists e :: e in t.entries && e.0 == p.0 && Expand(e.1) == Some(p.1) by {
      forall p | p in r ensures exists e :: e in t.entries && e.0 == p.0 && Expand(e.1) == Some(p.1) {
        ExcludeSound(t.entries, p);
      }
    }
    assert forall e | e in t.entries && IsExpandable(e.1) :: (e.0, Expand(e.1).value) in r by {
      forall e | e in t.entries && IsExpandable(e.1) ensures (e.0, Expand(e.1).value) in r {
        ExcludeComplete(t.entries, e);
      }
    }
  }

  lemma ExcludeTableItem(t: Table, p: (string, Item))
    requires UniqueKeys(t.entries) && p in ExcludeTable(t)
    ensures Lookup(t.entries, p.0).Some? && Expand(Lookup(t.entries, p.0).value) == Some(p.1)
  {
    ExcludeTableSpec(t);
    var e :| e in t.entries && e.0 == p.0 && Expand(e.1) == Some(p.1);
    LookupUnique(t.entries, e.0, e.1);
  }

  lemma ExcludeTableNamesExpandable(t: Table, e: (string, Item))
    requires UniqueKeys(t.entries) && e in t.entries
    ensures e.0 in Keys(ExcludeTable(t)) <==> IsExpandable(e.1)
  {
    var r := ExcludeTable(t);
    if e.0 in Keys(r) {
      var i :| 0 <= i < |r| && Keys(r)[i] == e.0;
      ExcludeTableItem(t, r[i]);
      LookupUnique(t.entries, e.0, e.1);
    }
    if IsExpandable(e.1) {
      ExcludeTableSpec(t);
      KeysMember(r, (e.0, Expand(e.1).value));
    }
  }

  /**
   * With the keys of a well-formed table, the replacements name exactly the
   * expandable entries, never a key twice, and each one carries the expansion
   * of the item that key holds.
   */
  lemma ExcludeTableExact(t: Table)
    requires UniqueKeys(t.entries)
    ensures forall e :: e in t.entries ==> (e.0 in Keys(ExcludeTable(t)) <==> IsExpandable(e.1))
    ensures UniqueKeys(ExcludeTable(t))
    ensures forall p :: p in ExcludeTable(t) ==>
      Lookup(t.entries, p.0).Some? && Expand(Lookup(t.entries, p.0).value) == Some(p.1)
  {
    DistinctSubsequence(Keys(ExcludeTable(t)), Keys(t.entries));
    forall p | p in ExcludeTable(t)
      ensures Lookup(t.entries, p.0).Some? && Expand(Lookup(t.entries, p.0).value) == Some(p.1)
    {
      ExcludeTableItem(t, p);
    }
    forall e | e in t.entries
      ensures e.0 in Keys(ExcludeTable(t)) <==> IsExpandable(e.1)
    {
      ExcludeTableNamesExpandable(t, e);
    }
  }
}
