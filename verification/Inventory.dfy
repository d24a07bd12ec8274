// Asset records, the patch between two inventories, and what a patch means to a reader
// that keeps a map of stable records (src/model.rs, StateStore::diff in src/storage.rs).

module Inventory {
  import opened Wrappers
  import opened Text

  datatype Json =
    | Null
    | Bool(b: bool)
    | Number(n: int)
    | Str(s: string)
    | Array(items: seq<Json>)
    | Object(fields: map<string, Json>)

  datatype AssetRecord = AssetRecord(
    assetId: string, category: string, source: string, collectedAt: nat, payload: Json)

  /** A record without its collection time: all that comparison and hashing look at. */
  datatype StableRecord = StableRecord(assetId: string, category: string, source: string, payload: Json)

  datatype ChangeKind = Added | Updated | Removed

  datatype AssetChange = AssetChange(
    kind: ChangeKind, assetId: string, category: string, record: Option<AssetRecord>)

  type View = map<string, StableRecord>

  function Stable(r: AssetRecord): StableRecord {
    StableRecord(r.assetId, r.category, r.source, r.payload)
  }

  predicate SameAsset(left: AssetRecord, right: AssetRecord) {
    && left.assetId == right.assetId
    && left.category == right.category
    && left.source == right.source
    && left.payload == right.payload
  }

  // ----- records by identifier -----

  /** Records by identifier; a later record wins over an earlier one with the same identifier. */
  function Index(records: seq<AssetRecord>): (m: map<string, AssetRecord>)
    ensures Keyed(m)
  {
    if records == [] then map[] else
      var last := records[|records| - 1];
      Index(records[..|records| - 1])[last.assetId := last]
  }

  ghost predicate Keyed(m: map<string, AssetRecord>) {
    forall k :: k in m ==> m[k].assetId == k
  }

  ghost function ViewOf(m: map<string, AssetRecord>): View {
    map k | k in m :: Stable(m[k])
  }

  ghost function ViewOfRecords(records: seq<AssetRecord>): View {
    ViewOf(Index(records))
  }

  ghost predicate AllIn(names: seq<string>, m: map<string, AssetRecord>) {
    forall i :: 0 <= i < |names| ==> names[i] in m
  }

  ghost function ValuesAt(m: map<string, AssetRecord>, names: seq<string>): (records: seq<AssetRecord>)
    requires AllIn(names, m)
    ensures |records| == |names|
    ensures forall i :: 0 <= i < |records| ==> records[i] == m[names[i]]
  {
    seq(|names|, i requires 0 <= i < |names| => m[names[i]])
  }

  lemma SortedNamesIn(m: map<string, AssetRecord>)
    ensures AllIn(SortedNames(m.Keys), m)
  {
    var names := SortedNames(m.Keys);
    SortedNamesLists(m.Keys);
    forall i | 0 <= i < |names| ensures names[i] in m {
      assert names[i] in names;
    }
  }

  /** The values of a map in key order, as a BTreeMap hands them out. */
  ghost function Listing(m: map<string, AssetRecord>): (records: seq<AssetRecord>) {
    SortedNamesIn(m);
    ValuesAt(m, SortedNames(m.Keys))
  }

  ghost function Names(records: seq<AssetRecord>): (names: seq<string>)
    ensures |names| == |records| && forall i :: 0 <= i < |names| ==> names[i] == records[i].assetId
  {
    seq(|records|, i requires 0 <= i < |records| => records[i].assetId)
  }

  /** Sorted by identifier with no identifier twice. */
  ghost predicate SortedUnique(records: seq<AssetRecord>) {
    Ascending(Names(records))
  }

  method IndexRecords(records: seq<AssetRecord>) returns (m: map<string, AssetRecord>)
    ensures m == Index(records)
  {
    m := map[];
    for i := 0 to |records|
      invariant m == Index(records[..i])
    {
      assert records[..i + 1][..i] == records[..i];
      m := m[records[i].assetId := records[i]];
    }
    assert records[..|records|] == records;
  }

  lemma {:induction false} IndexHas(records: seq<AssetRecord>, i: nat)
    requires i < |records|
    ensures records[i].assetId in Index(records)
  {
    if i < |records| - 1 {
      IndexHas(records[..|records| - 1], i);
    }
  }

  lemma {:induction false} IndexSource(records: seq<AssetRecord>, k: string) returns (i: nat)
    requires k in Index(records)
    ensures i < |records| && records[i] == Index(records)[k]
  {
    i := |records| - 1;
    if records[i].assetId != k {
      i := IndexSource(records[..i], k);
    }
  }

  lemma {:induction false} IndexConcat(a: seq<AssetRecord>, b: seq<AssetRecord>)
    ensures Index(a + b) == Index(a) + Index(b)
  {
    if b == [] {
      assert a + b == a;
    } else {
      assert (a + b)[..|a + b| - 1] == a + b[..|b| - 1];
      IndexConcat(a, b[..|b| - 1]);
    }
  }

  lemma {:induction false} IndexDistinct(records: seq<AssetRecord>, i: nat)
    requires i < |records|
    requires forall j :: i < j < |records| ==> records[j].assetId != records[i].assetId
    ensures records[i].assetId in Index(records)
    ensures Index(records)[records[i].assetId] == records[i]
  {
    if i < |records| - 1 {
      IndexDistinct(records[..|records| - 1], i);
    }
  }

  lemma IndexListing(m: map<string, AssetRecord>)
    requires Keyed(m)
    ensures Index(Listing(m)) == m && SortedUnique(Listing(m))
  {
    var names := SortedNames(m.Keys);
    SortedNamesIn(m);
    SortedNamesLists(m.Keys);
    var records := Listing(m);
    assert forall i :: 0 <= i < |names| ==> records[i].assetId == names[i];
    assert Names(records) == names;
    IndexOfValues(m, names);
  }

  lemma IndexOfValues(m: map<string, AssetRecord>, names: seq<string>)
    requires Keyed(m) && Lists(names, m.Keys) && AllIn(names, m)
    ensures Index(ValuesAt(m, names)) == m
  {
    var records := ValuesAt(m, names);
    AscendingDistinct(names);
    forall k | k in m.Keys ensures k in Index(records) && Index(records)[k] == m[k] {
      assert k in names;
      var i :| 0 <= i < |names| && names[i] == k;
      assert forall j :: i < j < |records| ==> records[j].assetId != records[i].assetId;
      IndexDistinct(records, i);
    }
    forall k | k in Index(records) ensures k in m {
      var i := IndexSource(records, k);
      assert names[i] == k;
    }
  }

  lemma NameAt(records: seq<AssetRecord>, i: nat)
    requires SortedUnique(records) && i < |records|
    ensures records[i].assetId in Index(records) && Index(records)[records[i].assetId] == records[i]
  {
    AscendingDistinct(Names(records));
    forall j | i < j < |records| ensures records[j].assetId != records[i].assetId {
      assert Names(records)[i] != Names(records)[j];
    }
    IndexDistinct(records, i);
  }

  lemma NamesListKeys(records: seq<AssetRecord>)
    requires SortedUnique(records)
    ensures Lists(Names(records), Index(records).Keys)
  {
    var names, keys := Names(records), Index(records).Keys;
    forall k | k in names ensures k in keys {
      var i :| 0 <= i < |names| && names[i] == k;
      NameAt(records, i);
    }
    forall k | k in keys ensures k in names {
      var i := IndexSource(records, k);
      assert names[i] == k;
    }
  }

  // ----- the inventory a cycle leaves behind -----

  ghost function Effective(previous: seq<AssetRecord>, current: seq<AssetRecord>, allowRemovals: bool)
    : seq<AssetRecord>
  {
    if allowRemovals then current else Listing(Index(previous) + Index(current))
  }

  method EffectiveInventory(previous: seq<AssetRecord>, current: seq<AssetRecord>, allowRemovals: bool)
    returns (records: seq<AssetRecord>)
    ensures records == Effective(previous, current, allowRemovals)
  {
    if allowRemovals {
      return current;
    }
    var merged := IndexRecords(previous);
    merged := Merge(merged, current);
    records := ListRecords(merged);
  }

  /** Enters the observed records over those that were there. */
  method Merge(base: map<string, AssetRecord>, current: seq<AssetRecord>) returns (merged: map<string, AssetRecord>)
    ensures merged == base + Index(current)
  {
    merged := base;
    for i := 0 to |current|
      invariant merged == base + Index(current[..i])
    {
      assert current[..i + 1][..i] == current[..i];
      merged := merged[current[i].assetId := current[i]];
    }
    assert current[..|current|] == current;
  }

  method ListRecords(m: map<string, AssetRecord>) returns (records: seq<AssetRecord>)
    ensures records == Listing(m)
  {
    var names := SortNames(m.Keys);
    SortedNamesIn(m);
    records := [];
    for i := 0 to |names|
      invariant records == Listing(m)[..i]
    {
      records := records + [m[names[i]]];
    }
  }

  lemma EffectiveView(previous: seq<AssetRecord>, current: seq<AssetRecord>, allowRemovals: bool)
    ensures Index(Effective(previous, current, allowRemovals))
         == if allowRemovals then Index(current) else Index(previous) + Index(current)
  {
    if !allowRemovals {
      IndexListing(Index(previous) + Index(current));
    }
  }

  // ----- the patch -----

  ghost predicate NeedsUpsert(p: map<string, AssetRecord>, c: map<string, AssetRecord>, k: string) {
    k in c && (k !in p || !SameAsset(p[k], c[k]))
  }

  ghost function Upserted(p: map<string, AssetRecord>, c: map<string, AssetRecord>): (keys: set<string>)
    ensures forall k :: k in keys <==> NeedsUpsert(p, c, k)
  {
    set k | k in c && NeedsUpsert(p, c, k)
  }

  /** The identifiers a cycle has to report. */
  ghost function ChangedKeys(p: map<string, AssetRecord>, c: map<string, AssetRecord>, allowRemovals: bool)
    : set<string>
  {
    if allowRemovals then Upserted(p, c) + (p.Keys - c.Keys) else Upserted(p, c)
  }

  ghost function ChangeAt(p: map<string, AssetRecord>, c: map<string, AssetRecord>, k: string): AssetChange
    requires k in p || k in c
  {
    if k !in c then AssetChange(Removed, k, p[k].category, None)
    else AssetChange(if k in p then Updated else Added, k, c[k].category, Some(c[k]))
  }

  ghost function ChangeNames(changes: seq<AssetChange>): (names: seq<string>)
    ensures |names| == |changes| && forall i :: 0 <= i < |names| ==> names[i] == changes[i].assetId
  {
    seq(|changes|, i requires 0 <= i < |changes| => changes[i].assetId)
  }

  ghost function Touched(changes: seq<AssetChange>): set<string> {
    set ch | ch in changes :: ch.assetId
  }

  ghost function ChangesAt(p: map<string, AssetRecord>, c: map<string, AssetRecord>,
                           names: seq<string>): seq<AssetChange> {
    if names == [] then []
    else (if names[0] in p || names[0] in c then [ChangeAt(p, c, names[0])] else []) + ChangesAt(p, c, names[1..])
  }

  /** One change for every identifier to report, in identifier order. */
  ghost function DiffOf(previous: seq<AssetRecord>, current: seq<AssetRecord>, allowRemovals: bool): seq<AssetChange> {
    var p, c := Index(previous), Index(current);
    ChangesAt(p, c, SortedNames(ChangedKeys(p, c, allowRemovals)))
  }

  lemma {:induction false} ChangesAtNames(p: map<string, AssetRecord>, c: map<string, AssetRecord>, names: seq<string>)
    requires forall i :: 0 <= i < |names| ==> names[i] in p || names[i] in c
    ensures ChangeNames(ChangesAt(p, c, names)) == names
    ensures forall i :: 0 <= i < |names| ==> ChangesAt(p, c, names)[i] == ChangeAt(p, c, names[i])
  {
    if names != [] {
      ChangesAtNames(p, c, names[1..]);
      assert names[0] in p || names[0] in c;
      assert names == [names[0]] + names[1..];
    }
  }

  ghost predicate IsChange(ch: AssetChange, p: map<string, AssetRecord>, c: map<string, AssetRecord>) {
    (ch.assetId in p || ch.assetId in c) && ch == ChangeAt(p, c, ch.assetId)
  }

  lemma DiffFacts(previous: seq<AssetRecord>, current: seq<AssetRecord>, allow: bool)
    ensures var changes, keys := DiffOf(previous, current, allow), ChangedKeys(Index(previous), Index(current), allow);
      && Lists(ChangeNames(changes), keys)
      && Touched(changes) == keys
      && forall ch :: ch in changes ==> IsChange(ch, Index(previous), Index(current))
  {
    var p, c := Index(previous), Index(current);
    var keys := ChangedKeys(p, c, allow);
    var names, changes := SortedNames(keys), DiffOf(previous, current, allow);
    SortedNamesLists(keys);
    forall i | 0 <= i < |names| ensures names[i] in p || names[i] in c {
      assert names[i] in names;
    }
    ChangesAtNames(p, c, names);
    TouchedNames(changes);
  }

  lemma TouchedNames(changes: seq<AssetChange>)
    ensures forall k :: k in Touched(changes) <==> k in ChangeNames(changes)
  {
    forall k | k in Touched(changes) ensures k in ChangeNames(changes) {
      var i :| 0 <= i < |changes| && changes[i].assetId == k;
      assert ChangeNames(changes)[i] == k;
    }
  }

  lemma DiffUnique(previous: seq<AssetRecord>, current: seq<AssetRecord>, allow: bool, changes: seq<AssetChange>)
    requires Lists(ChangeNames(changes), ChangedKeys(Index(previous), Index(current), allow))
    requires forall ch :: ch in changes ==> IsChange(ch, Index(previous), Index(current))
    ensures changes == DiffOf(previous, current, allow)
  {
    var keys := ChangedKeys(Index(previous), Index(current), allow);
    var spec := DiffOf(previous, current, allow);
    DiffFacts(previous, current, allow);
    ListingUnique(ChangeNames(changes), ChangeNames(spec), keys);
    forall i | 0 <= i < |changes| ensures changes[i] == spec[i] {
      assert ChangeNames(changes)[i] == ChangeNames(spec)[i];
      assert changes[i] in changes && spec[i] in spec;
    }
  }

  method Diff(previous: seq<AssetRecord>, current: seq<AssetRecord>, allowRemovals: bool)
    returns (changes: seq<AssetChange>)
    ensures changes == DiffOf(previous, current, allowRemovals)
  {
    var p := IndexRecords(previous);
    var c := IndexRecords(current);
    changes := CollectUpserts(p, c);
    if allowRemovals {
      changes := AppendRemovals(changes, p, c);
    }
    changes := SortChanges(changes);
    CollectedLists(changes, p, c, ChangedKeys(p, c, allowRemovals));
    DiffUnique(previous, current, allowRemovals, changes);
  }

  /** The first loop of the diff: what is new or different in the current inventory. */
  method CollectUpserts(p: map<string, AssetRecord>, c: map<string, AssetRecord>)
    returns (changes: seq<AssetChange>)
    requires Keyed(p) && Keyed(c)
    ensures Collected(changes, p, c, ChangedKeys(p, c, false))
  {
    changes := [];
    var names := SortNames(c.Keys);
    SortedNamesIn(c);
    AscendingDistinct(names);
    ghost var found: set<string> := {};
    for i := 0 to |names|
      invariant IsUpserts(found, names[..i], p, c)
      invariant Collected(changes, p, c, found)
    {
      var k := names[i];
      UpsertsGrow(names, i, p, c, found);
      if k !in p {
        CollectedStep(changes, p, c, found, k);
        changes := changes + [AssetChange(Added, k, c[k].category, Some(c[k]))];
        found := found + {k};
      } else if !SameAsset(p[k], c[k]) {
        CollectedStep(changes, p, c, found, k);
        changes := changes + [AssetChange(Updated, k, c[k].category, Some(c[k]))];
        found := found + {k};
      }
    }
    assert names[..|names|] == names;
    assert found == Upserted(p, c);
  }

  ghost predicate IsUpserts(found: set<string>, names: seq<string>, p: map<string, AssetRecord>,
                            c: map<string, AssetRecord>) {
    forall k :: k in found <==> k in names && NeedsUpsert(p, c, k)
  }

  lemma UpsertsGrow(names: seq<string>, i: nat, p: map<string, AssetRecord>, c: map<string, AssetRecord>,
                    found: set<string>)
    requires Ascending(names) && i < |names| && IsUpserts(found, names[..i], p, c)
    ensures names[i] !in found
    ensures IsUpserts(if NeedsUpsert(p, c, names[i]) then found + {names[i]} else found, names[..i + 1], p, c)
  {
    AscendingDistinct(names);
    assert names[..i + 1] == names[..i] + [names[i]];
  }

  /** The second loop of the diff: what the current inventory no longer has. */
  method AppendRemovals(upserts: seq<AssetChange>, p: map<string, AssetRecord>, c: map<string, AssetRecord>)
    returns (changes: seq<AssetChange>)
    requires Collected(upserts, p, c, ChangedKeys(p, c, false))
    ensures Collected(changes, p, c, ChangedKeys(p, c, true))
  {
    changes := upserts;
    var names := SortNames(p.Keys);
    AscendingDistinct(names);
    ghost var gone: set<string> := {};
    for i := 0 to |names|
      invariant IsGone(gone, names[..i], c)
      invariant Collected(changes, p, c, ChangedKeys(p, c, false) + gone)
    {
      var k := names[i];
      assert k in names;
      GoneGrows(names, i, c, gone);
      if k !in c {
        CollectedStep(changes, p, c, ChangedKeys(p, c, false) + gone, k);
        changes := changes + [AssetChange(Removed, k, p[k].category, None)];
        assert ChangedKeys(p, c, false) + gone + {k} == ChangedKeys(p, c, false) + (gone + {k});
        gone := gone + {k};
      }
    }
    assert names[..|names|] == names;
    assert gone == p.Keys - c.Keys;
    assert ChangedKeys(p, c, true) == ChangedKeys(p, c, false) + gone;
  }

  ghost predicate IsGone(gone: set<string>, names: seq<string>, c: map<string, AssetRecord>) {
    forall k :: k in gone <==> k in names && k !in c
  }

  lemma GoneGrows(names: seq<string>, i: nat, c: map<string, AssetRecord>, gone: set<string>)
    requires Ascending(names) && i < |names| && IsGone(gone, names[..i], c)
    ensures names[i] !in gone
    ensures IsGone(if names[i] in c then gone else gone + {names[i]}, names[..i + 1], c)
  {
    AscendingDistinct(names);
    assert names[..i + 1] == names[..i] + [names[i]];
  }

  /** The changes report exactly `keys`, each once and each correctly, in any order. */
  ghost predicate Collected(changes: seq<AssetChange>, p: map<string, AssetRecord>, c: map<string, AssetRecord>,
                            keys: set<string>) {
    && (forall i, j :: 0 <= i < j < |changes| ==> changes[i].assetId != changes[j].assetId)
    && (forall ch :: ch in changes ==> IsChange(ch, p, c))
    && Touched(changes) == keys
  }

  lemma CollectedStep(changes: seq<AssetChange>, p: map<string, AssetRecord>, c: map<string, AssetRecord>,
                      keys: set<string>, k: string)
    requires Collected(changes, p, c, keys) && k !in keys && (k in p || k in c)
    ensures Collected(changes + [ChangeAt(p, c, k)], p, c, keys + {k})
  {
    var longer := changes + [ChangeAt(p, c, k)];
    assert forall i :: 0 <= i < |changes| ==> changes[i].assetId in Touched(changes);
    assert ChangeAt(p, c, k) in longer;
    assert forall ch :: ch in changes ==> ch in longer;
    assert Touched(longer) == Touched(changes) + {k};
  }

  lemma CollectedLists(changes: seq<AssetChange>, p: map<string, AssetRecord>, c: map<string, AssetRecord>,
                       keys: set<string>)
    requires Ascending(ChangeNames(changes)) && Touched(changes) == keys
    ensures Lists(ChangeNames(changes), keys)
  {
    TouchedNames(changes);
  }

  /** `sort_by` on the identifier, for changes that name each identifier once. */
  method SortChanges(changes: seq<AssetChange>) returns (sorted: seq<AssetChange>)
    requires forall i, j :: 0 <= i < j < |changes| ==> changes[i].assetId != changes[j].assetId
    ensures Ascending(ChangeNames(sorted))
    ensures forall ch :: ch in sorted <==> ch in changes
    ensures Touched(sorted) == Touched(changes)
  {
    sorted := [];
    for n := 0 to |changes|
      invariant Ascending(ChangeNames(sorted))
      invariant forall ch :: ch in sorted <==> ch in changes[..n]
    {
      var ch := changes[n];
      var i := 0;
      while i < |sorted| && LexLess(sorted[i].assetId, ch.assetId)
        invariant 0 <= i <= |sorted|
        invariant forall j :: 0 <= j < i ==> LexLess(sorted[j].assetId, ch.assetId)
      {
        i := i + 1;
      }
      InsertAscending(sorted, ch, i);
      InsertedMembers(sorted, ch, i);
      assert changes[..n + 1] == changes[..n] + [ch];
      sorted := sorted[..i] + [ch] + sorted[i..];
    }
    assert changes[..|changes|] == changes;
  }

  lemma InsertAscending(sorted: seq<AssetChange>, ch: AssetChange, i: nat)
    requires Ascending(ChangeNames(sorted)) && i <= |sorted|
    requires forall x :: x in sorted ==> x.assetId != ch.assetId
    requires forall j :: 0 <= j < i ==> LexLess(sorted[j].assetId, ch.assetId)
    requires i < |sorted| ==> !LexLess(sorted[i].assetId, ch.assetId)
    ensures Ascending(ChangeNames(sorted[..i] + [ch] + sorted[i..]))
  {
    var names, longer := ChangeNames(sorted), sorted[..i] + [ch] + sorted[i..];
    if i < |sorted| {
      assert sorted[i] in sorted;
      LexTotal(ch.assetId, names[i]);
    }
    InsertName(names, ch.assetId, i);
    assert ChangeNames(longer) == names[..i] + [ch.assetId] + names[i..];
  }

  lemma InsertedMembers(sorted: seq<AssetChange>, ch: AssetChange, i: nat)
    requires i <= |sorted|
    ensures forall x :: x in sorted[..i] + [ch] + sorted[i..] <==> x == ch || x in sorted
  {
    assert sorted == sorted[..i] + sorted[i..];
  }

  // ----- what a patch means -----

  ghost function ApplyChange(view: View, ch: AssetChange): View {
    if ch.kind.Removed? || ch.record.None? then view - {ch.assetId}
    else view[ch.assetId := Stable(ch.record.value)]
  }

  ghost function ApplyChanges(view: View, changes: seq<AssetChange>): View {
    if changes == [] then view
    else ApplyChange(ApplyChanges(view, changes[..|changes| - 1]), changes[|changes| - 1])
  }

  ghost predicate AgreeAt(v: View, w: View, k: string) {
    (k in v <==> k in w) && (k in v ==> v[k] == w[k])
  }

  ghost predicate AgreeOutside(v: View, w: View, except: set<string>) {
    forall k :: k !in except ==> AgreeAt(v, w, k)
  }

  lemma AgreeEverywhere(v: View, w: View)
    ensures AgreeOutside(v, w, {}) <==> v == w
  {
    if AgreeOutside(v, w, {}) {
      forall k ensures k in v <==> k in w { assert AgreeAt(v, w, k); }
      forall k | k in v ensures v[k] == w[k] { assert AgreeAt(v, w, k); }
    }
  }

  /** Identifiers a patch does not name keep whatever they had. */
  lemma {:induction false} ApplyUntouched(view: View, changes: seq<AssetChange>, k: string)
    requires k !in Touched(changes)
    ensures AgreeAt(ApplyChanges(view, changes), view, k)
  {
    if changes != [] {
      var front, last := changes[..|changes| - 1], changes[|changes| - 1];
      assert last in changes && forall ch :: ch in front ==> ch in changes;
      ApplyUntouched(view, front, k);
    }
  }

  /** Identifiers a patch names get the same value whatever the reader held before. */
  lemma {:induction false} ApplyTouched(v: View, w: View, changes: seq<AssetChange>, k: string)
    requires k in Touched(changes) || AgreeAt(v, w, k)
    ensures AgreeAt(ApplyChanges(v, changes), ApplyChanges(w, changes), k)
  {
    if changes != [] {
      var front, last := changes[..|changes| - 1], changes[|changes| - 1];
      if last.assetId != k {
        assert changes == front + [last];
        ApplyTouched(v, w, front, k);
      }
    }
  }

  /** A patch in identifier order gives each named identifier what its own change says. */
  lemma {:induction false} ApplyNamed(view: View, changes: seq<AssetChange>, i: nat)
    requires i < |changes|
    requires forall j :: i < j < |changes| ==> changes[j].assetId != changes[i].assetId
    ensures AgreeAt(ApplyChanges(view, changes), ApplyChange(view, changes[i]), changes[i].assetId)
  {
    if i < |changes| - 1 {
      ApplyNamed(view, changes[..|changes| - 1], i);
    }
  }

  lemma DiffIsPatchAt(previous: seq<AssetRecord>, current: seq<AssetRecord>, allow: bool, k: string)
    ensures AgreeAt(ApplyChanges(ViewOfRecords(previous), DiffOf(previous, current, allow)),
                    ViewOfRecords(Effective(previous, current, allow)), k)
  {
    var view := ViewOfRecords(previous);
    var changes := DiffOf(previous, current, allow);
    EffectiveView(previous, current, allow);
    DiffFacts(previous, current, allow);
    if k in Touched(changes) {
      var i :| 0 <= i < |changes| && changes[i].assetId == k;
      LastNamed(changes, i);
      ApplyNamed(view, changes, i);
      assert changes[i] in changes;
      ChangeAtMeaning(previous, current, allow, k);
    } else {
      ApplyUntouched(view, changes, k);
      assert AgreeAt(view, ViewOfRecords(Effective(previous, current, allow)), k);
    }
  }

  lemma ChangeAtMeaning(previous: seq<AssetRecord>, current: seq<AssetRecord>, allow: bool, k: string)
    requires k in ChangedKeys(Index(previous), Index(current), allow)
    ensures AgreeAt(ApplyChange(ViewOfRecords(previous), ChangeAt(Index(previous), Index(current), k)),
                    ViewOfRecords(Effective(previous, current, allow)), k)
  {
    EffectiveView(previous, current, allow);
  }

  lemma LastNamed(changes: seq<AssetChange>, i: nat)
    requires Ascending(ChangeNames(changes)) && i < |changes|
    ensures forall j :: i < j < |changes| ==> changes[j].assetId != changes[i].assetId
  {
    AscendingDistinct(ChangeNames(changes));
    forall j | i < j < |changes| ensures changes[j].assetId != changes[i].assetId {
      assert ChangeNames(changes)[i] != ChangeNames(changes)[j];
    }
  }

  /** Applying the patch to the previous inventory gives the inventory the cycle leaves behind. */
  lemma DiffIsPatch(previous: seq<AssetRecord>, current: seq<AssetRecord>, allow: bool)
    ensures ApplyChanges(ViewOfRecords(previous), DiffOf(previous, current, allow))
         == ViewOfRecords(Effective(previous, current, allow))
  {
    var patched := ApplyChanges(ViewOfRecords(previous), DiffOf(previous, current, allow));
    var target := ViewOfRecords(Effective(previous, current, allow));
    forall k ensures AgreeAt(patched, target, k) {
      DiffIsPatchAt(previous, current, allow, k);
    }
    assert AgreeOutside(patched, target, {});
    AgreeEverywhere(patched, target);
  }

  /** The patch names exactly the identifiers on which the two inventories disagree, in order. */
  lemma DiffNamesDisagreements(previous: seq<AssetRecord>, current: seq<AssetRecord>, allow: bool)
    ensures Ascending(ChangeNames(DiffOf(previous, current, allow)))
    ensures forall k :: k in Touched(DiffOf(previous, current, allow)) <==>
      !AgreeAt(ViewOfRecords(previous), ViewOfRecords(Effective(previous, current, allow)), k)
  {
    EffectiveView(previous, current, allow);
    DiffFacts(previous, current, allow);
  }

  /** What each change of the patch says: which side has the identifier, and what is there. */
  lemma DiffSays(previous: seq<AssetRecord>, current: seq<AssetRecord>, allow: bool, i: nat)
    requires i < |DiffOf(previous, current, allow)|
    ensures var ch, p, c := DiffOf(previous, current, allow)[i], Index(previous), Index(current);
      && (ch.kind.Added? <==> ch.assetId !in p && ch.assetId in c)
      && (ch.kind.Updated? <==> ch.assetId in p && ch.assetId in c)
      && (ch.kind.Removed? <==> ch.assetId in p && ch.assetId !in c)
      && (ch.kind.Removed? ==> allow && ch.record.None? && ch.category == p[ch.assetId].category)
      && (!ch.kind.Removed? ==> ch.record == Some(c[ch.assetId]) && ch.category == ch.record.value.category)
      && (ch.kind.Updated? ==> Stable(p[ch.assetId]) != Stable(c[ch.assetId]))
  {
    DiffFacts(previous, current, allow);
    var changes := DiffOf(previous, current, allow);
    assert changes[i] in changes && IsChange(changes[i], Index(previous), Index(current));
    assert changes[i].assetId in Touched(changes);
  }

  /** No other patch does the same with fewer named identifiers. */
  lemma DiffMinimal(previous: seq<AssetRecord>, current: seq<AssetRecord>, allow: bool, other: seq<AssetChange>)
    requires ApplyChanges(ViewOfRecords(previous), other) == ViewOfRecords(Effective(previous, current, allow))
    ensures Touched(DiffOf(previous, current, allow)) <= Touched(other)
    ensures |DiffOf(previous, current, allow)| <= |other|
  {
    DiffNamesDisagreements(previous, current, allow);
    var changes := DiffOf(previous, current, allow);
    forall k | k in Touched(changes) ensures k in Touched(other) {
      if k !in Touched(other) {
        ApplyUntouched(ViewOfRecords(previous), other, k);
        assert false;
      }
    }
    DistinctCount(changes, Touched(changes));
    NameCount(other);
    Subsets(Touched(changes), Touched(other));
  }

  lemma {:induction false} NameCount(changes: seq<AssetChange>)
    ensures |Touched(changes)| <= |changes|
  {
    if changes != [] {
      var front, last := changes[..|changes| - 1], changes[|changes| - 1];
      NameCount(front);
      assert changes == front + [last];
      assert Touched(changes) == Touched(front) + {last.assetId};
    }
  }

  lemma {:induction false} DistinctCount(changes: seq<AssetChange>, keys: set<string>)
    requires Ascending(ChangeNames(changes)) && Touched(changes) == keys
    ensures |changes| == |keys|
  {
    if changes == [] {
      assert keys == {};
    } else {
      var front, last := changes[..|changes| - 1], changes[|changes| - 1];
      assert changes == front + [last];
      assert ChangeNames(front) == ChangeNames(changes)[..|front|];
      AscendingDistinct(ChangeNames(changes));
      forall ch | ch in front ensures ch.assetId != last.assetId {
        var i :| 0 <= i < |front| && front[i] == ch;
        assert ChangeNames(changes)[i] == ch.assetId;
      }
      assert Touched(changes) == Touched(front) + {last.assetId};
      DistinctCount(front, Touched(front));
    }
  }

  lemma {:induction false} Subsets(a: set<string>, b: set<string>)
    requires a <= b
    ensures |a| <= |b|
  {
    assert b == a + (b - a);
  }

  /** Applying a patch a second time changes nothing, so a repeated event is harmless. */
  lemma ApplyIdempotent(view: View, changes: seq<AssetChange>)
    ensures ApplyChanges(ApplyChanges(view, changes), changes) == ApplyChanges(view, changes)
  {
    var once := ApplyChanges(view, changes);
    forall k ensures AgreeAt(ApplyChanges(once, changes), once, k) {
      if k in Touched(changes) {
        ApplyTouched(once, view, changes, k);
      } else {
        ApplyUntouched(once, changes, k);
      }
    }
    assert AgreeOutside(ApplyChanges(once, changes), once, {});
    AgreeEverywhere(ApplyChanges(once, changes), once);
  }

  // ----- quiet cycles -----

  ghost function StableListing(records: seq<AssetRecord>): (stable: seq<StableRecord>) {
    if records == [] then []
    else StableListing(records[..|records| - 1]) + [Stable(records[|records| - 1])]
  }

  lemma {:induction false} StableListingEqual(a: seq<AssetRecord>, b: seq<AssetRecord>)
    requires |a| == |b| && forall i :: 0 <= i < |a| ==> Stable(a[i]) == Stable(b[i])
    ensures StableListing(a) == StableListing(b)
  {
    if a != [] {
      StableListingEqual(a[..|a| - 1], b[..|b| - 1]);
    }
  }

  lemma {:induction false} StableListingLength(records: seq<AssetRecord>)
    ensures |StableListing(records)| == |records|
  {
    if records != [] {
      StableListingLength(records[..|records| - 1]);
    }
  }

  lemma EffectiveSortedUnique(previous: seq<AssetRecord>, current: seq<AssetRecord>, allow: bool)
    requires SortedUnique(current)
    ensures SortedUnique(Effective(previous, current, allow))
  {
    if !allow {
      IndexListing(Index(previous) + Index(current));
    }
  }

  /** With unique identifiers an empty patch means an identical hash input. */
  lemma QuietCycleSameListing(previous: seq<AssetRecord>, current: seq<AssetRecord>, allow: bool)
    requires SortedUnique(previous) && SortedUnique(current)
    requires DiffOf(previous, current, allow) == []
    ensures StableListing(Effective(previous, current, allow)) == StableListing(previous)
  {
    var next := Effective(previous, current, allow);
    var p, n := Index(previous), Index(next);
    DiffIsPatch(previous, current, allow);
    assert ViewOf(p) == ViewOf(n);
    assert p.Keys == ViewOf(p).Keys == n.Keys;
    EffectiveSortedUnique(previous, current, allow);
    NamesListKeys(previous);
    NamesListKeys(next);
    ListingUnique(Names(previous), Names(next), p.Keys);
    forall i | 0 <= i < |previous| ensures Stable(previous[i]) == Stable(next[i]) {
      var k := Names(previous)[i];
      assert Names(next)[i] == k;
      NameAt(previous, i);
      NameAt(next, i);
      assert ViewOf(p)[k] == ViewOf(n)[k];
    }
    StableListingEqual(previous, next);
  }

  lemma {:induction false} StableListingAt(records: seq<AssetRecord>, i: nat)
    requires i < |records|
    ensures |StableListing(records)| == |records| && StableListing(records)[i] == Stable(records[i])
  {
    StableListingLength(records);
    if i < |records| - 1 {
      StableListingAt(records[..|records| - 1], i);
      StableListingLength(records[..|records| - 1]);
    }
  }

  /** Whatever a sorted observation reports as nothing leaves the hash input of this inventory. */
  ghost predicate KeepsListing(previous: seq<AssetRecord>) {
    forall current, allow :: SortedUnique(current) && DiffOf(previous, current, allow) == [] ==>
      StableListing(Effective(previous, current, allow)) == StableListing(previous)
  }

  /** So a quiet cycle keeps the hash exactly when the stored inventory is sorted without repeats. */
  lemma QuietCycleKeepsListingIff(previous: seq<AssetRecord>)
    ensures KeepsListing(previous) <==> SortedUnique(previous)
  {
    if SortedUnique(previous) {
      forall current, allow | SortedUnique(current) && DiffOf(previous, current, allow) == []
        ensures StableListing(Effective(previous, current, allow)) == StableListing(previous)
      {
        QuietCycleSameListing(previous, current, allow);
      }
    }
    if KeepsListing(previous) {
      var current := Listing(Index(previous));
      IndexListing(Index(previous));
      NothingToReport(previous, current);
      assert StableListing(current) == StableListing(previous);
      StableListingLength(current);
      StableListingLength(previous);
      forall i | 0 <= i < |previous| ensures Names(previous)[i] == Names(current)[i] {
        StableListingAt(previous, i);
        StableListingAt(current, i);
      }
      assert Names(previous) == Names(current);
    }
  }

  lemma NothingToReport(previous: seq<AssetRecord>, current: seq<AssetRecord>)
    requires Index(current) == Index(previous)
    ensures DiffOf(previous, current, true) == []
  {
    assert ChangedKeys(Index(previous), Index(current), true) == {};
    assert SortedNames({}) == [];
  }

  /** Without unique identifiers it does not: a duplicate already stored collapses on a degraded cycle. */
  lemma QuietCycleNeedsUniqueIds() returns (previous: seq<AssetRecord>)
    ensures DiffOf(previous, [], false) == []
    ensures StableListing(Effective(previous, [], false)) != StableListing(previous)
  {
    var a := AssetRecord("cpu", "cpu", "one", 0, Null);
    previous := [a, a.(source := "two")];
    var p := Index(previous);
    assert previous[..1] == [a];
    assert Index([a]) == map["cpu" := a];
    assert p == map["cpu" := previous[1]];
    assert ChangedKeys(p, map[], false) == {};
    assert SortedNames({}) == [];
    assert |DiffOf(previous, [], false)| == 0;
    assert p + map[] == p;
    assert Lists(["cpu"], {"cpu"});
    SortedNamesLists({"cpu"});
    ListingUnique(SortedNames({"cpu"}), ["cpu"], {"cpu"});
    assert Index(previous) + Index([]) == p;
    assert |SortedNames(p.Keys)| == 1;
    assert |Effective(previous, [], false)| == 1;
    StableListingLength(previous);
    StableListingLength(Effective(previous, [], false));
  }
}
