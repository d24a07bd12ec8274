// One collection cycle over all collectors, and the per-user packages a Windows cycle must not
// mistake for uninstalls (src/collectors/mod.rs, retain_unloaded_windows_user_packages in
// src/scheduler.rs).

module Collection {
  import opened Wrappers
  import opened Text
  import opened Inventory
  import opened Replication

  /** How a collector's blocking task ends within the deadline, or does not. */
  datatype TaskOutcome =
    | Returned(records: seq<AssetRecord>)
    | Failed(message: string)
    | Panicked(message: string)
    | TimedOut

  datatype Collector = Collector(name: string, supported: bool, outcome: TaskOutcome)

  // ----- stable sorting by identifier -----

  ghost predicate NonDescending(records: seq<AssetRecord>) {
    forall i, j :: 0 <= i < j < |records| ==> !LexLess(records[j].assetId, records[i].assetId)
  }

  lemma InsertSorted(sorted: seq<AssetRecord>, r: AssetRecord, i: nat)
    requires NonDescending(sorted) && i <= |sorted|
    requires i > 0 ==> !LexLess(r.assetId, sorted[i - 1].assetId)
    requires forall j :: i <= j < |sorted| ==> LexLess(r.assetId, sorted[j].assetId)
    ensures NonDescending(sorted[..i] + [r] + sorted[i..])
  {
    forall j | 0 <= j < i ensures !LexLess(r.assetId, sorted[j].assetId) {
      if LexLess(r.assetId, sorted[j].assetId) {
        if j < i - 1 { NotLessTransitiveUp(r.assetId, sorted[j].assetId, sorted[i - 1].assetId); }
        assert false;
      }
    }
    forall j | i <= j < |sorted| ensures !LexLess(sorted[j].assetId, r.assetId) {
      LexAsymmetric(r.assetId, sorted[j].assetId);
    }
  }

  lemma InsertKeepsIndex(sorted: seq<AssetRecord>, r: AssetRecord, i: nat)
    requires i <= |sorted|
    requires forall j :: i <= j < |sorted| ==> LexLess(r.assetId, sorted[j].assetId)
    ensures Index(sorted[..i] + [r] + sorted[i..]) == Index(sorted)[r.assetId := r]
  {
    var front, back := sorted[..i], sorted[i..];
    assert sorted == front + back;
    IndexConcat(front, back);
    IndexConcat(front + [r], back);
    IndexAppend(front, r);
    NotAmongGreater(back, r.assetId);
    UpdateCommutes(Index(front), Index(back), r);
  }

  lemma IndexAppend(records: seq<AssetRecord>, r: AssetRecord)
    ensures Index(records + [r]) == Index(records)[r.assetId := r]
  {
    assert (records + [r])[..|records|] == records;
  }

  lemma InsertKeepsMembers(sorted: seq<AssetRecord>, r: AssetRecord, i: nat)
    requires i <= |sorted|
    ensures multiset(sorted[..i] + [r] + sorted[i..]) == multiset(sorted) + multiset{r}
  {
    assert sorted == sorted[..i] + sorted[i..];
  }

  lemma NotAmongGreater(records: seq<AssetRecord>, id: string)
    requires forall j :: 0 <= j < |records| ==> LexLess(id, records[j].assetId)
    ensures id !in Index(records)
  {
    if id in Index(records) {
      var j := IndexSource(records, id);
      LexIrreflexive(id);
    }
  }

  lemma UpdateCommutes(x: map<string, AssetRecord>, y: map<string, AssetRecord>, r: AssetRecord)
    requires r.assetId !in y
    ensures x[r.assetId := r] + y == (x + y)[r.assetId := r]
  {
  }

  lemma NotLessTransitiveUp(a: string, b: string, c: string)
    requires LexLess(a, b) && !LexLess(c, b)
    ensures LexLess(a, c)
  {
    LexTotal(b, c);
    if b != c { LexTransitive(a, b, c); }
  }

  /** `sort_by` on the identifier: stable, so the last of two equal identifiers stays last. */
  method SortById(records: seq<AssetRecord>) returns (sorted: seq<AssetRecord>)
    ensures NonDescending(sorted)
    ensures Index(sorted) == Index(records)
    ensures multiset(sorted) == multiset(records)
    ensures Distinct(records) ==> SortedUnique(sorted)
  {
    sorted := [];
    for n := 0 to |records|
      invariant NonDescending(sorted)
      invariant Index(sorted) == Index(records[..n])
      invariant multiset(sorted) == multiset(records[..n])
    {
      var r := records[n];
      var i := |sorted|;
      while i > 0 && LexLess(r.assetId, sorted[i - 1].assetId)
        invariant 0 <= i <= |sorted|
        invariant forall j :: i <= j < |sorted| ==> LexLess(r.assetId, sorted[j].assetId)
      {
        i := i - 1;
      }
      InsertSorted(sorted, r, i);
      InsertKeepsIndex(sorted, r, i);
      InsertKeepsMembers(sorted, r, i);
      IndexAppend(records[..n], r);
      assert records[..n + 1] == records[..n] + [r];
      sorted := sorted[..i] + [r] + sorted[i..];
    }
    assert records[..|records|] == records;
    SameCountDistinct(records, sorted);
    if Distinct(sorted) { SortedIsUnique(sorted); }
  }

  ghost predicate Distinct(records: seq<AssetRecord>) {
    forall i, j :: 0 <= i < j < |records| ==> records[i].assetId != records[j].assetId
  }

  lemma DistinctAppend(records: seq<AssetRecord>, r: AssetRecord)
    ensures Distinct(records + [r]) <==> Distinct(records) && r.assetId !in Index(records)
  {
    var longer := records + [r];
    assert forall i :: 0 <= i < |records| ==> longer[i] == records[i];
    if r.assetId in Index(records) {
      var i := IndexSource(records, r.assetId);
      assert longer[i].assetId == longer[|records|].assetId;
    }
    if Distinct(records) && r.assetId !in Index(records) {
      forall i | 0 <= i < |records| ensures records[i].assetId != r.assetId {
        IndexHas(records, i);
      }
    }
  }

  lemma {:induction false} DistinctByCount(records: seq<AssetRecord>)
    ensures |Index(records)| <= |records|
    ensures Distinct(records) <==> |Index(records)| == |records|
  {
    if records != [] {
      var front, last := records[..|records| - 1], records[|records| - 1];
      assert records == front + [last];
      DistinctByCount(front);
      DistinctAppend(front, last);
      IndexAppend(front, last);
    }
  }

  lemma SameCountDistinct(a: seq<AssetRecord>, b: seq<AssetRecord>)
    requires multiset(a) == multiset(b) && Index(a) == Index(b)
    ensures Distinct(a) <==> Distinct(b)
  {
    assert |a| == |multiset(a)| == |multiset(b)| == |b|;
    DistinctByCount(a);
    DistinctByCount(b);
  }

  /** A sorted list in which no identifier repeats is strictly sorted. */
  lemma SortedIsUnique(records: seq<AssetRecord>)
    requires NonDescending(records) && Distinct(records)
    ensures SortedUnique(records)
  {
    forall i, j | 0 <= i < j < |records| ensures LexLess(Names(records)[i], Names(records)[j]) {
      LexTotal(records[i].assetId, records[j].assetId);
    }
  }

  // ----- the cycle -----

  ghost predicate Starts(c: Collector, quarantined: set<string>) {
    c.supported && c.name !in quarantined
  }

  /** The collector contributed everything it was asked for. */
  ghost predicate Healthy(c: Collector, quarantined: set<string>) {
    Starts(c, quarantined) && c.outcome.Returned?
  }

  /** The records gathered, in the order of the collectors. */
  ghost function Gathered(collectors: seq<Collector>, quarantined: set<string>): seq<AssetRecord> {
    if collectors == [] then []
    else
      var last := collectors[|collectors| - 1];
      Gathered(collectors[..|collectors| - 1], quarantined)
      + (if Healthy(last, quarantined) then last.outcome.records else [])
  }

  ghost function Hung(collectors: seq<Collector>, quarantined: set<string>): set<string> {
    set c | c in collectors && Starts(c, quarantined) && c.outcome.TimedOut? :: c.name
  }

  ghost function Unwell(collectors: seq<Collector>, quarantined: set<string>): set<string> {
    set c | c in collectors && !Healthy(c, quarantined) :: c.name
  }

  ghost function Rejected(collectors: seq<Collector>, quarantined: set<string>): set<string> {
    set c | c in collectors && !Starts(c, quarantined) :: c.name
  }

  ghost function Blamed(errors: seq<CollectionError>): set<string> {
    set e | e in errors :: e.collector
  }

  /** What is reported about collectors that are not started. */
  ghost function Refusals(collectors: seq<Collector>, quarantined: set<string>): seq<CollectionError> {
    if collectors == [] then []
    else
      Refusals(collectors[..|collectors| - 1], quarantined) + Refusal(collectors[|collectors| - 1], quarantined)
  }

  ghost function Refusal(c: Collector, quarantined: set<string>): seq<CollectionError> {
    if !c.supported then [CollectionError(c.name, UNSUPPORTED)]
    else if c.name in quarantined then [CollectionError(c.name, SKIPPED)]
    else []
  }

  /** What is reported about collectors that were started and did not return. */
  ghost function Complaints(tasks: seq<Collector>): seq<CollectionError> {
    if tasks == [] then []
    else Complaints(tasks[..|tasks| - 1]) + Complaint(tasks[|tasks| - 1])
  }

  ghost function Complaint(task: Collector): seq<CollectionError> {
    match task.outcome
    case Returned(_) => []
    case Failed(message) => [CollectionError(task.name, message)]
    case Panicked(message) => [CollectionError(task.name, "collector task failed: " + message)]
    case TimedOut => [CollectionError(task.name, ABANDONED)]
  }

  const UNSUPPORTED: string := "unsupported on this host"
  const SKIPPED: string := "skipped: it exceeded its deadline earlier"
  const ABANDONED: string := "did not finish within the deadline and was abandoned"

  /** All that is reported in one cycle. */
  ghost function Reported(collectors: seq<Collector>, quarantined: set<string>): seq<CollectionError> {
    Refusals(collectors, quarantined) + Complaints(Started(collectors, quarantined))
  }

  /** The errors are these, sorted by collector. */
  ghost predicate Tells(errors: seq<CollectionError>, reported: seq<CollectionError>) {
    ByCollector(errors) && multiset(errors) == multiset(reported)
  }

  ghost predicate ByCollector(errors: seq<CollectionError>) {
    forall i, j :: 0 <= i < j < |errors| ==> !LexLess(errors[j].collector, errors[i].collector)
  }

  class Registry {
    var quarantined: set<string>  // for the life of the process

    constructor ()
      ensures quarantined == {}
    {
      quarantined := {};
    }

    /** `collect_all_within`. */
    method CollectAll(collectors: seq<Collector>, collectedAt: nat) returns (snapshot: Snapshot)
      modifies this
      ensures quarantined == old(quarantined) + Hung(collectors, old(quarantined))
      ensures snapshot.errors == [] <==> forall c :: c in collectors ==> Healthy(c, old(quarantined))
      ensures Blamed(snapshot.errors) == Unwell(collectors, old(quarantined))
      ensures Tells(snapshot.errors, Reported(collectors, old(quarantined)))
      ensures NonDescending(snapshot.records)
      ensures Index(snapshot.records) == Index(Gathered(collectors, old(quarantined)))
      ensures multiset(snapshot.records) == multiset(Gathered(collectors, old(quarantined)))
      ensures Distinct(Gathered(collectors, old(quarantined))) ==> SortedUnique(snapshot.records)
      ensures snapshot.schemaVersion == 1 && snapshot.collectedAt == collectedAt
    {
      ghost var before := quarantined;
      var tasks, errors := StartAll(collectors);
      TasksCover(collectors, tasks, before);
      var records;
      records, errors := AwaitAll(tasks, errors, before);
      var sorted := SortById(records);
      ReportedBlames(collectors, before);
      NobodyBlamed(errors, collectors, before);
      errors := SortErrors(errors);
      snapshot := Snapshot(1, collectedAt, sorted, errors);
    }

    /** What a cycle observes: the collectors' records and, on Windows, the stored packages of
        users whose hives were not loaded throughout. */
    method Observe(collectors: seq<Collector>, collectedAt: nat, windows: bool, previous: seq<AssetRecord>,
                   before: set<string>, after: set<string>)
      returns (snapshot: Snapshot)
      modifies this
      ensures quarantined == old(quarantined) + Hung(collectors, old(quarantined))
      ensures snapshot.errors == [] <==> forall c :: c in collectors ==> Healthy(c, old(quarantined))
      ensures Tells(snapshot.errors, Reported(collectors, old(quarantined)))
      ensures var gathered := Gathered(collectors, old(quarantined));
        && (forall k :: k in Index(snapshot.records) <==>
              k in Index(gathered) || (windows && UnloadedIn(k, previous, before * after)))
        && (forall k :: k in Index(gathered) ==> Index(snapshot.records)[k] == Index(gathered)[k])
        && (Distinct(gathered) ==> SortedUnique(snapshot.records))
        && (!windows || HivesLoaded(previous, before * after) ==> Index(snapshot.records) == Index(gathered))
      ensures snapshot.schemaVersion == 1 && snapshot.collectedAt == collectedAt
    {
      ghost var gathered := Gathered(collectors, quarantined);
      snapshot := CollectAll(collectors, collectedAt);
      if windows {
        var records := Keep(snapshot.records, previous, before * after, gathered);
        snapshot := snapshot.(records := records);
      }
    }

    /** The part of a cycle that exists on Windows only. */
    method Keep(collected: seq<AssetRecord>, previous: seq<AssetRecord>, loaded: set<string>,
                ghost gathered: seq<AssetRecord>)
      returns (records: seq<AssetRecord>)
      requires Index(collected) == Index(gathered) && multiset(collected) == multiset(gathered)
      ensures forall k :: k in Index(records) <==> k in Index(gathered) || UnloadedIn(k, previous, loaded)
      ensures forall k :: k in Index(gathered) ==> Index(records)[k] == Index(gathered)[k]
      ensures Distinct(gathered) ==> SortedUnique(records)
      ensures HivesLoaded(previous, loaded) ==> Index(records) == Index(gathered)
    {
      SameCountDistinct(gathered, collected);
      records := RetainUnloaded(collected, previous, loaded);
      if HivesLoaded(previous, loaded) {
        forall k ensures k in Index(records) <==> k in Index(gathered) {
          LoadedIsAuthoritative(previous, loaded, k);
        }
        assert Index(records) == Index(gathered);
      }
    }

    /** The second loop: each started collector returns, fails, panics or runs out of time. */
    method AwaitAll(tasks: seq<Collector>, reported: seq<CollectionError>, ghost before: set<string>)
      returns (records: seq<AssetRecord>, errors: seq<CollectionError>)
      requires quarantined == before && forall t :: t in tasks ==> Starts(t, before)
      modifies this
      ensures records == Gathered(tasks, before)
      ensures quarantined == before + Hung(tasks, before)
      ensures errors == reported + Complaints(tasks)
    {
      records, errors := [], reported;
      for n := 0 to |tasks|
        invariant records == Gathered(tasks[..n], before)
        invariant quarantined == before + Hung(tasks[..n], before)
        invariant errors == reported + Complaints(tasks[..n])
      {
        assert tasks[n] in tasks;
        OneMoreTask(tasks, n, before);
        Regroup(reported, Complaints(tasks[..n]), Complaint(tasks[n]));
        var values;
        values, errors := AwaitOne(tasks[n], errors);
        records := records + values;
      }
      assert tasks[..|tasks|] == tasks;
    }

    method AwaitOne(task: Collector, reported: seq<CollectionError>)
      returns (records: seq<AssetRecord>, errors: seq<CollectionError>)
      modifies this
      ensures records == if task.outcome.Returned? then task.outcome.records else []
      ensures quarantined == old(quarantined) + if task.outcome.TimedOut? then {task.name} else {}
      ensures errors == reported + Complaint(task)
    {
      records, errors := [], reported;
      match task.outcome
      case Returned(values) =>
        records := values;
      case Failed(message) =>
        errors := errors + [CollectionError(task.name, message)];
      case Panicked(message) =>
        errors := errors + [CollectionError(task.name, "collector task failed: " + message)];
      case TimedOut =>
        quarantined := quarantined + {task.name};
        errors := errors + [CollectionError(task.name, "did not finish within the deadline and was abandoned")];
    }

    /** The first loop: unsupported and quarantined collectors are reported and not started. */
    method StartAll(collectors: seq<Collector>) returns (tasks: seq<Collector>, errors: seq<CollectionError>)
      ensures tasks == Started(collectors, quarantined)
      ensures errors == Refusals(collectors, quarantined)
    {
      tasks, errors := [], [];
      for n := 0 to |collectors|
        invariant tasks == Started(collectors[..n], quarantined)
        invariant errors == Refusals(collectors[..n], quarantined)
      {
        var collector := collectors[n];
        OneMoreCollector(collectors, n, quarantined);
        if !collector.supported {
          errors := errors + [CollectionError(collector.name, "unsupported on this host")];
        } else if collector.name in quarantined {
          errors := errors + [CollectionError(collector.name, "skipped: it exceeded its deadline earlier")];
        } else {
          tasks := tasks + [collector];
        }
      }
      assert collectors[..|collectors|] == collectors;
    }
  }

  ghost function Started(collectors: seq<Collector>, quarantined: set<string>): seq<Collector> {
    if collectors == [] then []
    else
      var last := collectors[|collectors| - 1];
      Started(collectors[..|collectors| - 1], quarantined) + (if Starts(last, quarantined) then [last] else [])
  }

  method SortErrors(errors: seq<CollectionError>) returns (sorted: seq<CollectionError>)
    ensures Blamed(sorted) == Blamed(errors) && |sorted| == |errors|
    ensures ByCollector(sorted)
    ensures multiset(sorted) == multiset(errors)
    ensures forall e :: e in sorted <==> e in errors
  {
    sorted := [];
    for n := 0 to |errors|
      invariant |sorted| == n && ByCollector(sorted) && multiset(sorted) == multiset(errors[..n])
    {
      assert errors[..n + 1] == errors[..n] + [errors[n]];
      sorted := PlaceError(sorted, errors[n]);
    }
    assert errors[..|errors|] == errors;
    forall e ensures e in sorted <==> e in errors {
      assert e in sorted <==> e in multiset(sorted);
    }
  }

  /** Places an error behind those of the same collector. */
  method PlaceError(sorted: seq<CollectionError>, e: CollectionError) returns (longer: seq<CollectionError>)
    requires ByCollector(sorted)
    ensures ByCollector(longer) && |longer| == |sorted| + 1 && multiset(longer) == multiset(sorted) + multiset{e}
  {
    var i := |sorted|;
    while i > 0 && LexLess(e.collector, sorted[i - 1].collector)
      invariant 0 <= i <= |sorted|
      invariant forall j :: i <= j < |sorted| ==> LexLess(e.collector, sorted[j].collector)
    {
      i := i - 1;
    }
    InsertError(sorted, e, i);
    longer := sorted[..i] + [e] + sorted[i..];
  }

  lemma InsertedOnce(sorted: seq<CollectionError>, e: CollectionError, i: nat)
    requires i <= |sorted|
    ensures multiset(sorted[..i] + [e] + sorted[i..]) == multiset(sorted) + multiset{e}
  {
    assert sorted == sorted[..i] + sorted[i..];
  }

  lemma InsertError(sorted: seq<CollectionError>, e: CollectionError, i: nat)
    requires ByCollector(sorted) && i <= |sorted| && (i > 0 ==> !LexLess(e.collector, sorted[i - 1].collector))
    requires forall j :: i <= j < |sorted| ==> LexLess(e.collector, sorted[j].collector)
    ensures var longer := sorted[..i] + [e] + sorted[i..];
      ByCollector(longer) && multiset(longer) == multiset(sorted) + multiset{e}
  {
    InsertedOnce(sorted, e, i);
    forall j | 0 <= j < i ensures !LexLess(e.collector, sorted[j].collector) {
      if LexLess(e.collector, sorted[j].collector) {
        if j < i - 1 { NotLessTransitiveUp(e.collector, sorted[j].collector, sorted[i - 1].collector); }
        assert false;
      }
    }
    forall j | i <= j < |sorted| ensures !LexLess(sorted[j].collector, e.collector) {
      LexAsymmetric(e.collector, sorted[j].collector);
    }
  }

  lemma Longer(collectors: seq<Collector>, n: nat)
    requires n < |collectors|
    ensures collectors[..n + 1][..n] == collectors[..n]
    ensures forall c :: c in collectors[..n + 1] <==> c in collectors[..n] || c == collectors[n]
  {
    assert collectors[..n + 1] == collectors[..n] + [collectors[n]];
  }

  lemma OneMoreTask(tasks: seq<Collector>, n: nat, quarantined: set<string>)
    requires n < |tasks| && Starts(tasks[n], quarantined)
    ensures Gathered(tasks[..n + 1], quarantined)
         == Gathered(tasks[..n], quarantined) + if tasks[n].outcome.Returned? then tasks[n].outcome.records else []
    ensures Hung(tasks[..n + 1], quarantined)
         == Hung(tasks[..n], quarantined) + if tasks[n].outcome.TimedOut? then {tasks[n].name} else {}
    ensures Complaints(tasks[..n + 1]) == Complaints(tasks[..n]) + Complaint(tasks[n])
  {
    Longer(tasks, n);
  }

  lemma OneMoreCollector(collectors: seq<Collector>, n: nat, quarantined: set<string>)
    requires n < |collectors|
    ensures Started(collectors[..n + 1], quarantined)
         == Started(collectors[..n], quarantined) + if Starts(collectors[n], quarantined) then [collectors[n]] else []
    ensures Refusals(collectors[..n + 1], quarantined)
         == Refusals(collectors[..n], quarantined) + Refusal(collectors[n], quarantined)
  {
    Longer(collectors, n);
  }

  lemma {:induction false} StartedMembers(collectors: seq<Collector>, quarantined: set<string>)
    ensures forall c :: c in Started(collectors, quarantined) <==> c in collectors && Starts(c, quarantined)
  {
    if collectors != [] {
      var front, last := collectors[..|collectors| - 1], collectors[|collectors| - 1];
      assert collectors == front + [last];
      StartedMembers(front, quarantined);
    }
  }

  lemma {:induction false} StartedGather(collectors: seq<Collector>, quarantined: set<string>)
    ensures Gathered(Started(collectors, quarantined), quarantined) == Gathered(collectors, quarantined)
  {
    if collectors != [] {
      var front, last := collectors[..|collectors| - 1], collectors[|collectors| - 1];
      var earlier, tasks := Started(front, quarantined), Started(collectors, quarantined);
      StartedGather(front, quarantined);
      if Starts(last, quarantined) {
        assert tasks[..|tasks| - 1] == earlier && tasks[|tasks| - 1] == last;
      } else {
        assert tasks == earlier;
      }
    }
  }

  lemma TasksCover(collectors: seq<Collector>, tasks: seq<Collector>, quarantined: set<string>)
    requires tasks == Started(collectors, quarantined)
    ensures forall c :: c in tasks <==> c in collectors && Starts(c, quarantined)
    ensures Gathered(tasks, quarantined) == Gathered(collectors, quarantined)
    ensures Hung(tasks, quarantined) == Hung(collectors, quarantined)
  {
    StartedMembers(collectors, quarantined);
    StartedGather(collectors, quarantined);
  }

  lemma BlamedTogether(a: seq<CollectionError>, b: seq<CollectionError>)
    ensures Blamed(a + b) == Blamed(a) + Blamed(b)
  {
    assert forall e :: e in a + b <==> e in a || e in b;
  }

  lemma {:induction false} RefusalsBlame(collectors: seq<Collector>, quarantined: set<string>)
    ensures Blamed(Refusals(collectors, quarantined)) == Rejected(collectors, quarantined)
  {
    if collectors != [] {
      var front, last := collectors[..|collectors| - 1], collectors[|collectors| - 1];
      assert collectors == front + [last];
      RefusalsBlame(front, quarantined);
      BlamedTogether(Refusals(front, quarantined), Refusal(last, quarantined));
    }
  }

  lemma {:induction false} ComplaintsBlame(tasks: seq<Collector>)
    ensures Blamed(Complaints(tasks)) == set t | t in tasks && !t.outcome.Returned? :: t.name
  {
    if tasks != [] {
      var front, last := tasks[..|tasks| - 1], tasks[|tasks| - 1];
      assert tasks == front + [last];
      ComplaintsBlame(front);
      BlamedTogether(Complaints(front), Complaint(last));
    }
  }

  /** The collectors reported are exactly those that contributed less than they were asked for. */
  lemma ReportedBlames(collectors: seq<Collector>, quarantined: set<string>)
    ensures Blamed(Reported(collectors, quarantined)) == Unwell(collectors, quarantined)
  {
    var tasks := Started(collectors, quarantined);
    RefusalsBlame(collectors, quarantined);
    ComplaintsBlame(tasks);
    StartedMembers(collectors, quarantined);
    BlamedTogether(Refusals(collectors, quarantined), Complaints(tasks));
  }

  lemma NobodyBlamed(errors: seq<CollectionError>, collectors: seq<Collector>, quarantined: set<string>)
    requires Blamed(errors) == Unwell(collectors, quarantined)
    ensures errors == [] <==> forall c :: c in collectors ==> Healthy(c, quarantined)
  {
    if errors != [] {
      assert errors[0].collector in Blamed(errors);
    }
    forall c | c in collectors && !Healthy(c, quarantined) ensures errors != [] {
      assert c.name in Unwell(collectors, quarantined);
    }
  }

  // ----- packages of users who are not logged on -----

  function Field(r: AssetRecord, key: string): Option<string> {
    if r.payload.Object? && key in r.payload.fields && r.payload.fields[key].Str?
    then Some(r.payload.fields[key].s) else None
  }

  /** A Windows package of one user, whose registry hive was not loaded. */
  predicate UnloadedUserPackage(r: AssetRecord, loaded: set<string>) {
    && r.category == "software.package"
    && Field(r, "manager") == Some("windows")
    && Field(r, "scope") == Some("user")
    && Field(r, "owner_sid").Some? && Field(r, "owner_sid").value != ""
    && Field(r, "owner_sid").value !in loaded
  }

  /** A package as the collectors report it; its other fields are free. */
  function PackageOf(assetId: string, category: string, source: string, collectedAt: nat, manager: string,
                     scope: string, sid: string, others: map<string, Json>): AssetRecord
  {
    AssetRecord(assetId, category, source, collectedAt,
                Object(others["manager" := Str(manager)]["scope" := Str(scope)]["owner_sid" := Str(sid)]))
  }

  /** Only a Windows package of a single user, whose hive is not loaded, is one; without any of the
      three fields a record is none. */
  lemma UnloadedUserPackageMeans(assetId: string, category: string, source: string, collectedAt: nat, manager: string,
                                 scope: string, sid: string, others: map<string, Json>, loaded: set<string>)
    ensures var r := PackageOf(assetId, category, source, collectedAt, manager, scope, sid, others);
      UnloadedUserPackage(r, loaded) <==>
        category == "software.package" && manager == "windows" && scope == "user" && sid != "" && sid !in loaded
    ensures "manager" !in others || "scope" !in others || "owner_sid" !in others ==>
      !UnloadedUserPackage(AssetRecord(assetId, category, source, collectedAt, Object(others)), loaded)
  {
    assert "manager"[0] != "scope"[0] && "manager"[0] != "owner_sid"[0] && "scope"[0] != "owner_sid"[0];
  }

  ghost predicate UnloadedIn(k: string, records: seq<AssetRecord>, loaded: set<string>) {
    exists i :: 0 <= i < |records| && records[i].assetId == k && UnloadedUserPackage(records[i], loaded)
  }

  /** `retain_unloaded_windows_user_packages`. */
  method RetainUnloaded(current: seq<AssetRecord>, previous: seq<AssetRecord>, loaded: set<string>)
    returns (records: seq<AssetRecord>)
    ensures NonDescending(records)
    ensures forall k :: k in Index(records) <==> k in Index(current) || UnloadedIn(k, previous, loaded)
    ensures forall k :: k in Index(current) ==> k in Index(records) && Index(records)[k] == Index(current)[k]
    ensures forall k :: k in Index(records) && k !in Index(current) ==>
      Index(records)[k] in previous && UnloadedUserPackage(Index(records)[k], loaded)
    ensures Distinct(current) ==> SortedUnique(records)
  {
    records := current;
    var ids := CurrentIds(current);
    for n := 0 to |previous|
      invariant ids == Index(records).Keys
      invariant forall k :: k in Index(records) <==> k in Index(current) || UnloadedIn(k, previous[..n], loaded)
      invariant forall k :: k in Index(current) ==> k in Index(records) && Index(records)[k] == Index(current)[k]
      invariant forall k :: k in Index(records) && k !in Index(current) ==>
        Index(records)[k] in previous && UnloadedUserPackage(Index(records)[k], loaded)
      invariant Distinct(current) ==> Distinct(records)
    {
      var record := previous[n];
      OneMore(previous, n, loaded);
      if UnloadedUserPackage(record, loaded) && record.assetId !in ids {
        IndexAppend(records, record);
        DistinctAppend(records, record);
        records := records + [record];
        ids := ids + {record.assetId};
      }
    }
    assert previous[..|previous|] == previous;
    records := SortById(records);
  }

  method CurrentIds(records: seq<AssetRecord>) returns (ids: set<string>)
    ensures ids == Index(records).Keys
  {
    var index := IndexRecords(records);
    ids := index.Keys;
  }

  lemma OneMore(previous: seq<AssetRecord>, n: nat, loaded: set<string>)
    requires n < |previous|
    ensures forall k :: UnloadedIn(k, previous[..n + 1], loaded) <==>
      UnloadedIn(k, previous[..n], loaded) || (k == previous[n].assetId && UnloadedUserPackage(previous[n], loaded))
  {
    forall k
      ensures UnloadedIn(k, previous[..n + 1], loaded) <==>
        UnloadedIn(k, previous[..n], loaded) || (k == previous[n].assetId && UnloadedUserPackage(previous[n], loaded))
    {
      var longer, shorter := previous[..n + 1], previous[..n];
      if UnloadedIn(k, shorter, loaded) {
        var i :| 0 <= i < n && shorter[i].assetId == k && UnloadedUserPackage(shorter[i], loaded);
        assert longer[i] == shorter[i];
      }
      if k == previous[n].assetId && UnloadedUserPackage(previous[n], loaded) {
        assert longer[n] == previous[n];
      }
      if UnloadedIn(k, longer, loaded) {
        var i :| 0 <= i < n + 1 && longer[i].assetId == k && UnloadedUserPackage(longer[i], loaded);
        if i < n { assert shorter[i] == longer[i]; }
      }
    }
  }

  ghost predicate HivesLoaded(records: seq<AssetRecord>, loaded: set<string>) {
    forall i :: 0 <= i < |records| && Field(records[i], "owner_sid").Some? ==>
      Field(records[i], "owner_sid").value in loaded
  }

  /** A loaded hive is authoritative: with every hive loaded nothing is retained. */
  lemma LoadedIsAuthoritative(previous: seq<AssetRecord>, loaded: set<string>, k: string)
    requires HivesLoaded(previous, loaded)
    ensures !UnloadedIn(k, previous, loaded)
  {
  }
}
