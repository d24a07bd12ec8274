// The agent's durable state, one step at a time: collection cycles that append events and
// advance the baseline in separate writes, deliveries that may be refused, repeated or lost,
// damage and restarts. A reader that replays what the server accepts is compared with the
// baseline after every run (src/scheduler.rs, src/storage.rs).

module Replication {
  import opened Machine
  import opened Wrappers
  import opened Inventory

  datatype CollectionError = CollectionError(collector: string, message: string)

  datatype Snapshot = Snapshot(
    schemaVersion: nat, collectedAt: nat, records: seq<AssetRecord>, errors: seq<CollectionError>)

  datatype EnvelopeKind = InventoryEvent | HeartbeatEvent

  datatype Envelope = Envelope(
    eventId: string,
    createdAt: nat,
    kind: EnvelopeKind,
    snapshotHash: string,
    snapshot: Option<Snapshot>,
    changes: seq<AssetChange>,
    collectionErrors: seq<CollectionError>)

  /** What the stable hash is computed over. */
  datatype StableSnapshot = StableSnapshot(schemaVersion: nat, records: seq<StableRecord>)

  /** The digest is an arbitrary function; nothing below depends on its being collision free. */
  datatype Config = Config(sha: StableSnapshot -> string, heartbeatSeconds: nat)

  // ----- durable state and its history -----

  /** `landed` is every event whose file ever appeared in the queue, in order; the other lists
      hold positions in it. `received` is what the server accepted, in order of arrival. */
  datatype State = State(
    hash: Option<string>,
    inventory: seq<AssetRecord>,
    lastHeartbeat: nat,
    landed: seq<Envelope>,
    queue: seq<nat>,
    acknowledged: seq<nat>,
    setAside: seq<nat>,
    received: seq<nat>)

  ghost const FRESH: State := State(None, [], 0, [], [], [], [], [])

  /** One collection cycle: what was observed, and how far its writes got. `refused` is the
      full-queue refusal. A crash between two writes is the next write not happening. */
  datatype Cycle = Cycle(
    snapshot: Snapshot, now: nat, eventId: string, refused: bool,
    eventWrite: WriteOutcome, hashWrite: WriteOutcome, inventoryWrite: WriteOutcome, heartbeatWrite: WriteOutcome)

  datatype Action =
    | Collect(cycle: Cycle)
    | QueueHeartbeat(now: nat, eventId: string, refused: bool, eventWrite: WriteOutcome, heartbeatWrite: WriteOutcome)
    | Send(accepted: bool, removed: bool)
    | SetAside
    | Restart
    | DamageInventory
    | LoseHash

  predicate RemovalsAreTrustworthy(snapshot: Snapshot) {
    snapshot.errors == []
  }

  // ----- one collection cycle -----

  ghost function CycleChanges(s: State, c: Cycle): seq<AssetChange> {
    DiffOf(s.inventory, c.snapshot.records, RemovalsAreTrustworthy(c.snapshot))
  }

  ghost function CycleInventory(s: State, c: Cycle): seq<AssetRecord> {
    Effective(s.inventory, c.snapshot.records, RemovalsAreTrustworthy(c.snapshot))
  }

  ghost function CycleHash(cfg: Config, s: State, c: Cycle): string {
    cfg.sha(StableSnapshot(c.snapshot.schemaVersion, StableListing(CycleInventory(s, c))))
  }

  ghost predicate Changed(s: State, c: Cycle) {
    s.hash.None? || CycleChanges(s, c) != []
  }

  ghost predicate HeartbeatDue(cfg: Config, s: State, now: nat) {
    SaturatingSub(now, s.lastHeartbeat) >= cfg.heartbeatSeconds
  }

  ghost function CycleEvent(cfg: Config, s: State, c: Cycle): Envelope {
    var changed, first := Changed(s, c), s.hash.None?;
    Envelope(
      c.eventId, c.now,
      if changed then InventoryEvent else HeartbeatEvent,
      CycleHash(cfg, s, c),
      if changed && first then Some(c.snapshot) else None,
      if changed && !first then CycleChanges(s, c) else [],
      c.snapshot.errors)
  }

  /** The event of this cycle is in the queue afterwards, whatever the cycle returned. */
  ghost predicate EventLands(cfg: Config, s: State, c: Cycle) {
    (Changed(s, c) || HeartbeatDue(cfg, s, c.now)) && !c.refused && Landed(c.eventWrite)
  }

  ghost predicate HashLands(cfg: Config, s: State, c: Cycle) {
    EventLands(cfg, s, c) && Changed(s, c) && c.eventWrite.Durable? && Landed(c.hashWrite)
  }

  ghost predicate InventoryLands(cfg: Config, s: State, c: Cycle) {
    HashLands(cfg, s, c) && c.hashWrite.Durable? && Landed(c.inventoryWrite)
  }

  ghost predicate HeartbeatLands(cfg: Config, s: State, c: Cycle) {
    && EventLands(cfg, s, c) && c.eventWrite.Durable? && Landed(c.heartbeatWrite)
    && (Changed(s, c) ==> c.hashWrite.Durable? && c.inventoryWrite.Durable?)
  }

  /** The cycle stopped after its event was queued and before the baseline followed. */
  ghost predicate Interrupted(cfg: Config, s: State, c: Cycle) {
    EventLands(cfg, s, c) && Changed(s, c) && !InventoryLands(cfg, s, c)
  }

  ghost function Append(s: State, e: Envelope): State {
    s.(landed := s.landed + [e], queue := s.queue + [|s.landed|])
  }

  ghost function CollectStep(cfg: Config, s: State, c: Cycle): State {
    if !EventLands(cfg, s, c) then s else
      Append(s, CycleEvent(cfg, s, c)).(
        hash := if HashLands(cfg, s, c) then Some(CycleHash(cfg, s, c)) else s.hash,
        inventory := if InventoryLands(cfg, s, c) then CycleInventory(s, c) else s.inventory,
        lastHeartbeat := if HeartbeatLands(cfg, s, c) then c.now else s.lastHeartbeat)
  }

  // ----- the other steps -----

  ghost function HeartbeatEnvelope(s: State, now: nat, eventId: string): Envelope {
    Envelope(eventId, now, HeartbeatEvent, if s.hash.Some? then s.hash.value else "", None, [], [])
  }

  ghost function Step(cfg: Config, s: State, a: Action): State {
    match a
    case Collect(c) => CollectStep(cfg, s, c)
    case QueueHeartbeat(now, eventId, refused, eventWrite, heartbeatWrite) =>
      if refused || !Landed(eventWrite) then s
      else Append(s, HeartbeatEnvelope(s, now, eventId)).(
        lastHeartbeat := if eventWrite.Durable? && Landed(heartbeatWrite) then now else s.lastHeartbeat)
    case Send(accepted, removed) =>
      if s.queue == [] || !accepted then s
      else
        var t := s.(received := s.received + [s.queue[0]]);
        if removed then t.(queue := s.queue[1..], acknowledged := s.acknowledged + [s.queue[0]]) else t
    case SetAside =>
      if s.queue == [] then s
      else s.(queue := s.queue[1..], setAside := s.setAside + [s.queue[0]])
    case Restart => s
    case DamageInventory => s.(inventory := [])
    case LoseHash => s.(hash := None)
  }

  ghost function Run(cfg: Config, s: State, run: seq<Action>): State {
    if run == [] then s else Step(cfg, Run(cfg, s, run[..|run| - 1]), run[|run| - 1])
  }

  // ----- the reader of the events -----

  ghost function ApplyEvent(view: View, e: Envelope): View {
    ApplyChanges(if e.snapshot.Some? then ViewOfRecords(e.snapshot.value.records) else view, e.changes)
  }

  ghost predicate InRange(log: seq<nat>, n: nat) {
    forall i :: 0 <= i < |log| ==> log[i] < n
  }

  ghost function Replay(view: View, landed: seq<Envelope>, log: seq<nat>): View
    requires InRange(log, |landed|)
  {
    if log == [] then view
    else ApplyEvent(Replay(view, landed, log[..|log| - 1]), landed[log[|log| - 1]])
  }

  /** A log with immediate repeats removed. */
  ghost function Dedup(log: seq<nat>): (d: seq<nat>)
    ensures log != [] ==> d != [] && d[|d| - 1] == log[|log| - 1]
    ensures log == [] ==> d == []
  {
    if |log| <= 1 then log
    else
      var front := log[..|log| - 1];
      if log[|log| - 1] == front[|front| - 1] then Dedup(front) else Dedup(front) + [log[|log| - 1]]
  }

  lemma {:induction false} DedupMembers(log: seq<nat>)
    ensures forall p :: p in Dedup(log) <==> p in log
  {
    if |log| > 1 {
      var front := log[..|log| - 1];
      DedupMembers(front);
      assert log == front + [log[|log| - 1]];
    }
  }

  /** What the server will have accepted once everything still queued is delivered. */
  ghost function EventualLog(s: State): seq<nat> {
    Dedup(s.received) + (if HeadReceived(s) then s.queue[1..] else s.queue)
  }

  ghost predicate HeadReceived(s: State) {
    s.queue != [] && s.received != [] && s.received[|s.received| - 1] == s.queue[0]
  }

  ghost function EventualView(s: State): View
    requires Inv(s)
  {
    EventualLogInRange(s);
    Replay(map[], s.landed, EventualLog(s))
  }

  ghost function ServerView(s: State): View
    requires Inv(s)
  {
    Replay(map[], s.landed, s.received)
  }

  ghost function Baseline(s: State): View {
    ViewOfRecords(s.inventory)
  }

  // ----- what every run keeps about delivery -----

  ghost function Count(p: nat, s: State): nat {
    (if p in s.queue then 1 else 0) + (if p in s.acknowledged then 1 else 0) + (if p in s.setAside then 1 else 0)
  }

  ghost predicate Increasing(log: seq<nat>) {
    forall i, j :: 0 <= i < j < |log| ==> log[i] < log[j]
  }

  ghost predicate NonDecreasing(log: seq<nat>) {
    forall i, j :: 0 <= i < j < |log| ==> log[i] <= log[j]
  }

  ghost predicate Inv(s: State) {
    && InRange(s.queue, |s.landed|) && Increasing(s.queue)
    && InRange(s.acknowledged, |s.landed|) && Increasing(s.acknowledged)
    && InRange(s.setAside, |s.landed|) && Increasing(s.setAside)
    && InRange(s.received, |s.landed|) && NonDecreasing(s.received)
    && (forall p :: 0 <= p < |s.landed| ==> Count(p, s) == 1)
    && (forall p, q :: p in s.queue && (q in s.acknowledged || q in s.setAside) ==> q < p)
    && (forall p :: p in s.acknowledged ==> p in s.received)
    && (forall p :: p in s.received ==> p in s.acknowledged || p in s.setAside || (s.queue != [] && p == s.queue[0]))
  }

  lemma EventualLogInRange(s: State)
    requires Inv(s)
    ensures InRange(EventualLog(s), |s.landed|)
  {
    var d := Dedup(s.received);
    DedupMembers(s.received);
    forall i | 0 <= i < |d| ensures d[i] < |s.landed| {
      assert d[i] in d;
      var j :| 0 <= j < |s.received| && s.received[j] == d[i];
    }
  }

  lemma AppendCounts(s: State, e: Envelope)
    requires Inv(s)
    ensures forall p :: 0 <= p <= |s.landed| ==> Count(p, Append(s, e)) == 1
  {
    var t := Append(s, e);
    assert t.queue[|s.queue|] == |s.landed|;
    assert forall p :: p in t.queue <==> p in s.queue || p == |s.landed|;
    assert |s.landed| !in s.queue && |s.landed| !in s.acknowledged && |s.landed| !in s.setAside;
    forall p | 0 <= p <= |s.landed| ensures Count(p, t) == 1 {
      assert p < |s.landed| ==> Count(p, s) == 1;
    }
  }

  lemma AppendKeepsInv(s: State, e: Envelope)
    requires Inv(s)
    ensures Inv(Append(s, e))
  {
    var t := Append(s, e);
    AppendCounts(s, e);
    assert forall p :: p in t.queue <==> p in s.queue || p == |s.landed|;
    assert s.queue != [] ==> t.queue[0] == s.queue[0];
  }

  lemma SendKeepsInv(s: State)
    requires Inv(s) && s.queue != []
    ensures Inv(s.(received := s.received + [s.queue[0]]))
  {
    var t := s.(received := s.received + [s.queue[0]]);
    forall i | 0 <= i < |s.received| ensures s.received[i] <= s.queue[0] {
      assert s.received[i] in s.received;
      assert s.queue[0] in s.queue;
    }
    assert forall p :: p in t.received <==> p in s.received || p == s.queue[0];
    assert forall p :: Count(p, t) == Count(p, s);
  }

  lemma QueueTail(queue: seq<nat>, n: nat)
    requires queue != [] && InRange(queue, n) && Increasing(queue)
    ensures InRange(queue[1..], n) && Increasing(queue[1..])
    ensures forall p :: p in queue <==> p == queue[0] || p in queue[1..]
    ensures forall p :: p in queue[1..] ==> queue[0] < p
  {
    assert queue == [queue[0]] + queue[1..];
    forall p | p in queue[1..] ensures queue[0] < p {
      var i :| 0 <= i < |queue[1..]| && queue[1..][i] == p;
      assert queue[i + 1] == p;
    }
  }

  lemma Extend(log: seq<nat>, p: nat, n: nat)
    requires InRange(log, n) && Increasing(log) && p < n
    requires forall q :: q in log ==> q < p
    ensures InRange(log + [p], n) && Increasing(log + [p])
    ensures forall q :: q in log + [p] <==> q in log || q == p
  {
    assert forall i :: 0 <= i < |log| ==> log[i] in log;
  }

  lemma AcknowledgeKeepsInv(s: State)
    requires Inv(s) && HeadReceived(s)
    ensures Inv(s.(queue := s.queue[1..], acknowledged := s.acknowledged + [s.queue[0]]))
  {
    var t := s.(queue := s.queue[1..], acknowledged := s.acknowledged + [s.queue[0]]);
    assert s.queue[0] in s.queue;
    QueueTail(s.queue, |s.landed|);
    Extend(s.acknowledged, s.queue[0], |s.landed|);
    forall p | 0 <= p < |t.landed| ensures Count(p, t) == 1 {
      assert Count(p, s) == 1;
    }
    assert s.received[|s.received| - 1] in s.received;
  }

  lemma SetAsideKeepsInv(s: State)
    requires Inv(s) && s.queue != []
    ensures Inv(s.(queue := s.queue[1..], setAside := s.setAside + [s.queue[0]]))
  {
    var t := s.(queue := s.queue[1..], setAside := s.setAside + [s.queue[0]]);
    assert s.queue[0] in s.queue;
    QueueTail(s.queue, |s.landed|);
    Extend(s.setAside, s.queue[0], |s.landed|);
    forall p | 0 <= p < |t.landed| ensures Count(p, t) == 1 {
      assert Count(p, s) == 1;
    }
  }

  lemma StepKeepsInv(cfg: Config, s: State, a: Action)
    requires Inv(s)
    ensures Inv(Step(cfg, s, a))
  {
    match a
    case Collect(c) =>
      if EventLands(cfg, s, c) {
        AppendKeepsInv(s, CycleEvent(cfg, s, c));
        CountIgnores(Append(s, CycleEvent(cfg, s, c)), CollectStep(cfg, s, c));
      }
    case QueueHeartbeat(now, eventId, refused, eventWrite, heartbeatWrite) =>
      if !refused && Landed(eventWrite) {
        AppendKeepsInv(s, HeartbeatEnvelope(s, now, eventId));
        CountIgnores(Append(s, HeartbeatEnvelope(s, now, eventId)), Step(cfg, s, a));
      }
    case Send(accepted, removed) =>
      if s.queue != [] && accepted {
        SendKeepsInv(s);
        if removed { AcknowledgeKeepsInv(s.(received := s.received + [s.queue[0]])); }
      }
    case SetAside => if s.queue != [] { SetAsideKeepsInv(s); }
    case Restart =>
    case DamageInventory => CountIgnores(s, Step(cfg, s, a));
    case LoseHash => CountIgnores(s, Step(cfg, s, a));
  }

  /** The delivery lists alone decide the delivery invariant. */
  lemma CountIgnores(s: State, t: State)
    requires Inv(s)
    requires (t.landed, t.queue, t.acknowledged, t.setAside, t.received)
          == (s.landed, s.queue, s.acknowledged, s.setAside, s.received)
    ensures Inv(t)
  {
    assert forall p :: Count(p, t) == Count(p, s);
  }

  lemma {:induction false} RunKeepsInv(cfg: Config, s: State, run: seq<Action>)
    requires Inv(s)
    ensures Inv(Run(cfg, s, run))
  {
    if run != [] {
      RunKeepsInv(cfg, s, run[..|run| - 1]);
      StepKeepsInv(cfg, Run(cfg, s, run[..|run| - 1]), run[|run| - 1]);
    }
  }

  lemma FreshInv()
    ensures Inv(FRESH)
  {
  }

  lemma IncreasingAppend(log: seq<nat>, p: nat)
    requires Increasing(log) && forall q :: q in log ==> q < p
    ensures Increasing(log + [p])
  {
    assert forall i :: 0 <= i < |log| ==> log[i] in log;
  }

  lemma {:induction false} DedupIncreasing(log: seq<nat>)
    requires NonDecreasing(log)
    ensures Increasing(Dedup(log))
  {
    if |log| > 1 {
      var front, last := log[..|log| - 1], log[|log| - 1];
      DedupIncreasing(front);
      if last != front[|front| - 1] {
        DedupMembers(front);
        forall p | p in Dedup(front) ensures p < last {
          var i :| 0 <= i < |front| && front[i] == p;
          assert front[i] <= front[|front| - 1] < last;
        }
        IncreasingAppend(Dedup(front), last);
      }
    }
  }

  /** In every run: each event that reached the queue is in exactly one place; an event is
      acknowledged only after the server accepted it; and what the server accepts, with
      immediate repeats removed, is in the order in which the events were queued. */
  lemma DeliveryOrder(cfg: Config, run: seq<Action>)
    ensures var s := Run(cfg, FRESH, run);
      && (forall p :: 0 <= p < |s.landed| ==> Count(p, s) == 1)
      && Increasing(s.queue)
      && Increasing(Dedup(s.received))
      && (forall p :: p in s.acknowledged ==> p in s.received)
      && (forall p :: p in s.received ==>
           p in s.acknowledged || p in s.setAside || (s.queue != [] && p == s.queue[0]))
  {
    FreshInv();
    RunKeepsInv(cfg, FRESH, run);
    DedupIncreasing(Run(cfg, FRESH, run).received);
  }

  /** The queue order minus the events set aside. */
  ghost function Survivors(n: nat, setAside: seq<nat>): (log: seq<nat>)
    ensures Increasing(log) && forall p :: p in log <==> 0 <= p < n && p !in setAside
  {
    if n == 0 then [] else
      var front := Survivors(n - 1, setAside);
      assert forall i :: 0 <= i < |front| ==> front[i] in front;
      if n - 1 in setAside then front else front + [n - 1]
  }

  lemma IncreasingFront(a: seq<nat>)
    requires Increasing(a) && a != []
    ensures forall p :: p in a[..|a| - 1] <==> p in a && p != a[|a| - 1]
  {
    var front := a[..|a| - 1];
    assert a == front + [a[|a| - 1]];
    forall p | p in front ensures p != a[|a| - 1] {
      var i :| 0 <= i < |front| && front[i] == p;
      assert a[i] < a[|a| - 1];
    }
  }

  lemma {:induction false} IncreasingUnique(a: seq<nat>, b: seq<nat>)
    requires Increasing(a) && Increasing(b)
    requires forall p :: p in a <==> p in b
    ensures a == b
  {
    assert a != [] ==> a[|a| - 1] in b;
    assert b != [] ==> b[|b| - 1] in a;
    if a != [] {
      var x, y := a[|a| - 1], b[|b| - 1];
      assert x == y;
      IncreasingFront(a);
      IncreasingFront(b);
      var a', b' := a[..|a| - 1], b[..|b| - 1];
      forall p ensures p in a' <==> p in b' {
        assert p in a <==> p in b;
      }
      IncreasingUnique(a', b');
      assert a == a[..|a| - 1] + [x] && b == b[..|b| - 1] + [x];
    }
  }

  /** Once the queue is empty the server has seen the queue order minus the events set aside
      exactly when no event was set aside after the server had already accepted it. */
  lemma DrainedOrder(s: State)
    requires Inv(s) && s.queue == []
    ensures Dedup(s.received) == Survivors(|s.landed|, s.setAside)
      <==> forall p :: p in s.setAside ==> p !in s.received
  {
    DedupIncreasing(s.received);
    DedupMembers(s.received);
    var survivors := Survivors(|s.landed|, s.setAside);
    if forall p :: p in s.setAside ==> p !in s.received {
      forall p ensures p in Dedup(s.received) <==> p in survivors {
        if 0 <= p < |s.landed| { assert Count(p, s) == 1; }
        if p in s.received { var i :| 0 <= i < |s.received| && s.received[i] == p; }
      }
      IncreasingUnique(Dedup(s.received), survivors);
    }
    if Dedup(s.received) == survivors {
      forall p | p in s.setAside ensures p !in s.received {
        assert p !in survivors;
      }
    }
  }

  /** Such a run exists: an accepted event whose reply was lost turns unreadable before the retry. */
  lemma AcceptedThenSetAside(cfg: Config) returns (run: seq<Action>)
    ensures var s := Run(cfg, FRESH, run);
      Inv(s) && s.queue == [] && Dedup(s.received) == [0] && Survivors(|s.landed|, s.setAside) == []
  {
    var beat := QueueHeartbeat(0, "e", false, Durable, Durable);
    run := [beat, Send(true, false), SetAside];
    assert run[..2] == [beat, Send(true, false)] && run[..2][..1] == [beat] && [beat][..0] == [];
    assert Run(cfg, FRESH, []) == FRESH;
    var s1 := Step(cfg, FRESH, beat);
    assert Run(cfg, FRESH, run[..2][..1]) == s1;
    var s2 := Step(cfg, s1, Send(true, false));
    assert Run(cfg, FRESH, run[..2]) == s2;
    FreshInv();
    RunKeepsInv(cfg, FRESH, run);
    assert Survivors(0, [0]) == [];
  }

  // ----- replay -----

  lemma {:induction false} ReplayConcat(view: View, landed: seq<Envelope>, a: seq<nat>, b: seq<nat>)
    requires InRange(a, |landed|) && InRange(b, |landed|)
    ensures InRange(a + b, |landed|)
    ensures Replay(view, landed, a + b) == Replay(Replay(view, landed, a), landed, b)
  {
    if b == [] {
      assert a + b == a;
    } else {
      assert (a + b)[..|a + b| - 1] == a + b[..|b| - 1];
      ReplayConcat(view, landed, a, b[..|b| - 1]);
    }
  }

  lemma {:induction false} ReplayOlderEvents(view: View, landed: seq<Envelope>, e: Envelope, log: seq<nat>)
    requires InRange(log, |landed|)
    ensures Replay(view, landed + [e], log) == Replay(view, landed, log)
  {
    if log != [] {
      ReplayOlderEvents(view, landed, e, log[..|log| - 1]);
    }
  }

  lemma EventIdempotent(view: View, e: Envelope)
    ensures ApplyEvent(ApplyEvent(view, e), e) == ApplyEvent(view, e)
  {
    ApplyIdempotent(if e.snapshot.Some? then ViewOfRecords(e.snapshot.value.records) else view, e.changes);
  }

  lemma EventKeepsAgreement(v: View, w: View, e: Envelope, except: set<string>)
    requires AgreeOutside(v, w, except)
    ensures AgreeOutside(ApplyEvent(v, e), ApplyEvent(w, e), except)
  {
    if e.snapshot.None? {
      forall k | k !in except ensures AgreeAt(ApplyEvent(v, e), ApplyEvent(w, e), k) {
        ApplyTouched(v, w, e.changes, k);
      }
    }
  }

  lemma {:induction false} ReplayKeepsAgreement(v: View, w: View, landed: seq<Envelope>, log: seq<nat>,
                                                except: set<string>)
    requires InRange(log, |landed|) && AgreeOutside(v, w, except)
    ensures AgreeOutside(Replay(v, landed, log), Replay(w, landed, log), except)
  {
    if log != [] {
      ReplayKeepsAgreement(v, w, landed, log[..|log| - 1], except);
      EventKeepsAgreement(Replay(v, landed, log[..|log| - 1]), Replay(w, landed, log[..|log| - 1]),
                          landed[log[|log| - 1]], except);
    }
  }

  /** Repeated deliveries leave no trace in what the server holds. */
  lemma {:induction false} RepeatsAreHarmless(landed: seq<Envelope>, log: seq<nat>)
    requires InRange(log, |landed|)
    ensures InRange(Dedup(log), |landed|)
    ensures Replay(map[], landed, log) == Replay(map[], landed, Dedup(log))
  {
    if |log| > 1 {
      var front, last := log[..|log| - 1], log[|log| - 1];
      RepeatsAreHarmless(landed, front);
      if last == front[|front| - 1] {
        EventIdempotent(Replay(map[], landed, front[..|front| - 1]), landed[last]);
      } else {
        assert Dedup(log)[..|Dedup(log)| - 1] == Dedup(front);
      }
    }
  }

  // ----- how each step moves the eventual log -----

  lemma LogAfterAppend(s: State, e: Envelope)
    requires Inv(s)
    ensures EventualLog(Append(s, e)) == EventualLog(s) + [|s.landed|]
  {
    var t := Append(s, e);
    if s.received != [] {
      assert s.received[|s.received| - 1] < |s.landed|;
    }
    if s.queue != [] {
      assert t.queue[0] == s.queue[0];
      assert t.queue[1..] == s.queue[1..] + [|s.landed|];
    }
  }

  lemma ViewAfterAppend(s: State, e: Envelope)
    requires Inv(s)
    ensures Inv(Append(s, e))
    ensures EventualView(Append(s, e)) == ApplyEvent(EventualView(s), e)
  {
    AppendKeepsInv(s, e);
    var t := Append(s, e);
    LogAfterAppend(s, e);
    EventualLogInRange(s);
    EventualLogInRange(t);
    assert EventualLog(t)[..|EventualLog(t)| - 1] == EventualLog(s);
    ReplayOlderEvents(map[], s.landed, e, EventualLog(s));
  }

  lemma DedupAppend(log: seq<nat>, p: nat)
    ensures Dedup(log + [p]) == if log != [] && log[|log| - 1] == p then Dedup(log) else Dedup(log) + [p]
  {
    assert (log + [p])[..|log|] == log;
  }

  lemma LogAfterSend(cfg: Config, s: State, removed: bool)
    requires Inv(s) && s.queue != []
    ensures EventualLog(Step(cfg, s, Send(true, removed))) == EventualLog(s)
  {
    var t := Step(cfg, s, Send(true, removed));
    QueueTail(s.queue, |s.landed|);
    assert removed && t.queue != [] ==> t.queue[0] in s.queue[1..];
    assert HeadReceived(t) <==> !removed;
    LogOfSend(s.received, s.queue);
  }

  lemma LogOfSend(received: seq<nat>, queue: seq<nat>)
    requires queue != []
    ensures Dedup(received + [queue[0]]) + queue[1..]
         == Dedup(received) + if received != [] && received[|received| - 1] == queue[0] then queue[1..] else queue
  {
    DedupAppend(received, queue[0]);
    HeadFirst(Dedup(received), queue);
  }

  lemma HeadFirst(log: seq<nat>, queue: seq<nat>)
    requires queue != []
    ensures log + [queue[0]] + queue[1..] == log + queue
  {
  }

  lemma LogAfterSetAside(cfg: Config, s: State)
    requires Inv(s) && s.queue != []
    ensures EventualLog(Step(cfg, s, SetAside)) == Dedup(s.received) + s.queue[1..]
  {
    var t := Step(cfg, s, SetAside);
    QueueTail(s.queue, |s.landed|);
    assert s.queue[0] in s.queue;
    assert t.queue != [] ==> t.queue[0] in s.queue[1..];
    assert s.received != [] ==> s.received[|s.received| - 1] in s.received;
    assert !HeadReceived(t);
  }

  // ----- where the reader and the baseline may differ -----

  /** The identifiers on which dropping this event can make a difference. */
  ghost function Influence(before: View, e: Envelope): set<string> {
    Touched(e.changes)
    + (if e.snapshot.Some? then before.Keys + ViewOfRecords(e.snapshot.value.records).Keys else {})
  }

  ghost function SeenView(s: State): View
    requires Inv(s)
  {
    RepeatsAreHarmless(s.landed, s.received);
    Replay(map[], s.landed, Dedup(s.received))
  }

  /** The identifiers under suspicion: only an interrupted cycle, a damaged file or an event
      set aside unseen adds any; completed cycles clear what they report. */
  ghost function SuspectStep(cfg: Config, s: State, suspect: set<string>, a: Action): set<string>
    requires Inv(s)
  {
    match a
    case Collect(c) =>
      var p, q := Index(s.inventory).Keys, Index(c.snapshot.records).Keys;
      if !EventLands(cfg, s, c) || !Changed(s, c) then suspect
      else if s.hash.None? then
        if Interrupted(cfg, s, c) then p + q
        else if RemovalsAreTrustworthy(c.snapshot) then {} else p - q
      else
        if Interrupted(cfg, s, c) then suspect + Touched(CycleChanges(s, c))
        else suspect - Touched(CycleChanges(s, c))
    case SetAside =>
      if s.queue == [] || HeadReceived(s) then suspect
      else suspect + Influence(SeenView(s), s.landed[s.queue[0]])
    case DamageInventory => suspect + Index(s.inventory).Keys
    case _ => suspect
  }

  ghost function Suspect(cfg: Config, s: State, run: seq<Action>): set<string>
    requires Inv(s)
  {
    if run == [] then {} else
      var front := run[..|run| - 1];
      RunKeepsInv(cfg, s, front);
      SuspectStep(cfg, Run(cfg, s, front), Suspect(cfg, s, front), run[|run| - 1])
  }

  ghost predicate InSync(s: State, suspect: set<string>)
    requires Inv(s)
  {
    AgreeOutside(EventualView(s), Baseline(s), suspect)
  }

  /** The event of a cycle is all that the reader learns from it. */
  lemma ViewAfterCycle(cfg: Config, s: State, c: Cycle)
    requires Inv(s) && EventLands(cfg, s, c)
    ensures Inv(CollectStep(cfg, s, c))
    ensures EventualView(CollectStep(cfg, s, c)) == ApplyEvent(EventualView(s), CycleEvent(cfg, s, c))
  {
    var e, t := CycleEvent(cfg, s, c), CollectStep(cfg, s, c);
    ViewAfterAppend(s, e);
    StepKeepsInv(cfg, s, Collect(c));
    SameDelivery(Append(s, e), t);
  }

  lemma SameDelivery(s: State, t: State)
    requires Inv(s) && Inv(t) && t.landed == s.landed && t.queue == s.queue && t.received == s.received
    ensures EventualView(t) == EventualView(s)
  {
    SameLog(s, t);
  }

  lemma SameLog(s: State, t: State)
    requires Inv(s) && Inv(t) && t.landed == s.landed && EventualLog(t) == EventualLog(s)
    ensures EventualView(t) == EventualView(s)
  {
  }

  lemma SnapshotViews(previous: seq<AssetRecord>, current: seq<AssetRecord>, allow: bool)
    ensures AgreeOutside(ViewOfRecords(current), ViewOfRecords(previous), Index(previous).Keys + Index(current).Keys)
    ensures AgreeOutside(ViewOfRecords(current), ViewOfRecords(Effective(previous, current, allow)),
                         if allow then {} else Index(previous).Keys - Index(current).Keys)
  {
    EffectiveView(previous, current, allow);
    var view, after := ViewOfRecords(current), ViewOfRecords(Effective(previous, current, allow));
    forall k | allow || k !in Index(previous).Keys - Index(current).Keys ensures AgreeAt(view, after, k) {
    }
    forall k | k !in Index(previous).Keys + Index(current).Keys ensures AgreeAt(view, ViewOfRecords(previous), k) {
    }
  }

  lemma SnapshotCycleInSync(cfg: Config, s: State, c: Cycle)
    requires Inv(s) && EventLands(cfg, s, c) && s.hash.None?
    ensures Inv(CollectStep(cfg, s, c))
    ensures InSync(CollectStep(cfg, s, c), SuspectStep(cfg, s, {}, Collect(c)))
  {
    ViewAfterCycle(cfg, s, c);
    SnapshotEvent(cfg, s, c);
    SnapshotViews(s.inventory, c.snapshot.records, RemovalsAreTrustworthy(c.snapshot));
    BaselineAfterCycle(cfg, s, c);
  }

  lemma SnapshotEvent(cfg: Config, s: State, c: Cycle)
    requires s.hash.None?
    ensures forall view :: ApplyEvent(view, CycleEvent(cfg, s, c)) == ViewOfRecords(c.snapshot.records)
  {
  }

  lemma BaselineAfterCycle(cfg: Config, s: State, c: Cycle)
    requires EventLands(cfg, s, c) && Changed(s, c)
    ensures Baseline(CollectStep(cfg, s, c))
         == ViewOfRecords(if Interrupted(cfg, s, c) then s.inventory else CycleInventory(s, c))
  {
  }

  lemma PatchCycleInSync(cfg: Config, s: State, suspect: set<string>, c: Cycle)
    requires Inv(s) && InSync(s, suspect) && EventLands(cfg, s, c) && s.hash.Some? && Changed(s, c)
    ensures Inv(CollectStep(cfg, s, c))
    ensures InSync(CollectStep(cfg, s, c), SuspectStep(cfg, s, suspect, Collect(c)))
  {
    var t, changes := CollectStep(cfg, s, c), CycleChanges(s, c);
    var suspect' := SuspectStep(cfg, s, suspect, Collect(c));
    ViewAfterCycle(cfg, s, c);
    BaselineAfterCycle(cfg, s, c);
    var before, after := EventualView(s), EventualView(t);
    assert after == ApplyChanges(before, changes);
    DiffIsPatch(s.inventory, c.snapshot.records, RemovalsAreTrustworthy(c.snapshot));
    forall k | k !in suspect' ensures AgreeAt(after, Baseline(t), k) {
      if Interrupted(cfg, s, c) {
        ApplyUntouched(before, changes, k);
        assert AgreeAt(before, Baseline(s), k);
      } else {
        assert k in Touched(changes) || AgreeAt(before, Baseline(s), k);
        ApplyTouched(before, Baseline(s), changes, k);
      }
    }
  }

  lemma QuietCycleInSync(cfg: Config, s: State, suspect: set<string>, c: Cycle)
    requires Inv(s) && InSync(s, suspect) && !Changed(s, c)
    ensures Inv(CollectStep(cfg, s, c)) && InSync(CollectStep(cfg, s, c), suspect)
  {
    QuietCycleView(cfg, s, c);
  }

  lemma QuietCycleView(cfg: Config, s: State, c: Cycle)
    requires Inv(s) && !Changed(s, c)
    ensures Inv(CollectStep(cfg, s, c)) && Baseline(CollectStep(cfg, s, c)) == Baseline(s)
    ensures EventualView(CollectStep(cfg, s, c)) == EventualView(s)
  {
    if EventLands(cfg, s, c) { ViewAfterCycle(cfg, s, c); }
  }

  lemma DropInfluence(before: View, e: Envelope)
    ensures AgreeOutside(ApplyEvent(before, e), before, Influence(before, e))
  {
    var base := if e.snapshot.Some? then ViewOfRecords(e.snapshot.value.records) else before;
    forall k | k !in Influence(before, e) ensures AgreeAt(ApplyEvent(before, e), before, k) {
      ApplyUntouched(base, e.changes, k);
    }
  }

  lemma ViewWithHead(s: State)
    requires Inv(s) && s.queue != [] && !HeadReceived(s)
    ensures InRange(s.queue[1..], |s.landed|)
    ensures EventualView(s) == Replay(ApplyEvent(SeenView(s), s.landed[s.queue[0]]), s.landed, s.queue[1..])
  {
    var seen := Dedup(s.received);
    QueueTail(s.queue, |s.landed|);
    RepeatsAreHarmless(s.landed, s.received);
    ReplayMiddle(s.landed, seen, s.queue[0], s.queue[1..]);
    HeadFirst(seen, s.queue);
    ViewOfLog(s, seen + [s.queue[0]] + s.queue[1..]);
  }

  lemma ViewWithoutHead(cfg: Config, s: State)
    requires Inv(s) && s.queue != []
    ensures Inv(Step(cfg, s, SetAside)) && InRange(s.queue[1..], |s.landed|)
    ensures EventualView(Step(cfg, s, SetAside)) == Replay(SeenView(s), s.landed, s.queue[1..])
  {
    var seen := Dedup(s.received);
    StepKeepsInv(cfg, s, SetAside);
    QueueTail(s.queue, |s.landed|);
    RepeatsAreHarmless(s.landed, s.received);
    ReplayConcat(map[], s.landed, seen, s.queue[1..]);
    LogAfterSetAside(cfg, s);
    ViewOfLog(Step(cfg, s, SetAside), seen + s.queue[1..]);
  }

  lemma ViewOfLog(s: State, log: seq<nat>)
    requires Inv(s) && EventualLog(s) == log && InRange(log, |s.landed|)
    ensures EventualView(s) == Replay(map[], s.landed, log)
  {
  }

  lemma ReplayMiddle(landed: seq<Envelope>, seen: seq<nat>, head: nat, rest: seq<nat>)
    requires InRange(seen, |landed|) && head < |landed| && InRange(rest, |landed|)
    ensures InRange(seen + [head] + rest, |landed|)
    ensures Replay(map[], landed, seen + [head] + rest)
         == Replay(ApplyEvent(Replay(map[], landed, seen), landed[head]), landed, rest)
  {
    ReplayConcat(map[], landed, seen + [head], rest);
    assert (seen + [head])[..|seen|] == seen;
  }

  lemma SetAsideInSync(cfg: Config, s: State, suspect: set<string>)
    requires Inv(s) && InSync(s, suspect) && s.queue != []
    ensures Inv(Step(cfg, s, SetAside))
    ensures InSync(Step(cfg, s, SetAside), SuspectStep(cfg, s, suspect, SetAside))
  {
    var t := Step(cfg, s, SetAside);
    StepKeepsInv(cfg, s, SetAside);
    if HeadReceived(s) {
      LogAfterSetAside(cfg, s);
    } else {
      var seen, e := SeenView(s), s.landed[s.queue[0]];
      ViewWithHead(s);
      ViewWithoutHead(cfg, s);
      DropInfluence(seen, e);
      ReplayKeepsAgreement(ApplyEvent(seen, e), seen, s.landed, s.queue[1..], Influence(seen, e));
      forall k | k !in SuspectStep(cfg, s, suspect, SetAside) ensures AgreeAt(EventualView(t), Baseline(t), k) {
        assert AgreeAt(EventualView(s), EventualView(t), k);
        assert AgreeAt(EventualView(s), Baseline(s), k);
      }
    }
  }

  lemma StepInSync(cfg: Config, s: State, suspect: set<string>, a: Action)
    requires Inv(s) && InSync(s, suspect)
    ensures Inv(Step(cfg, s, a))
    ensures InSync(Step(cfg, s, a), SuspectStep(cfg, s, suspect, a))
  {
    StepKeepsInv(cfg, s, a);
    match a
    case Collect(c) => CollectInSync(cfg, s, suspect, c);
    case QueueHeartbeat(_, _, _, _, _) => HeartbeatView(cfg, s, a);
    case Send(accepted, removed) => SendView(cfg, s, accepted, removed);
    case SetAside => if s.queue != [] { SetAsideInSync(cfg, s, suspect); }
    case Restart =>
    case DamageInventory => DamageInSync(cfg, s, suspect);
    case LoseHash => SameDelivery(s, Step(cfg, s, a));
  }

  lemma HeartbeatView(cfg: Config, s: State, a: Action)
    requires Inv(s) && a.QueueHeartbeat?
    ensures Inv(Step(cfg, s, a))
    ensures EventualView(Step(cfg, s, a)) == EventualView(s) && Step(cfg, s, a).inventory == s.inventory
  {
    StepKeepsInv(cfg, s, a);
    if !a.refused && Landed(a.eventWrite) {
      var e := HeartbeatEnvelope(s, a.now, a.eventId);
      ViewAfterAppend(s, e);
      SameDelivery(Append(s, e), Step(cfg, s, a));
    }
  }

  lemma SendView(cfg: Config, s: State, accepted: bool, removed: bool)
    requires Inv(s)
    ensures Inv(Step(cfg, s, Send(accepted, removed)))
    ensures EventualView(Step(cfg, s, Send(accepted, removed))) == EventualView(s)
    ensures Step(cfg, s, Send(accepted, removed)).inventory == s.inventory
  {
    StepKeepsInv(cfg, s, Send(accepted, removed));
    if s.queue != [] && accepted {
      LogAfterSend(cfg, s, removed);
      SameLog(s, Step(cfg, s, Send(accepted, removed)));
    }
  }

  lemma CollectInSync(cfg: Config, s: State, suspect: set<string>, c: Cycle)
    requires Inv(s) && InSync(s, suspect)
    ensures Inv(Step(cfg, s, Collect(c)))
    ensures InSync(Step(cfg, s, Collect(c)), SuspectStep(cfg, s, suspect, Collect(c)))
  {
    if !Changed(s, c) {
      QuietCycleInSync(cfg, s, suspect, c);
    } else if EventLands(cfg, s, c) {
      if s.hash.None? { SnapshotCycleInSync(cfg, s, c); } else { PatchCycleInSync(cfg, s, suspect, c); }
    }
  }

  lemma DamageInSync(cfg: Config, s: State, suspect: set<string>)
    requires Inv(s) && InSync(s, suspect)
    ensures Inv(Step(cfg, s, DamageInventory))
    ensures InSync(Step(cfg, s, DamageInventory), SuspectStep(cfg, s, suspect, DamageInventory))
  {
    var t := Step(cfg, s, DamageInventory);
    StepKeepsInv(cfg, s, DamageInventory);
    SameDelivery(s, t);
    forall k | k !in suspect + Index(s.inventory).Keys ensures AgreeAt(EventualView(t), Baseline(t), k) {
      assert AgreeAt(EventualView(s), Baseline(s), k);
    }
  }

  /** In every run whatsoever, the events the server accepted or will be sent rebuild the
      stored baseline on every identifier that is not under suspicion. */
  lemma {:induction false} EveryRunInSync(cfg: Config, run: seq<Action>)
    ensures Inv(FRESH) && Inv(Run(cfg, FRESH, run))
    ensures InSync(Run(cfg, FRESH, run), Suspect(cfg, FRESH, run))
  {
    FreshInv();
    RunKeepsInv(cfg, FRESH, run);
    if run != [] {
      var front := run[..|run| - 1];
      EveryRunInSync(cfg, front);
      StepInSync(cfg, Run(cfg, FRESH, front), Suspect(cfg, FRESH, front), run[|run| - 1]);
    }
  }

  // ----- runs without faults, and runs with crashes only -----

  ghost predicate NoDamage(run: seq<Action>) {
    forall i :: 0 <= i < |run| ==> !run[i].SetAside? && !run[i].DamageInventory? && !run[i].LoseHash?
  }

  /** The identifiers named by events whose cycle stopped before the baseline followed. */
  ghost function InterruptedKeys(cfg: Config, s: State, run: seq<Action>): set<string> {
    if run == [] then {} else
      var front, last := run[..|run| - 1], run[|run| - 1];
      var t := Run(cfg, s, front);
      InterruptedKeys(cfg, s, front)
      + (if last.Collect? && Interrupted(cfg, t, last.cycle) then Mentioned(CycleEvent(cfg, t, last.cycle)) else {})
  }

  ghost function Mentioned(e: Envelope): set<string> {
    Touched(e.changes) + (if e.snapshot.Some? then Index(e.snapshot.value.records).Keys else {})
  }

  ghost predicate HashGuardsBaseline(s: State) {
    s.hash.None? ==> s.inventory == []
  }

  /** Without damage, no stored hash means an empty baseline: the hash is written first. */
  lemma {:induction false} NoHashNoBaseline(cfg: Config, run: seq<Action>)
    requires NoDamage(run)
    ensures HashGuardsBaseline(Run(cfg, FRESH, run))
  {
    if run != [] {
      NoHashNoBaseline(cfg, run[..|run| - 1]);
    }
  }

  /** Damage aside, only identifiers named by an interrupted cycle's event are ever suspect. */
  lemma {:induction false} SuspectsAreInterrupted(cfg: Config, run: seq<Action>)
    requires NoDamage(run)
    ensures Inv(FRESH) && Suspect(cfg, FRESH, run) <= InterruptedKeys(cfg, FRESH, run)
  {
    FreshInv();
    if run != [] {
      var front, last := run[..|run| - 1], run[|run| - 1];
      SuspectsAreInterrupted(cfg, front);
      NoHashNoBaseline(cfg, front);
      RunKeepsInv(cfg, FRESH, front);
      var t := Run(cfg, FRESH, front);
      assert t.hash.None? ==> Index(t.inventory).Keys == {};
      if last.Collect? {
        CollectSuspects(cfg, t, Suspect(cfg, FRESH, front), last.cycle);
      }
    }
  }

  lemma CollectSuspects(cfg: Config, t: State, suspect: set<string>, c: Cycle)
    requires Inv(t) && HashGuardsBaseline(t)
    ensures SuspectStep(cfg, t, suspect, Collect(c))
         <= suspect + (if Interrupted(cfg, t, c) then Mentioned(CycleEvent(cfg, t, c)) else {})
  {
    assert t.hash.None? ==> Index(t.inventory).Keys == {};
  }

  /** Crashes may fall between any two writes: reader and baseline still agree on every
      identifier that no interrupted cycle's event names. */
  lemma CrashRunsInSync(cfg: Config, run: seq<Action>)
    requires NoDamage(run)
    ensures Inv(Run(cfg, FRESH, run))
    ensures InSync(Run(cfg, FRESH, run), InterruptedKeys(cfg, FRESH, run))
  {
    EveryRunInSync(cfg, run);
    SuspectsAreInterrupted(cfg, run);
  }

  // ----- where exactly they differ -----

  ghost predicate Differ(s: State, k: string)
    requires Inv(s)
  {
    !AgreeAt(EventualView(s), Baseline(s), k)
  }

  /** The suspects are the identifiers on which reader and baseline differ, no more and no less. */
  ghost predicate ExactlyAt(s: State, suspect: set<string>)
    requires Inv(s)
  {
    forall k :: k in suspect <==> Differ(s, k)
  }

  lemma SnapshotSuspects(cfg: Config, s: State, suspect: set<string>, c: Cycle, k: string)
    requires Inv(s) && s.hash.None? && s.inventory == [] && EventLands(cfg, s, c)
    ensures Inv(CollectStep(cfg, s, c))
    ensures k in SuspectStep(cfg, s, suspect, Collect(c)) <==> Differ(CollectStep(cfg, s, c), k)
  {
    var records, allow := c.snapshot.records, RemovalsAreTrustworthy(c.snapshot);
    ViewAfterCycle(cfg, s, c);
    SnapshotEvent(cfg, s, c);
    BaselineAfterCycle(cfg, s, c);
    EmptyBaseline(records, allow);
  }

  /** Over an empty baseline the effective inventory shows what the cycle observed. */
  lemma EmptyBaseline(records: seq<AssetRecord>, allow: bool)
    ensures Index([]) == map[] && ViewOfRecords([]) == map[]
    ensures ViewOfRecords(Effective([], records, allow)) == ViewOfRecords(records)
    ensures ViewOfRecords(records).Keys == Index(records).Keys
  {
    EffectiveView([], records, allow);
    assert Index([]) + Index(records) == Index(records);
  }

  lemma PatchSuspects(cfg: Config, s: State, suspect: set<string>, c: Cycle, k: string)
    requires Inv(s) && ExactlyAt(s, suspect) && s.hash.Some? && EventLands(cfg, s, c) && Changed(s, c)
    ensures Inv(CollectStep(cfg, s, c))
    ensures k in SuspectStep(cfg, s, suspect, Collect(c)) <==> Differ(CollectStep(cfg, s, c), k)
  {
    var t, changes := CollectStep(cfg, s, c), CycleChanges(s, c);
    ViewAfterCycle(cfg, s, c);
    BaselineAfterCycle(cfg, s, c);
    assert EventualView(t) == ApplyChanges(EventualView(s), changes);
    assert k in suspect <==> Differ(s, k);
    PatchedAt(EventualView(s), s.inventory, c.snapshot.records, RemovalsAreTrustworthy(c.snapshot), k);
  }

  /** What a patch does to any reader: on what it names the reader gets the new inventory, which
      is not the old one there; elsewhere it keeps what it had, and the two inventories agree. */
  lemma PatchedAt(view: View, previous: seq<AssetRecord>, current: seq<AssetRecord>, allow: bool, k: string)
    ensures var changes := DiffOf(previous, current, allow);
      var before, after := ViewOfRecords(previous), ViewOfRecords(Effective(previous, current, allow));
      && (k in Touched(changes) <==> !AgreeAt(before, after, k))
      && AgreeAt(ApplyChanges(view, changes), if k in Touched(changes) then after else view, k)
  {
    var changes := DiffOf(previous, current, allow);
    DiffNamesDisagreements(previous, current, allow);
    if k in Touched(changes) {
      DiffIsPatch(previous, current, allow);
      ApplyTouched(view, ViewOfRecords(previous), changes, k);
    } else {
      ApplyUntouched(view, changes, k);
    }
  }

  lemma StepSuspects(cfg: Config, s: State, suspect: set<string>, a: Action)
    requires Inv(s) && ExactlyAt(s, suspect) && HashGuardsBaseline(s) && NoDamage([a])
    ensures Inv(Step(cfg, s, a)) && ExactlyAt(Step(cfg, s, a), SuspectStep(cfg, s, suspect, a))
  {
    assert [a][0] == a;
    StepKeepsInv(cfg, s, a);
    match a
    case Collect(c) => CycleSuspects(cfg, s, suspect, c);
    case QueueHeartbeat(_, _, _, _, _) => HeartbeatView(cfg, s, a);
    case Send(accepted, removed) => SendView(cfg, s, accepted, removed);
    case Restart =>
  }

  lemma CycleSuspects(cfg: Config, s: State, suspect: set<string>, c: Cycle)
    requires Inv(s) && ExactlyAt(s, suspect) && HashGuardsBaseline(s)
    ensures Inv(CollectStep(cfg, s, c))
    ensures ExactlyAt(CollectStep(cfg, s, c), SuspectStep(cfg, s, suspect, Collect(c)))
  {
    StepKeepsInv(cfg, s, Collect(c));
    if !EventLands(cfg, s, c) {
      assert CollectStep(cfg, s, c) == s;
    } else if !Changed(s, c) {
      QuietCycleView(cfg, s, c);
    } else {
      forall k ensures k in SuspectStep(cfg, s, suspect, Collect(c)) <==> Differ(CollectStep(cfg, s, c), k) {
        if s.hash.None? { SnapshotSuspects(cfg, s, suspect, c, k); } else { PatchSuspects(cfg, s, suspect, c, k); }
      }
    }
  }

  /** Crashes may fall between any two writes: in every undamaged run, reader and baseline differ
      on an identifier exactly when it is a suspect. */
  lemma {:induction false} SuspectsExact(cfg: Config, run: seq<Action>)
    requires NoDamage(run)
    ensures Inv(FRESH) && Inv(Run(cfg, FRESH, run))
    ensures ExactlyAt(Run(cfg, FRESH, run), Suspect(cfg, FRESH, run))
  {
    FreshInv();
    RunKeepsInv(cfg, FRESH, run);
    if run != [] {
      var front, last := run[..|run| - 1], run[|run| - 1];
      SuspectsExact(cfg, front);
      NoHashNoBaseline(cfg, front);
      assert NoDamage([last]);
      StepSuspects(cfg, Run(cfg, FRESH, front), Suspect(cfg, FRESH, front), last);
    }
  }

  /** So the reader holds exactly the baseline when, and only when, nothing is a suspect. */
  lemma ReaderHoldsBaselineIff(cfg: Config, run: seq<Action>)
    requires NoDamage(run)
    ensures Inv(FRESH) && Inv(Run(cfg, FRESH, run))
    ensures EventualView(Run(cfg, FRESH, run)) == Baseline(Run(cfg, FRESH, run)) <==> Suspect(cfg, FRESH, run) == {}
  {
    SuspectsExact(cfg, run);
    var s := Run(cfg, FRESH, run);
    AgreeEverywhere(EventualView(s), Baseline(s));
    if EventualView(s) == Baseline(s) {
      assert forall k :: !Differ(s, k);
    }
  }

  /** The cycle reported this identifier, or reported everything. */
  ghost predicate Reports(s: State, c: Cycle, k: string) {
    if s.hash.None? then true else k in Touched(CycleChanges(s, c))
  }

  /** In every undamaged run a difference ends exactly with a completed cycle that reports the
      identifier (or a full snapshot without it, completed or not), and begins exactly with an
      interrupted cycle whose event names it. */
  lemma DifferenceEnds(cfg: Config, run: seq<Action>, a: Action, k: string)
    requires NoDamage(run) && NoDamage([a])
    ensures var s := Run(cfg, FRESH, run);
      && Inv(s) && Inv(Step(cfg, s, a))
      && (Differ(s, k) ==>
            (!Differ(Step(cfg, s, a), k) <==>
               a.Collect? && EventLands(cfg, s, a.cycle) && Changed(s, a.cycle) && Reports(s, a.cycle, k)
               && (Interrupted(cfg, s, a.cycle) ==> s.hash.None? && k !in Index(a.cycle.snapshot.records))))
      && (!Differ(s, k) ==>
            (Differ(Step(cfg, s, a), k) <==>
               a.Collect? && Interrupted(cfg, s, a.cycle) && k in Mentioned(CycleEvent(cfg, s, a.cycle))))
  {
    var s, suspect := Run(cfg, FRESH, run), Suspect(cfg, FRESH, run);
    SuspectsExact(cfg, run);
    NoHashNoBaseline(cfg, run);
    assert [a][0] == a;
    StepSuspects(cfg, s, suspect, a);
    assert k in suspect <==> Differ(s, k);
    assert k in SuspectStep(cfg, s, suspect, a) <==> Differ(Step(cfg, s, a), k);
    assert s.hash.None? ==> Index(s.inventory).Keys == {};
  }

  ghost predicate NeverInterrupted(cfg: Config, run: seq<Action>) {
    forall i :: 0 <= i < |run| && run[i].Collect? ==> !Interrupted(cfg, Run(cfg, FRESH, run[..i]), run[i].cycle)
  }

  lemma {:induction false} NothingInterrupted(cfg: Config, run: seq<Action>)
    requires NeverInterrupted(cfg, run)
    ensures InterruptedKeys(cfg, FRESH, run) == {}
  {
    if run != [] {
      var front := run[..|run| - 1];
      forall i | 0 <= i < |front| && front[i].Collect?
        ensures !Interrupted(cfg, Run(cfg, FRESH, front[..i]), front[i].cycle)
      {
        assert front[..i] == run[..i];
      }
      NothingInterrupted(cfg, front);
    }
  }

  /** Without interruption or damage, but with any mix of clean and degraded cycles, full-queue
      refusals, failed sends and lost replies, the accepted events followed by the pending ones
      rebuild the stored baseline exactly. */
  lemma {:induction false} FaultFreeRunsExact(cfg: Config, run: seq<Action>)
    requires NoDamage(run) && NeverInterrupted(cfg, run)
    ensures Inv(Run(cfg, FRESH, run))
    ensures EventualView(Run(cfg, FRESH, run)) == Baseline(Run(cfg, FRESH, run))
  {
    CrashRunsInSync(cfg, run);
    NothingInterrupted(cfg, run);
    var s := Run(cfg, FRESH, run);
    AgreeEverywhere(EventualView(s), Baseline(s));
  }

  /** Once nothing is pending, the server itself - repeats and all - holds the baseline. */
  lemma DrainedServerHoldsBaseline(cfg: Config, run: seq<Action>)
    requires NoDamage(run) && NeverInterrupted(cfg, run) && Run(cfg, FRESH, run).queue == []
    ensures var s := Run(cfg, FRESH, run); Inv(s) && ServerView(s) == Baseline(s)
  {
    FaultFreeRunsExact(cfg, run);
    var s := Run(cfg, FRESH, run);
    RepeatsAreHarmless(s.landed, s.received);
    assert EventualLog(s) == Dedup(s.received);
  }

  /** A completed clean cycle that sends a full snapshot clears every earlier disagreement. */
  lemma FullSnapshotClears(cfg: Config, s: State, c: Cycle)
    requires Inv(s) && s.hash.None? && RemovalsAreTrustworthy(c.snapshot)
    requires EventLands(cfg, s, c) && !Interrupted(cfg, s, c)
    ensures Inv(CollectStep(cfg, s, c))
    ensures EventualView(CollectStep(cfg, s, c)) == Baseline(CollectStep(cfg, s, c))
  {
    SnapshotCycleInSync(cfg, s, c);
    var t := CollectStep(cfg, s, c);
    AgreeEverywhere(EventualView(t), Baseline(t));
  }

  /** A completed patch clears the identifiers it names. */
  lemma PatchClears(cfg: Config, s: State, suspect: set<string>, c: Cycle)
    requires Inv(s) && InSync(s, suspect) && s.hash.Some? && Changed(s, c)
    requires EventLands(cfg, s, c) && !Interrupted(cfg, s, c)
    ensures Inv(CollectStep(cfg, s, c))
    ensures InSync(CollectStep(cfg, s, c), suspect - Touched(CycleChanges(s, c)))
  {
    PatchCycleInSync(cfg, s, suspect, c);
  }

  // ----- identifiers that stay with the reader -----

  /** The reader holds an identifier that the baseline does not, and change lists are being sent. */
  ghost predicate Stranded(s: State, k: string)
    requires Inv(s)
  {
    s.hash.Some? && k !in Index(s.inventory) && k in EventualView(s)
  }

  ghost predicate NeverObserved(run: seq<Action>, k: string) {
    forall i :: 0 <= i < |run| && run[i].Collect? ==> k !in Index(run[i].cycle.snapshot.records)
  }

  /** A change list leaves alone what is neither in the baseline nor observed. */
  lemma CycleSkips(cfg: Config, s: State, c: Cycle, k: string)
    requires k !in Index(s.inventory) && k !in Index(c.snapshot.records) && s.hash.Some?
    ensures forall view :: AgreeAt(ApplyEvent(view, CycleEvent(cfg, s, c)), view, k)
    ensures k !in Index(CycleInventory(s, c))
  {
    var changes := CycleChanges(s, c);
    DiffFacts(s.inventory, c.snapshot.records, RemovalsAreTrustworthy(c.snapshot));
    EffectiveView(s.inventory, c.snapshot.records, RemovalsAreTrustworthy(c.snapshot));
    assert k !in Touched(changes);
    forall view ensures AgreeAt(ApplyEvent(view, CycleEvent(cfg, s, c)), view, k) {
      ApplyUntouched(view, CycleEvent(cfg, s, c).changes, k);
    }
  }

  lemma StrandedStep(cfg: Config, s: State, a: Action, k: string)
    requires Inv(s) && Stranded(s, k) && NoDamage([a]) && NeverObserved([a], k)
    ensures Inv(Step(cfg, s, a)) && Stranded(Step(cfg, s, a), k)
  {
    assert [a][0] == a;
    StepKeepsInv(cfg, s, a);
    match a
    case Collect(c) =>
      if EventLands(cfg, s, c) {
        CycleSkips(cfg, s, c, k);
        ViewAfterCycle(cfg, s, c);
        assert AgreeAt(ApplyEvent(EventualView(s), CycleEvent(cfg, s, c)), EventualView(s), k);
      }
    case QueueHeartbeat(_, _, _, _, _) => HeartbeatView(cfg, s, a);
    case Send(accepted, removed) => SendView(cfg, s, accepted, removed);
    case Restart =>
  }

  /** No later change list removes it: it stays for as long as it is not observed again. */
  lemma {:induction false} StrandedForever(cfg: Config, s: State, rest: seq<Action>, k: string)
    requires Inv(s) && Stranded(s, k) && NoDamage(rest) && NeverObserved(rest, k)
    ensures Inv(Run(cfg, s, rest)) && Stranded(Run(cfg, s, rest), k)
  {
    if rest != [] {
      var front, last := rest[..|rest| - 1], rest[|rest| - 1];
      StrandedForever(cfg, s, front, k);
      assert NoDamage([last]) && NeverObserved([last], k);
      StrandedStep(cfg, Run(cfg, s, front), last, k);
    }
  }

  /** A first cycle cut off after its hash and before its inventory is where that begins. */
  lemma InterruptedFirstCycle(cfg: Config) returns (run: seq<Action>)
    ensures NoDamage(run) && Inv(Run(cfg, FRESH, run)) && Stranded(Run(cfg, FRESH, run), "cpu")
    ensures forall rest :: NoDamage(rest) && NeverObserved(rest, "cpu") ==> StaysStranded(cfg, run, rest, "cpu")
  {
    run := FirstRun(cfg, NotWritten);
    forall rest | NoDamage(rest) && NeverObserved(rest, "cpu") ensures StaysStranded(cfg, run, rest, "cpu") {
      StrandedForever(cfg, Run(cfg, FRESH, run), rest, "cpu");
    }
  }

  /** A first cycle that finds one record and writes its event and its hash. */
  lemma FirstRun(cfg: Config, inventoryWrite: WriteOutcome) returns (run: seq<Action>)
    ensures |run| == 1 && run[0].Collect? && NoDamage(run)
    ensures Inv(Run(cfg, FRESH, run)) && Run(cfg, FRESH, run).hash.Some? && "cpu" in EventualView(Run(cfg, FRESH, run))
    ensures inventoryWrite.NotWritten? ==> Stranded(Run(cfg, FRESH, run), "cpu")
  {
    var cpu := AssetRecord("cpu", "cpu", "one", 0, Null);
    var c := Cycle(Snapshot(1, 0, [cpu], []), 0, "e", false, Durable, Durable, inventoryWrite, NotWritten);
    run := [Collect(c)];
    assert run[..0] == [];
    assert Run(cfg, FRESH, run) == CollectStep(cfg, FRESH, c);
    FreshInv();
    ViewAfterCycle(cfg, FRESH, c);
    SnapshotEvent(cfg, FRESH, c);
    IndexHas(c.snapshot.records, 0);
  }

  ghost predicate StaysStranded(cfg: Config, run: seq<Action>, rest: seq<Action>, k: string) {
    var s := Run(cfg, Run(cfg, FRESH, run), rest);
    Inv(s) && k in EventualView(s) && k !in Baseline(s)
  }

  // ----- a lost inventory file -----

  /** What follows the loss of the inventory file: the next cycle sends a full snapshot exactly
      when the hash is gone too. Otherwise it reports everything as added, and what stays with the
      reader beyond the new baseline is exactly what it held and the cycle did not observe. */
  lemma AfterLostInventory(cfg: Config, s: State, c: Cycle)
    requires Inv(s)
    ensures var lost := Step(cfg, s, DamageInventory);
      var e, t := CycleEvent(cfg, lost, c), CollectStep(cfg, lost, c);
      && (e.snapshot.Some? <==> s.hash.None?)
      && (forall ch :: ch in e.changes ==> ch.kind.Added?)
      && Inv(t)
      && (s.hash.Some? && EventLands(cfg, lost, c) && !Interrupted(cfg, lost, c) ==>
            forall k :: (k in EventualView(t) && k !in Baseline(t)
                         <==> k in EventualView(s) && k !in Index(c.snapshot.records)))
  {
    var lost := s.(inventory := []);
    assert Step(cfg, s, DamageInventory) == lost;
    StepKeepsInv(cfg, s, DamageInventory);
    StepKeepsInv(cfg, lost, Collect(c));
    SameDelivery(s, lost);
    EventAfterLoss(cfg, lost, c);
    if s.hash.Some? && EventLands(cfg, lost, c) && !Interrupted(cfg, lost, c) {
      ViewsAfterLoss(cfg, lost, c);
    }
  }

  lemma EventAfterLoss(cfg: Config, lost: State, c: Cycle)
    requires lost.inventory == []
    ensures CycleEvent(cfg, lost, c).snapshot.Some? <==> lost.hash.None?
    ensures forall ch :: ch in CycleEvent(cfg, lost, c).changes ==> ch.kind.Added?
  {
    DiffFacts([], c.snapshot.records, RemovalsAreTrustworthy(c.snapshot));
  }

  lemma ViewsAfterLoss(cfg: Config, lost: State, c: Cycle)
    requires Inv(lost) && lost.inventory == [] && lost.hash.Some?
    requires EventLands(cfg, lost, c) && !Interrupted(cfg, lost, c)
    ensures var t := CollectStep(cfg, lost, c);
      && Inv(t)
      && forall k :: (k in EventualView(t) && k !in Baseline(t)
                      <==> k in EventualView(lost) && k !in Index(c.snapshot.records))
  {
    ViewAfterCycle(cfg, lost, c);
    BaselineAfterLoss(cfg, lost, c);
    var t, e := CollectStep(cfg, lost, c), CycleEvent(cfg, lost, c);
    forall k | k !in Index(c.snapshot.records) ensures AgreeAt(EventualView(t), EventualView(lost), k) {
      CycleSkips(cfg, lost, c, k);
      assert AgreeAt(ApplyEvent(EventualView(lost), e), EventualView(lost), k);
    }
  }

  lemma BaselineAfterLoss(cfg: Config, lost: State, c: Cycle)
    requires lost.inventory == [] && lost.hash.Some? && EventLands(cfg, lost, c) && !Interrupted(cfg, lost, c)
    ensures Baseline(CollectStep(cfg, lost, c)).Keys == Index(c.snapshot.records).Keys
  {
    var allow := RemovalsAreTrustworthy(c.snapshot);
    DiffFacts([], c.snapshot.records, allow);
    EffectiveView([], c.snapshot.records, allow);
    if Changed(lost, c) {
      BaselineAfterCycle(cfg, lost, c);
    } else {
      assert Touched(CycleChanges(lost, c)) == {};
      assert forall k :: k in Index(c.snapshot.records) ==> NeedsUpsert(Index([]), Index(c.snapshot.records), k);
    }
  }

  lemma LostInventoryStays(cfg: Config, s: State, c: Cycle, k: string)
    requires Inv(s) && s.hash.Some? && k in EventualView(s) && k !in Index(c.snapshot.records)
    requires var lost := Step(cfg, s, DamageInventory); EventLands(cfg, lost, c) && !Interrupted(cfg, lost, c)
    ensures var t := CollectStep(cfg, Step(cfg, s, DamageInventory), c);
      Inv(t) && Stranded(t, k)
  {
    AfterLostInventory(cfg, s, c);
  }

  lemma LostThenOther(cfg: Config, s: State) returns (c: Cycle)
    requires Inv(s) && s.hash.Some? && "cpu" in EventualView(s)
    ensures var t := CollectStep(cfg, Step(cfg, s, DamageInventory), c);
      Inv(t) && Stranded(t, "cpu")
  {
    c := SecondCycle(cfg, s);
    LostInventoryStays(cfg, s, c, "cpu");
  }

  /** So a lost inventory file does not cost a full snapshot, and an identifier that vanished in
      the meantime stays with the reader. */
  lemma LostInventoryStrands(cfg: Config) returns (run: seq<Action>)
    ensures |run| == 3 && run[0].Collect? && run[1].DamageInventory? && run[2].Collect?
    ensures Inv(Run(cfg, FRESH, run)) && Stranded(Run(cfg, FRESH, run), "cpu")
  {
    var first := FirstRun(cfg, Durable);
    var c := LostThenOther(cfg, Run(cfg, FRESH, first));
    run := first + [DamageInventory, Collect(c)];
    LoseThenCollect(cfg, first, c);
  }

  lemma LoseThenCollect(cfg: Config, first: seq<Action>, c: Cycle)
    ensures Run(cfg, FRESH, first + [DamageInventory, Collect(c)])
         == CollectStep(cfg, Step(cfg, Run(cfg, FRESH, first), DamageInventory), c)
  {
    var run := first + [DamageInventory, Collect(c)];
    assert run[..|run| - 1] == first + [DamageInventory];
    assert (first + [DamageInventory])[..|first|] == first;
  }

  /** A cycle that finds another record and in which everything works. */
  lemma SecondCycle(cfg: Config, s: State) returns (c: Cycle)
    ensures var lost := Step(cfg, s, DamageInventory); EventLands(cfg, lost, c) && !Interrupted(cfg, lost, c)
    ensures "cpu" !in Index(c.snapshot.records)
  {
    var lost := s.(inventory := []);
    var disk := AssetRecord("disk", "disk", "one", 0, Null);
    var records := [disk];
    c := Cycle(Snapshot(1, 0, records, []), 0, "f", false, Durable, Durable, Durable, Durable);
    DiffFacts([], records, RemovalsAreTrustworthy(c.snapshot));
    IndexHas(records, 0);
    assert NeedsUpsert(Index([]), Index(records), "disk");
    assert "disk" in Touched(CycleChanges(lost, c));
    if "cpu" in Index(records) {
      var i := IndexSource(records, "cpu");
    }
  }

  // ----- cycles whose event does not reach the queue -----

  predicate Unqueued(a: Action) {
    || (a.Collect? && (a.cycle.refused || a.cycle.eventWrite.NotWritten?))
    || (a.QueueHeartbeat? && (a.refused || a.eventWrite.NotWritten?))
  }

  /** A run without the actions whose event did not reach the queue. */
  function Queued(run: seq<Action>): seq<Action> {
    if run == [] then [] else
      var front, last := run[..|run| - 1], run[|run| - 1];
      if Unqueued(last) then Queued(front) else Queued(front) + [last]
  }

  /** Refused and failed enqueues leave no trace: with them left out, every run ends in the same
      queue, the same baseline and the same acceptance by the server. */
  lemma {:induction false} RefusedEnqueueKeepsBaseline(cfg: Config, s: State, run: seq<Action>)
    ensures Run(cfg, s, run) == Run(cfg, s, Queued(run))
  {
    if run != [] {
      var front, last := run[..|run| - 1], run[|run| - 1];
      RefusedEnqueueKeepsBaseline(cfg, s, front);
      if !Unqueued(last) {
        assert Queued(run)[..|Queued(run)| - 1] == Queued(front);
      }
    }
  }

  // ----- removals -----

  ghost predicate ReportsRemoval(e: Envelope, k: string) {
    exists ch :: ch in e.changes && ch.kind.Removed? && ch.assetId == k
  }

  /** A cycle reports an identifier as removed exactly when it sends a patch, no collector
      failed, and the identifier was in the baseline and was not observed. */
  lemma RemovalsNeedCleanCycle(cfg: Config, s: State, c: Cycle, k: string)
    ensures ReportsRemoval(CycleEvent(cfg, s, c), k) <==>
      s.hash.Some? && c.snapshot.errors == [] && k in Index(s.inventory) && k !in Index(c.snapshot.records)
  {
    var e, changes := CycleEvent(cfg, s, c), CycleChanges(s, c);
    DiffFacts(s.inventory, c.snapshot.records, RemovalsAreTrustworthy(c.snapshot));
    if ReportsRemoval(e, k) {
      var ch :| ch in e.changes && ch.kind.Removed? && ch.assetId == k;
      assert ch in changes;
      assert k in Touched(changes);
    }
    if s.hash.Some? && c.snapshot.errors == [] && k in Index(s.inventory) && k !in Index(c.snapshot.records) {
      assert k in Touched(changes);
      var ch :| ch in changes && ch.assetId == k;
      assert ch == ChangeAt(Index(s.inventory), Index(c.snapshot.records), k);
      assert ch in e.changes;
    }
  }

  // ----- what a cycle queues -----

  /** The cycle's inventory, as a reader sees it, differs from the baseline somewhere. */
  ghost predicate SomethingDiffers(s: State, c: Cycle) {
    exists k :: !AgreeAt(ViewOfRecords(s.inventory), ViewOfRecords(CycleInventory(s, c)), k)
  }

  lemma ChangedMeans(s: State, c: Cycle)
    ensures Changed(s, c) <==> s.hash.None? || SomethingDiffers(s, c)
  {
    var changes := CycleChanges(s, c);
    DiffNamesDisagreements(s.inventory, c.snapshot.records, RemovalsAreTrustworthy(c.snapshot));
    if changes != [] {
      assert changes[0] in changes && changes[0].assetId in Touched(changes);
      assert !AgreeAt(ViewOfRecords(s.inventory), ViewOfRecords(CycleInventory(s, c)), changes[0].assetId);
    } else {
      assert Touched(changes) == {};
    }
  }

  /** A cycle whose event can be queued queues one exactly when there is no hash yet, something
      differs, or the last heartbeat is a whole interval old; and what the event then says. */
  lemma CycleQueues(cfg: Config, s: State, c: Cycle)
    requires !c.refused && Landed(c.eventWrite)
    ensures var after, e := CollectStep(cfg, s, c), CycleEvent(cfg, s, c);
      var changed := s.hash.None? || SomethingDiffers(s, c);
      && after.landed == (if changed || s.lastHeartbeat + cfg.heartbeatSeconds <= c.now || cfg.heartbeatSeconds == 0
                          then s.landed + [e] else s.landed)
      && e.eventId == c.eventId && e.createdAt == c.now && e.collectionErrors == c.snapshot.errors
      && (e.kind.InventoryEvent? <==> changed) && (e.kind.HeartbeatEvent? <==> !changed)
      && (e.snapshot == if s.hash.None? then Some(c.snapshot) else None)
      && (e.changes != [] <==> s.hash.Some? && changed)
      && ApplyEvent(ViewOfRecords(s.inventory), e)
         == ViewOfRecords(if s.hash.None? then c.snapshot.records else CycleInventory(s, c))
      && e.snapshotHash == cfg.sha(StableSnapshot(c.snapshot.schemaVersion, StableListing(CycleInventory(s, c))))
  {
    ChangedMeans(s, c);
    EventGives(cfg, s, c);
  }

  lemma EventGives(cfg: Config, s: State, c: Cycle)
    ensures ApplyEvent(ViewOfRecords(s.inventory), CycleEvent(cfg, s, c))
         == ViewOfRecords(if s.hash.None? then c.snapshot.records else CycleInventory(s, c))
  {
    DiffIsPatch(s.inventory, c.snapshot.records, RemovalsAreTrustworthy(c.snapshot));
  }

  // ----- what heartbeats carry -----

  ghost predicate SortedSnapshots(run: seq<Action>) {
    forall i :: 0 <= i < |run| && run[i].Collect? ==>
      SortedUnique(run[i].cycle.snapshot.records) && run[i].cycle.snapshot.schemaVersion == 1
  }

  /** The stored hash is the hash of the stored baseline. */
  ghost predicate HashMatches(cfg: Config, s: State) {
    && SortedUnique(s.inventory)
    && (s.hash.Some? ==> s.hash.value == cfg.sha(StableSnapshot(1, StableListing(s.inventory))))
  }

  lemma {:induction false} RunHashMatches(cfg: Config, run: seq<Action>)
    requires NoDamage(run) && NeverInterrupted(cfg, run) && SortedSnapshots(run)
    ensures HashMatches(cfg, Run(cfg, FRESH, run))
  {
    if run != [] {
      var front, last := run[..|run| - 1], run[|run| - 1];
      assert forall i :: 0 <= i < |front| ==> front[..i] == run[..i];
      RunHashMatches(cfg, front);
      var s := Run(cfg, FRESH, front);
      if last.Collect? {
        assert !Interrupted(cfg, Run(cfg, FRESH, run[..|run| - 1]), last.cycle);
        EffectiveSortedUnique(s.inventory, last.cycle.snapshot.records, RemovalsAreTrustworthy(last.cycle.snapshot));
      }
    }
  }

  /** With unique identifiers, a cycle that finds nothing to report queues a heartbeat carrying
      the stored hash, whatever mix of clean and degraded cycles came before. */
  lemma QuietHeartbeatCarriesStoredHash(cfg: Config, run: seq<Action>, c: Cycle)
    requires NoDamage(run) && NeverInterrupted(cfg, run) && SortedSnapshots(run + [Collect(c)])
    requires !Changed(Run(cfg, FRESH, run), c)
    ensures var s := Run(cfg, FRESH, run);
      s.hash.Some? && CycleEvent(cfg, s, c).kind.HeartbeatEvent? && CycleEvent(cfg, s, c).snapshotHash == s.hash.value
  {
    assert forall i :: 0 <= i < |run| ==> run[i] == (run + [Collect(c)])[i];
    assert (run + [Collect(c)])[|run|] == Collect(c);
    RunHashMatches(cfg, run);
    var s := Run(cfg, FRESH, run);
    QuietCycleSameListing(s.inventory, c.snapshot.records, RemovalsAreTrustworthy(c.snapshot));
  }
}
