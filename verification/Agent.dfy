// The agent object: collection, heartbeats, delivery and restart over the durable store.
// Every method is shown to perform steps of the run model in Replication.dfy
// (src/scheduler.rs).

module AgentModel {
  import opened Machine
  import opened Wrappers
  import opened Text
  import opened Inventory
  import opened Replication
  import opened QueueStore
  import opened Collection
  import RunLoop

  /** How far the writes of one cycle get. */
  datatype CycleWrites = CycleWrites(
    event: WriteOutcome, hash: WriteOutcome, inventory: WriteOutcome, heartbeat: WriteOutcome)

  function CycleOf(snapshot: Snapshot, now: nat, eventId: string, refused: bool, writes: CycleWrites): Cycle {
    Cycle(snapshot, now, eventId, refused, writes.event, writes.hash, writes.inventory, writes.heartbeat)
  }

  /** One attempt to send: what the server did and what the agent saw of it. */
  datatype Reply = Accepted | ReplyLost | NotAccepted | Unauthorized

  /** One attempt to register: whether a stored claim can be read, the claim that is made up
      otherwise and how its write ends, what the server answers to a claim, and how the write of
      the new credential ends. */
  datatype Enrollment = Enrollment(
    claimReadable: bool, nonce: string, claimWrite: WriteOutcome,
    server: string -> Option<string>, tokenWrite: WriteOutcome)

  /** Everything outside the agent that one queued event can meet during a delivery. */
  datatype Contact = Contact(
    readable: bool, first: Reply, tokenRemovable: bool, reenroll: Enrollment, retry: Reply,
    removable: bool, movable: bool, stuck: set<string>)

  const TOKEN_PREFIX: string := "ivq_at_"
  const CLAIM_PREFIX: string := "ivq_ec_"

  /** The claim an attempt presents, if it gets one: a stored one again, else a new one. */
  function ClaimOf(stored: Option<string>, e: Enrollment): Option<string> {
    if stored.Some? && e.claimReadable then
      if CLAIM_PREFIX <= stored.value then stored else None
    else if e.claimWrite.Durable? then Some(CLAIM_PREFIX + e.nonce) else None
  }

  /** The credential an attempt obtains, if the server issues a valid one. */
  function TokenOf(stored: Option<string>, e: Enrollment): Option<string> {
    var claim := ClaimOf(stored, e);
    var token := if claim.Some? then e.server(claim.value) else None;
    if token.Some? && TOKEN_PREFIX <= token.value then token else None
  }

  /** The claim on disk after an attempt. */
  function ClaimLeft(stored: Option<string>, e: Enrollment): Option<string> {
    if stored.Some? && e.claimReadable then stored
    else if Landed(e.claimWrite) then Some(CLAIM_PREFIX + e.nonce)
    else stored
  }

  predicate Enrolls(stored: Option<string>, e: Enrollment) {
    TokenOf(stored, e).Some? && e.tokenWrite.Durable?
  }

  /** By what the agent is known: the bearer token it sends, the stored credential, the stored claim. */
  datatype Identity = Identity(bearer: Option<string>, token: Option<string>, claim: Option<string>)

  /** Who the agent, without a bearer token, is after an attempt to register. */
  function Registered(id: Identity, e: Enrollment): Identity {
    var token := TokenOf(id.claim, e);
    Identity(
      if Enrolls(id.claim, e) then token else None,
      if token.Some? && Landed(e.tokenWrite) then token else id.token,
      ClaimLeft(id.claim, e))
  }

  /** The same after its credential was discarded. */
  function Renewed(id: Identity, e: Enrollment): Identity {
    Registered(Identity(None, None, id.claim), e)
  }

  /** What the agent hears last about an event it sends: the first answer, or, when a credential
      that is not `fixed` by the configuration was rejected and replaced, the answer to the second
      attempt. Nothing when it could not be replaced. */
  function FinalReply(fixed: bool, stored: Option<string>, contact: Contact): Option<Reply> {
    if fixed || !contact.first.Unauthorized? then Some(contact.first)
    else if contact.tokenRemovable && Enrolls(stored, contact.reenroll) then Some(contact.retry)
    else None
  }

  /** The rejection is made good: whatever sound claim is stored, the server issues a new
      credential for it, it is stored, and the event is accepted with it. */
  ghost predicate Renews(contact: Contact) {
    && contact.readable && contact.first.Unauthorized? && contact.tokenRemovable
    && (forall stored: Option<string> :: Sound(stored) ==> Enrolls(stored, contact.reenroll))
    && contact.retry.Accepted? && contact.removable
  }

  predicate Sound(claim: Option<string>) {
    claim.Some? ==> CLAIM_PREFIX <= claim.value
  }

  /** The counters a pass over the queue adds to. */
  datatype Tally = Tally(script: seq<Action>, discards: nat, acknowledged: nat)

  /** One pass over the pending events `names` of the directory `files`: what each of them meets,
      and what comes of it. */
  datatype Delivery = Delivery(
    codec: Codec, files: map<string, Bytes>, names: seq<string>, net: nat -> Contact,
    fixed: bool, id: Identity) {

    ghost predicate Readable(i: nat)
      requires i < |names|
    {
      Intact(codec, files, names[i]) && net(i).readable
    }

    /** The server rejects the credential this event is sent with, and it can be discarded. */
    ghost predicate Rejected(i: nat)
      requires i < |names|
    {
      Readable(i) && !fixed && net(i).first.Unauthorized? && net(i).tokenRemovable
    }

    /** Who the agent is when the event's turn comes. */
    ghost function IdentityAt(i: nat): Identity
      requires i <= |names|
    {
      if i == 0 then id
      else if Rejected(i - 1) then Renewed(IdentityAt(i - 1), net(i - 1).reenroll)
      else IdentityAt(i - 1)
    }

    ghost function ReplyAt(i: nat): Option<Reply>
      requires i < |names|
    {
      FinalReply(fixed, IdentityAt(i).claim, net(i))
    }

    ghost predicate Sent(i: nat)
      requires i < |names|
    {
      Readable(i) && ReplyAt(i) == Some(Accepted) && net(i).removable
    }

    /** The event leaves the queue: sent, or set aside because it cannot be read. */
    ghost predicate HandedOver(i: nat)
      requires i < |names|
    {
      if Readable(i) then Sent(i) else net(i).movable
    }

    /** So do all before this one. */
    ghost predicate HandedOverTo(n: nat)
      requires n <= |names|
    {
      n > 0 ==> HandedOverTo(n - 1) && HandedOver(n - 1)
    }

    /** How the event shows in the history. */
    ghost function StepsAt(i: nat): seq<Action>
      requires i < |names|
    {
      if !Readable(i) then if net(i).movable then [SetAside] else []
      else if ReplyAt(i).None? then []
      else if ReplyAt(i).value.Accepted? then [Send(true, net(i).removable)]
      else [Send(ReplyAt(i).value.ReplyLost?, false)]
    }

    ghost function StepsTo(n: nat): seq<Action>
      requires n <= |names|
    {
      if n == 0 then [] else StepsTo(n - 1) + StepsAt(n - 1)
    }

    ghost function SentTo(n: nat): nat
      requires n <= |names|
    {
      if n == 0 then 0 else SentTo(n - 1) + if Sent(n - 1) then 1 else 0
    }

    ghost function RejectedTo(n: nat): nat
      requires n <= |names|
    {
      if n == 0 then 0 else RejectedTo(n - 1) + if Rejected(n - 1) then 1 else 0
    }

    /** What the first n events add to the counters. */
    ghost predicate Adds(n: nat, start: Tally, now: Tally, sent: nat, steps: seq<Action>)
      requires n <= |names|
    {
      && sent == SentTo(n) && steps == StepsTo(n)
      && now == Tally(start.script + steps, start.discards + RejectedTo(n), start.acknowledged + sent)
    }

    lemma AddsOne(i: nat, start: Tally, before: Tally, sent: nat, past: seq<Action>, now: Tally, step: seq<Action>)
      requires i < |names| && Adds(i, start, before, sent, past) && step == StepsAt(i)
      requires now.script == before.script + step
      requires now.discards == before.discards + if Rejected(i) then 1 else 0
      requires now.acknowledged == before.acknowledged + if Sent(i) then 1 else 0
      ensures Adds(i + 1, start, now, if Sent(i) then sent + 1 else sent, past + step)
    {
      assert start.script + past + step == start.script + (past + step);
    }

    /** The directory once the first n events have left it. */
    ghost function Left(n: nat): map<string, Bytes>
      requires n <= |names|
    {
      files - Firsts(names, n)
    }

    /** The pass tried `reached` events: all before the last of them left the queue, and it ended
        because the last did not, or because there are no more. */
    ghost predicate Reaches(reached: nat, ok: bool) {
      && reached <= |names|
      && (ok ==> reached == |names|) && (!ok ==> reached > 0)
      && HandedOverTo(Gone(reached, ok))
      && (!ok ==> !HandedOver(reached - 1))
    }

    /** How many of the events tried have left the queue. */
    ghost function Gone(reached: nat, ok: bool): int {
      if ok then reached else reached - 1
    }
  }

  /** When every event is intact and accepted at the first attempt, all are handed over and counted. */
  lemma {:induction false} AllAccepted(d: Delivery, n: nat)
    requires n <= |d.names| && forall i :: 0 <= i < n ==>
      && Intact(d.codec, d.files, d.names[i])
      && d.net(i).readable && d.net(i).first.Accepted? && d.net(i).removable
    ensures d.SentTo(n) == n && forall i :: 0 <= i < n ==> d.HandedOver(i)
  {
    if n > 0 {
      AllAccepted(d, n - 1);
    }
  }

  /** When every rejected credential is made good, all events are sent, with one replacement each. */
  lemma AllRenewed(d: Delivery)
    requires !d.fixed && Sound(d.id.claim)
    requires forall i :: 0 <= i < |d.names| ==> Intact(d.codec, d.files, d.names[i]) && Renews(d.net(i))
    ensures forall i :: 0 <= i < |d.names| ==> d.Rejected(i) && d.Sent(i) && d.HandedOver(i)
  {
    forall i | 0 <= i < |d.names| ensures d.Rejected(i) && d.Sent(i) && d.HandedOver(i) {
      EverSound(d, i);
      OneRenewed(d, i);
    }
  }

  lemma {:induction false} EverSound(d: Delivery, i: nat)
    requires i <= |d.names| && Sound(d.id.claim)
    ensures Sound(d.IdentityAt(i).claim)
  {
    if i > 0 {
      EverSound(d, i - 1);
      StaysSound(d.IdentityAt(i - 1).claim, d.net(i - 1).reenroll);
    }
  }

  lemma {:induction false} AllSent(d: Delivery, n: nat)
    requires n <= |d.names| && forall i :: 0 <= i < n ==> d.Sent(i)
    ensures d.SentTo(n) == n
  {
    if n > 0 {
      AllSent(d, n - 1);
    }
  }

  lemma {:induction false} AllRejected(d: Delivery, n: nat)
    requires n <= |d.names| && forall i :: 0 <= i < n ==> d.Rejected(i)
    ensures d.RejectedTo(n) == n
  {
    if n > 0 {
      AllRejected(d, n - 1);
    }
  }

  lemma {:induction false} AllHandedOver(d: Delivery, n: nat)
    requires n <= |d.names|
    ensures d.HandedOverTo(n) <==> forall i :: 0 <= i < n ==> d.HandedOver(i)
  {
    if n > 0 {
      AllHandedOver(d, n - 1);
    }
  }

  lemma OneRenewed(d: Delivery, i: nat)
    requires i < |d.names| && !d.fixed && Sound(d.IdentityAt(i).claim)
    requires Intact(d.codec, d.files, d.names[i]) && Renews(d.net(i))
    ensures d.Rejected(i) && d.Sent(i) && d.HandedOver(i)
  {
    assert Enrolls(d.IdentityAt(i).claim, d.net(i).reenroll);
  }

  lemma StaysSound(stored: Option<string>, e: Enrollment)
    requires Sound(stored)
    ensures Sound(ClaimLeft(stored, e))
  {
  }

  /** The queue directory holds, in order, the pending events of the history; a damaged file
      no longer decodes. */
  ghost predicate QueueTied(codec: Codec, files: map<string, Bytes>, h: State) {
    && |Pending(files)| == |h.queue|
    && (forall i :: 0 <= i < |h.queue| ==> FileTied(codec, files, Pending(files)[i], h.landed, h.queue[i]))
  }

  ghost predicate FileTied(codec: Codec, files: map<string, Bytes>, name: string, landed: seq<Envelope>, p: nat) {
    && name in files && p < |landed|
    && (codec.decode(files[name]).Some? ==> codec.decode(files[name]).value == landed[p])
  }

  /** The event is in the directory under its number, behind all the others. */
  ghost predicate QueuedLast(codec: Codec, before: map<string, Bytes>, after: map<string, Bytes>, sequence: nat,
                         e: Envelope) {
    var name := QueueName(sequence, e.eventId);
    after == before[name := codec.encode(e) + [10]] && Pending(after) == Pending(before) + [name]
  }

  lemma TiedAppend(codec: Codec, files: map<string, Bytes>, h: State, name: string, e: Envelope)
    requires codec.RoundTrips() && QueueTied(codec, files, h)
    requires IsEvent(name) && forall k :: k in EventNames(files) ==> LexLess(k, name)
    ensures QueueTied(codec, files[name := codec.encode(e) + [LINE_FEED]], Append(h, e))
  {
    var more, t := files[name := codec.encode(e) + [LINE_FEED]], Append(h, e);
    SortedNamesLists(EventNames(files));
    PendingAppend(files, name, codec.encode(e) + [LINE_FEED]);
    forall i | 0 <= i < |t.queue| ensures FileTied(codec, more, Pending(more)[i], t.landed, t.queue[i]) {
      if i < |h.queue| {
        assert FileTied(codec, files, Pending(files)[i], h.landed, h.queue[i]);
        assert Pending(files)[i] in Pending(files);
        LexIrreflexive(name);
      }
    }
  }

  lemma TiedTail(codec: Codec, files: map<string, Bytes>, h: State, t: State)
    requires QueueTied(codec, files, h) && h.queue != []
    requires t.queue == h.queue[1..] && t.landed == h.landed
    ensures Pending(files) != [] && QueueTied(codec, files - {Pending(files)[0]}, t)
  {
    PendingTail(files);
    var names := Pending(files);
    var rest := files - {names[0]};
    AscendingDistinct(names);
    forall i | 0 <= i < |t.queue| ensures FileTied(codec, rest, Pending(rest)[i], t.landed, t.queue[i]) {
      assert FileTied(codec, files, names[i + 1], h.landed, h.queue[i + 1]);
      assert names[i + 1] != names[0];
    }
  }

  lemma RunAppend(cfg: Config, s: State, run: seq<Action>, a: Action)
    ensures Run(cfg, s, run + [a]) == Step(cfg, Run(cfg, s, run), a)
  {
    assert (run + [a])[..|run|] == run;
  }

  method StableRecords(records: seq<AssetRecord>) returns (stable: seq<StableRecord>)
    ensures stable == StableListing(records)
  {
    stable := [];
    for i := 0 to |records|
      invariant stable == StableListing(records[..i])
    {
      assert records[..i + 1][..i] == records[..i];
      stable := stable + [Stable(records[i])];
    }
    assert records[..|records|] == records;
  }

  /** The files a cycle reads, as the history has them. */
  ghost predicate CachesTied(hash: Option<string>, inventory: seq<AssetRecord>, lastHeartbeat: nat, h: State) {
    hash == h.hash && inventory == h.inventory && lastHeartbeat == h.lastHeartbeat
  }

  /** What a cycle decides before it writes anything. */
  datatype Plan = Plan(changed: bool, due: bool, envelope: Envelope, effective: seq<AssetRecord>)

  ghost function PlanOf(cfg: Config, h: State, c: Cycle): Plan {
    Plan(Changed(h, c), HeartbeatDue(cfg, h, c.now), CycleEvent(cfg, h, c), CycleInventory(h, c))
  }

  /** The reading half of `collect_once`. */
  method PlanCycle(cfg: Config, previousHash: Option<string>, previousInventory: seq<AssetRecord>, lastHeartbeat: nat,
                   snapshot: Snapshot, now: nat, eventId: string, ghost h: State, ghost c: Cycle)
    returns (plan: Plan)
    requires CachesTied(previousHash, previousInventory, lastHeartbeat, h)
    requires c.snapshot == snapshot && c.now == now && c.eventId == eventId
    ensures plan == PlanOf(cfg, h, c)
  {
    var allowRemovals := RemovalsAreTrustworthy(snapshot);
    var changes := Diff(previousInventory, snapshot.records, allowRemovals);
    var effective := EffectiveInventory(previousInventory, snapshot.records, allowRemovals);
    var stable := StableRecords(effective);
    var hash := cfg.sha(StableSnapshot(snapshot.schemaVersion, stable));
    var firstInventory := previousHash.None?;
    var changed := firstInventory || changes != [];
    var envelope := Envelope(
      eventId, now, if changed then InventoryEvent else HeartbeatEvent, hash,
      if changed && firstInventory then Some(snapshot) else None,
      if changed && !firstInventory then changes else [],
      snapshot.errors);
    plan := Plan(changed, SaturatingSub(now, lastHeartbeat) >= cfg.heartbeatSeconds, envelope, effective);
  }

  /** The unreadable events kept after one more of them is moved aside. */
  ghost function KeptAside(kept: map<string, Bytes>, name: string, bytes: Bytes, stuck: set<string>):
    map<string, Bytes>
  {
    kept[name := bytes] - (Surplus(kept[name := bytes]) - stuck)
  }

  class Agent {
    const cfg: Config
    const configured: bool    // a server address is configured, so there is a transport
    const staticToken: Option<string>  // a bearer token fixed by the configuration
    var store: StateStore
    var bearer: Option<string>
    var deviceToken: Option<string>  // the stored credential
    var claim: Option<string>        // the stored enrollment claim
    ghost var discards: nat          // how often a rejected credential was discarded
    ghost var script: seq<Action>  // everything that happened so far
    ghost var history: State       // the state of the run model after it

    ghost predicate Valid()
      reads this, store
    {
      && store.Valid() && OwnNames(store.queue)
      && (forall x :: cfg.sha(x) != "")
      && QueueTied(store.codec, store.queue, history)
      && CachesTied(store.PreviousHash(), store.PreviousInventory(), store.LastHeartbeat(), history)
      && Credentials()
    }

    /** A bearer token comes from the configuration or is the stored credential. */
    ghost predicate Credentials()
      reads this
    {
      if staticToken.Some? then bearer == staticToken else bearer.Some? ==> bearer == deviceToken
    }

    ghost predicate Explained()
      reads this
    {
      history == Run(cfg, FRESH, script)
    }

    constructor (cfg: Config, configured: bool, staticToken: Option<string>, codec: Codec, maxQueueBytes: nat,
                 nanos: nat)
      requires codec.RoundTrips() && maxQueueBytes <= U64_MAX && nanos <= U128_MAX
      requires forall x :: cfg.sha(x) != ""
      ensures Valid() && Explained() && script == [] && fresh(store)
      ensures this.cfg == cfg && this.configured == configured && this.staticToken == staticToken
      ensures bearer == staticToken && deviceToken == None && claim == None && discards == 0 && store.queue == map[]
    {
      this.cfg, this.configured, this.staticToken := cfg, configured, staticToken;
      this.bearer, this.deviceToken, this.claim, this.discards := staticToken, None, None, 0;
      this.store := new StateStore.Open(codec, maxQueueBytes, map[], map[], None, Missing, None, nanos);
      this.script, this.history := [], FRESH;
      new;
      assert EventNames(store.queue) == {};
      assert Pending(store.queue) == [];
    }

    ghost method Record(a: Action)
      modifies this`script, this`history
      ensures script == old(script) + [a]
      ensures history == Step(cfg, old(history), a)
      ensures old(Explained()) ==> Explained()
    {
      RunAppend(cfg, FRESH, script, a);
      script, history := script + [a], Step(cfg, history, a);
    }

    /** `collect_once`, from the collected snapshot on. */
    method CollectOnce(snapshot: Snapshot, now: nat, nanos: nat, eventId: string, writes: CycleWrites)
      returns (ok: bool, refused: bool)
      requires Valid() && Explained() && nanos <= U128_MAX && store.sequence < U128_MAX
      modifies this`script, this`history, store`queue, store`sequence, store`hashFile, store`inventoryFile,
        store`heartbeatFile
      ensures Valid() && store == old(store) && Explained()
      ensures script == old(script) + [Collect(CycleOf(snapshot, now, eventId, refused, writes))]
      ensures var plan := PlanOf(cfg, old(history), CycleOf(snapshot, now, eventId, false, writes));
        var needed := plan.changed || plan.due;
        && (refused <==> needed && !old(store.Fits(plan.envelope)))
        && (ok <==> !needed || (!refused && AllDurable(writes, plan.changed)))
        // One event is added at the end of the queue, or none; the others stay as they are.
        && store.sequence == (if !needed || refused then old(store.sequence)
                              else NextSequence(old(store.sequence), nanos))
        && if !needed || refused || !Landed(writes.event) then store.queue == old(store.queue)
           else QueuedLast(store.codec, old(store.queue), store.queue, store.sequence, plan.envelope)
    {
      ghost var c := CycleOf(snapshot, now, eventId, false, writes);
      var plan := PlanCycle(cfg, store.PreviousHash(), store.PreviousInventory(), store.LastHeartbeat(),
                            snapshot, now, eventId, history, c);
      if !plan.changed && !plan.due {
        Record(Collect(c));
        return true, false;
      }
      ok, refused := CommitCycle(plan, now, nanos, writes, c);
    }

    /** The writing half of `collect_once`. */
    method CommitCycle(plan: Plan, now: nat, nanos: nat, writes: CycleWrites, ghost c: Cycle)
      returns (ok: bool, refused: bool)
      requires Valid() && Explained() && nanos <= U128_MAX && store.sequence < U128_MAX
      requires plan == PlanOf(cfg, history, c) && (plan.changed || plan.due)
      requires c == CycleOf(c.snapshot, now, c.eventId, false, writes)
      modifies this`script, this`history, store`queue, store`sequence, store`hashFile, store`inventoryFile,
        store`heartbeatFile
      ensures Valid() && store == old(store) && Explained()
      ensures script == old(script) + [Collect(c.(refused := refused))]
      ensures refused <==> !old(store.Fits(plan.envelope))
      ensures ok <==> !refused && AllDurable(writes, plan.changed)
      ensures store.sequence == if refused then old(store.sequence) else NextSequence(old(store.sequence), nanos)
      ensures if refused || !Landed(writes.event) then store.queue == old(store.queue)
        else QueuedLast(store.codec, old(store.queue), store.queue, store.sequence, plan.envelope)
    {
      ok, refused := WriteCycle(plan, now, nanos, writes);
      ghost var h, cycle := history, c.(refused := refused);
      assert plan == PlanOf(cfg, h, cycle);
      CollectTied(cfg, h, cycle, store.codec, old(store.queue), store.queue);
      CollectCaches(cfg, h, cycle, plan, store.PreviousHash(), store.PreviousInventory(), store.LastHeartbeat());
      Record(Collect(cycle));
    }

    /** The event, then the baseline, then the time of the heartbeat; a failure ends the cycle. */
    method WriteCycle(plan: Plan, now: nat, nanos: nat, writes: CycleWrites) returns (ok: bool, refused: bool)
      requires store.Valid() && OwnNames(store.queue) && nanos <= U128_MAX && store.sequence < U128_MAX
      requires QueueTied(store.codec, store.queue, history) && plan.envelope.snapshotHash != ""
      modifies store`queue, store`sequence, store`hashFile, store`inventoryFile,
        store`heartbeatFile
      ensures store.Valid() && OwnNames(store.queue)
      ensures refused <==> !old(store.Fits(plan.envelope))
      ensures ok <==> !refused && AllDurable(writes, plan.changed)
      ensures if refused || !Landed(writes.event) then store.queue == old(store.queue)
        else QueueTied(store.codec, store.queue, Append(history, plan.envelope))
      ensures store.sequence == if refused then old(store.sequence) else NextSequence(old(store.sequence), nanos)
      ensures !refused && Landed(writes.event) ==>
        QueuedLast(store.codec, old(store.queue), store.queue, store.sequence, plan.envelope)
      ensures store.PreviousHash() == if BaselineStarts(plan, refused, writes.event) && Landed(writes.hash)
        then Some(plan.envelope.snapshotHash) else old(store.PreviousHash())
      ensures store.PreviousInventory()
           == if BaselineStarts(plan, refused, writes.event) && writes.hash.Durable? && Landed(writes.inventory)
              then plan.effective else old(store.PreviousInventory())
      ensures store.LastHeartbeat()
           == if HeartbeatStarts(plan, refused, writes.event, writes.hash, writes.inventory) && Landed(writes.heartbeat)
              then now else old(store.LastHeartbeat())
    {
      ok, refused := Put(plan.envelope, nanos, writes.event);
      if ok && plan.changed {
        ok := WriteBaseline(plan, writes);
      }
      if ok {
        ok := store.SetLastHeartbeat(now, writes.heartbeat);
      }
    }

    /** The hash first, then the inventory: what comes second is lost first. */
    method WriteBaseline(plan: Plan, writes: CycleWrites) returns (ok: bool)
      requires plan.envelope.snapshotHash != ""
      modifies store`hashFile, store`inventoryFile
      ensures ok <==> writes.hash.Durable? && writes.inventory.Durable?
      ensures store.PreviousHash() == if Landed(writes.hash) then Some(plan.envelope.snapshotHash)
        else old(store.PreviousHash())
      ensures store.PreviousInventory() == if writes.hash.Durable? && Landed(writes.inventory) then plan.effective
        else old(store.PreviousInventory())
    {
      ok := store.SetPreviousHash(plan.envelope.snapshotHash, writes.hash);
      if ok {
        ok := store.SetPreviousInventory(plan.effective, writes.inventory);
      }
    }

    /** Appends one event to the queue directory; the history follows in the caller. */
    method Put(e: Envelope, nanos: nat, write: WriteOutcome) returns (ok: bool, refused: bool)
      requires store.Valid() && OwnNames(store.queue) && nanos <= U128_MAX && store.sequence < U128_MAX
      requires QueueTied(store.codec, store.queue, history)
      modifies store`queue, store`sequence
      ensures store.Valid() && OwnNames(store.queue)
      ensures refused <==> !old(store.Fits(e))
      ensures ok <==> !refused && write.Durable?
      ensures if refused || !Landed(write) then store.queue == old(store.queue)
        else QueueTied(store.codec, store.queue, Append(history, e))
      ensures store.sequence == if refused then old(store.sequence) else NextSequence(old(store.sequence), nanos)
      ensures !refused && Landed(write) ==> QueuedLast(store.codec, old(store.queue), store.queue, store.sequence, e)
    {
      ghost var before, sequence := store.queue, store.sequence;
      var r := store.Enqueue(e, nanos, write);
      refused := r == Err(QueueFull);
      ok := r.Ok?;
      if !refused && Landed(write) {
        NewFile(before, store.codec.encode(e) + [LINE_FEED], sequence, store.sequence, e.eventId);
        QueueNameSequence(store.sequence, e.eventId);
        TiedAppend(store.codec, before, history, QueueName(store.sequence, e.eventId), e);
      }
    }

    /** `queue_heartbeat`. */
    method QueueOneHeartbeat(now: nat, nanos: nat, eventId: string, event: WriteOutcome, heartbeat: WriteOutcome)
      returns (ok: bool, refused: bool)
      requires Valid() && Explained() && nanos <= U128_MAX && store.sequence < U128_MAX
      modifies this`script, this`history, store`queue, store`sequence, store`heartbeatFile
      ensures Valid() && store == old(store) && Explained()
      ensures var a := QueueHeartbeat(now, eventId, refused, event, heartbeat);
        script == old(script) + [a]
      ensures refused <==> !old(store.Fits(HeartbeatEnvelope(history, now, eventId)))
      ensures ok <==> !refused && event.Durable? && heartbeat.Durable?
      ensures store.sequence == if refused then old(store.sequence) else NextSequence(old(store.sequence), nanos)
      ensures if refused || !Landed(event) then store.queue == old(store.queue)
        else QueuedLast(store.codec, old(store.queue), store.queue, store.sequence,
                    HeartbeatEnvelope(old(history), now, eventId))
      ensures refused ==> history == old(history)
    {
      var hash := store.PreviousHash();
      var envelope := Envelope(eventId, now, HeartbeatEvent, if hash.Some? then hash.value else "", None, [], []);
      assert envelope == HeartbeatEnvelope(history, now, eventId);
      ok, refused := WriteHeartbeat(envelope, now, nanos, event, heartbeat);
      ghost var a, h := QueueHeartbeat(now, eventId, refused, event, heartbeat), history;
      HeartbeatTied(cfg, h, a, store.codec, old(store.queue), store.queue);
      Record(a);
    }

    method WriteHeartbeat(envelope: Envelope, now: nat, nanos: nat, event: WriteOutcome, heartbeat: WriteOutcome)
      returns (ok: bool, refused: bool)
      requires store.Valid() && OwnNames(store.queue) && nanos <= U128_MAX && store.sequence < U128_MAX
      requires QueueTied(store.codec, store.queue, history)
      modifies store`queue, store`sequence, store`heartbeatFile
      ensures store.Valid() && OwnNames(store.queue)
      ensures refused <==> !old(store.Fits(envelope))
      ensures ok <==> !refused && event.Durable? && heartbeat.Durable?
      ensures if refused || !Landed(event) then store.queue == old(store.queue)
        else QueueTied(store.codec, store.queue, Append(history, envelope))
      ensures store.sequence == if refused then old(store.sequence) else NextSequence(old(store.sequence), nanos)
      ensures !refused && Landed(event) ==>
        QueuedLast(store.codec, old(store.queue), store.queue, store.sequence, envelope)
      ensures store.LastHeartbeat() == if !refused && event.Durable? && Landed(heartbeat) then now
        else old(store.LastHeartbeat())
    {
      ok, refused := Put(envelope, nanos, event);
      if ok {
        ok := store.SetLastHeartbeat(now, heartbeat);
      }
    }

    /** While the queue is full for a heartbeat that is overdue, the main loop turns any number of
        times within one instant: each turn calls for the heartbeat, is refused, and neither
        sleeps nor sends nor changes anything. `past` is how the loop came to this instant. */
    method FullQueueSpins(settings: RunLoop.Settings, started: nat, firstOk: bool, firstAt: nat,
                          ghost past: seq<RunLoop.Turn>,
                          clock: nat, wall: nat, nanos: nat, ids: nat -> string, turns: nat)
      returns (run: seq<RunLoop.Turn>)
      requires Valid() && Explained() && nanos <= U128_MAX && store.sequence < U128_MAX
      requires settings.heartbeatSeconds == cfg.heartbeatSeconds && HeartbeatDue(cfg, history, wall)
      requires forall i :: !store.Fits(HeartbeatEnvelope(history, wall, ids(i)))
      requires var s := RunLoop.RunOf(settings, RunLoop.Start(settings, started, firstOk, firstAt), past);
        clock < s.nextCollection && (s.retryAt.Some? ==> clock < s.retryAt.value)
      modifies this`script, this`history, store`queue, store`sequence, store`heartbeatFile
      ensures Valid() && store == old(store) && Explained()
      ensures store.queue == old(store.queue) && history == old(history) && |script| == |old(script)| + turns
      ensures var s := RunLoop.RunOf(settings, RunLoop.Start(settings, started, firstOk, firstAt), past);
        && |run| == turns && RunLoop.RunOf(settings, s, run) == s
        && forall i :: 0 <= i < |run| ==> RunLoop.Spins(settings, s, run[i], clock)
    {
      ghost var s := RunLoop.RunOf(settings, RunLoop.Start(settings, started, firstOk, firstAt), past);
      run := [];
      for i := 0 to turns
        invariant Valid() && store == old(store) && Explained()
        invariant store.queue == old(store.queue) && store.sequence == old(store.sequence)
        invariant history == old(history) && |script| == |old(script)| + i
        invariant |run| == i && RunLoop.RunOf(settings, s, run) == s
        invariant forall j :: 0 <= j < i ==> RunLoop.Spins(settings, s, run[j], clock)
      {
        var elapsed := SaturatingSub(wall, store.LastHeartbeat());
        assert !store.Fits(HeartbeatEnvelope(history, wall, ids(i)));
        var queued, refused := QueueOneHeartbeat(wall, nanos, ids(i), Durable, Durable);
        var t := RunLoop.Turn(clock, elapsed, clock, false, queued, clock, false, clock);
        RunLoop.RefusedHeartbeatSpins(settings, s, t);
        assert (run + [t])[..|run|] == run;
        run := run + [t];
      }
    }

    /** One whole cycle: the collectors, on Windows the packages of users whose hives were not
        loaded throughout, and what `collect_once` makes of it. */
    method CollectCycle(registry: Registry, collectors: seq<Collector>, collectedAt: nat,
                        windows: bool, before: set<string>, after: set<string>,
                        now: nat, nanos: nat, eventId: string, writes: CycleWrites)
      returns (ok: bool, refused: bool, ghost c: Cycle)
      requires Valid() && Explained() && nanos <= U128_MAX && store.sequence < U128_MAX
      modifies this`script, this`history, store`queue, store`sequence, store`hashFile, store`inventoryFile,
        store`heartbeatFile, registry
      ensures Valid() && store == old(store) && Explained()
      ensures script == old(script) + [Collect(c)] && c.now == now && c.eventId == eventId && c.refused == refused
      ensures c.snapshot.schemaVersion == 1 && c.snapshot.collectedAt == collectedAt
      ensures registry.quarantined == old(registry.quarantined) + Hung(collectors, old(registry.quarantined))
      ensures Tells(c.snapshot.errors, Reported(collectors, old(registry.quarantined)))
      // What the event of the cycle reports as removed.
      ensures forall k :: ReportsRemoval(CycleEvent(cfg, old(history), c), k) <==>
        && old(history).hash.Some? && k in Index(old(store.PreviousInventory()))
        && (forall x :: x in collectors ==> Healthy(x, old(registry.quarantined)))
        && k !in Index(Gathered(collectors, old(registry.quarantined)))
        && !(windows && UnloadedIn(k, old(store.PreviousInventory()), before * after))
      ensures Distinct(Gathered(collectors, old(registry.quarantined))) ==> SortedUnique(c.snapshot.records)
      ensures Distinct(Gathered(collectors, old(registry.quarantined))) && old(SortedSnapshots(script)) ==>
        SortedSnapshots(script)
    {
      ghost var h, gathered, stopped := history, Gathered(collectors, registry.quarantined), registry.quarantined;
      var previous := store.PreviousInventory();
      var snapshot := registry.Observe(collectors, collectedAt, windows, previous, before, after);
      ok, refused := CollectOnce(snapshot, now, nanos, eventId, writes);
      c := CycleOf(snapshot, now, eventId, refused, writes);
      RemovedBy(cfg, h, c, collectors, stopped, windows, before * after);
      MoreSorted(old(script), c);
    }

    /** A restart reopens the same files under whatever the clock says. */
    method Restarted(nanos: nat)
      requires Valid() && Explained() && nanos <= U128_MAX
      modifies this`script, this`history, this`store, this`bearer
      ensures Valid() && fresh(store) && Explained()
      ensures script == old(script) + [Restart] && history == old(history)
      ensures store.queue == old(store.queue) && store.sequence >= nanos
      ensures bearer == if staticToken.Some? then staticToken else deviceToken
    {
      var reopened := Reopened(nanos);
      SameQueue(store.codec, reopened.queue, history, history);
      Record(Restart);
      store, bearer := reopened, if staticToken.Some? then staticToken else deviceToken;
    }

    method Reopened(nanos: nat) returns (reopened: StateStore)
      requires store.Valid() && nanos <= U128_MAX
      ensures fresh(reopened) && reopened.Valid() && reopened.sequence >= nanos
      ensures reopened.codec == store.codec && reopened.queue == store.queue
      ensures reopened.PreviousHash() == store.PreviousHash()
      ensures reopened.PreviousInventory() == store.PreviousInventory()
      ensures reopened.LastHeartbeat() == store.LastHeartbeat()
    {
      reopened := new StateStore.Open(store.codec, store.maxQueueBytes, store.queue, store.unreadable,
                                      store.hashFile, store.inventoryFile, store.heartbeatFile, nanos);
    }

    ghost function Known(): Identity
      reads this
    {
      Identity(bearer, deviceToken, claim)
    }

    /** `ensure_enrolled`. */
    method EnsureEnrolled(e: Enrollment) returns (ok: bool)
      requires Credentials()
      modifies this`bearer, this`deviceToken, this`claim
      ensures Credentials()
      ensures !configured || old(bearer).Some? || staticToken.Some? ==> ok && Known() == old(Known())
      ensures configured && old(bearer).None? && staticToken.None? ==>
        && (ok <==> Enrolls(old(claim), e)) && Known() == Registered(old(Known()), e)
        && (ok ==> "ivq_at_" <= bearer.value && claim == ClaimOf(old(claim), e) && bearer == e.server(claim.value))
      // What the server issues for the claim presented is taken if it looks like a device token.
      ensures configured && old(bearer).None? && staticToken.None? ==>
        (ok <==>
          && claim.Some? && "ivq_ec_" <= claim.value && e.tokenWrite.Durable?
          && (!(old(claim).Some? && e.claimReadable) ==> e.claimWrite.Durable?)
          && e.server(claim.value).Some? && "ivq_at_" <= e.server(claim.value).value)
    {
      if !configured || bearer.Some? || staticToken.Some? {
        return true;
      }
      var presented := EnrollmentClaim(e);
      if presented.None? {
        return false;
      }
      var token := e.server(presented.value);
      if token.None? || !(TOKEN_PREFIX <= token.value) {
        return false;
      }
      if Landed(e.tokenWrite) {
        deviceToken := token;
      }
      ok := e.tokenWrite.Durable?;
      if ok {
        bearer := token;
      }
    }

    /** `enrollment_claim`: a claim once stored is presented in every later attempt. */
    method EnrollmentClaim(e: Enrollment) returns (presented: Option<string>)
      modifies this`claim
      ensures presented == ClaimOf(old(claim), e) && claim == ClaimLeft(old(claim), e)
      ensures presented.Some? ==> claim == presented && "ivq_ec_" <= presented.value
      ensures old(claim).Some? && e.claimReadable ==>
        claim == old(claim) && (presented.Some? <==> "ivq_ec_" <= claim.value)
      ensures old(claim).None? || !e.claimReadable ==>
        && (presented.Some? <==> e.claimWrite.Durable?)
        && claim == if e.claimWrite.NotWritten? then old(claim) else Some("ivq_ec_" + e.nonce)
    {
      if claim.Some? && e.claimReadable {
        return if CLAIM_PREFIX <= claim.value then claim else None;
      }
      var made := CLAIM_PREFIX + e.nonce;
      if Landed(e.claimWrite) {
        claim := Some(made);
      }
      presented := if e.claimWrite.Durable? then Some(made) else None;
    }

    /** Sends one event; a rejected device credential is replaced and the event sent once more. */
    method SendOnce(contact: Contact) returns (reply: Option<Reply>)
      requires Credentials() && configured && bearer.Some?
      modifies this`bearer, this`deviceToken, this`claim, this`discards
      ensures Credentials()
      ensures reply == FinalReply(staticToken.Some?, old(claim), contact)
      ensures if contact.first.Unauthorized? && staticToken.None? && contact.tokenRemovable
        then discards == old(discards) + 1 && Known() == Renewed(old(Known()), contact.reenroll)
        else discards == old(discards) && Known() == old(Known())
      ensures reply.Some? ==> bearer.Some?
    {
      if !contact.first.Unauthorized? || staticToken.Some? {
        return Some(contact.first);
      }
      if deviceToken.Some? && !contact.tokenRemovable {
        return None;
      }
      discards := discards + 1;
      deviceToken, bearer := None, None;
      var ok := EnsureEnrolled(contact.reenroll);
      reply := if ok then Some(contact.retry) else None;
    }

    /** An event that cannot be read leaves the queue instead of blocking it. */
    method SetHeadAside(name: string, movable: bool, stuck: set<string>) returns (ok: bool)
      requires Valid() && Explained() && Pending(store.queue) != [] && name == Pending(store.queue)[0]
      modifies this`script, this`history, store`queue, store`unreadable
      ensures Valid() && store == old(store) && Explained() && ok == movable
      ensures !ok ==> history == old(history)
      ensures history.acknowledged == old(history).acknowledged
      ensures store.unreadable == if ok then KeptAside(old(store.unreadable), name, old(store.queue)[name], stuck)
        else old(store.unreadable)
      ensures ok ==> Pending(store.queue) == old(Pending(store.queue))[1..]
      ensures store.queue == if ok then old(store.queue) - {name} else old(store.queue)
      ensures script == old(script) + if ok then [SetAside] else []
    {
      ghost var rest := history.(queue := history.queue[1..]);
      TiedTail(store.codec, store.queue, history, rest);
      PendingTail(store.queue);
      FewerNames(store.queue, name);
      ok := store.Quarantine(name, movable, stuck);
      if ok {
        Record(SetAside);
        SameQueue(store.codec, store.queue, rest, history);
      }
    }

    /** The server accepted the head of the queue: take it out. */
    method AcknowledgeHead(name: string, removable: bool) returns (ok: bool)
      requires Valid() && Explained() && Pending(store.queue) != [] && name == Pending(store.queue)[0]
      modifies this`script, this`history, store`queue
      ensures Valid() && store == old(store) && Explained() && ok == removable
      ensures |history.acknowledged| == |old(history).acknowledged| + if ok then 1 else 0
      ensures ok ==> Pending(store.queue) == old(Pending(store.queue))[1..]
      ensures store.queue == if ok then old(store.queue) - {name} else old(store.queue)
      ensures store.unreadable == old(store.unreadable)
      ensures script == old(script) + [Send(true, ok)]
    {
      ghost var rest := history.(queue := history.queue[1..]);
      ghost var before := history;
      TiedTail(store.codec, store.queue, history, rest);
      PendingTail(store.queue);
      FewerNames(store.queue, name);
      ok := store.Acknowledge(name, removable);
      Record(Send(true, ok));
      SameQueue(store.codec, store.queue, if ok then rest else before, history);
    }

    /** One event at the head of the queue: read it, send it, and take it out when accepted. */
    method DeliverHead(name: string, contact: Contact) returns (ok: bool, sent: bool, ghost steps: seq<Action>)
      requires Valid() && Explained() && Pending(store.queue) != [] && name == Pending(store.queue)[0]
      requires configured && bearer.Some?
      modifies this`script, this`history, this`bearer, this`deviceToken, this`claim, this`discards, store`queue,
        store`unreadable
      ensures Valid() && store == old(store) && Explained()
      ensures ok ==> Pending(store.queue) == old(Pending(store.queue))[1..] && bearer.Some?
      ensures store.queue == if ok then old(store.queue) - {name} else old(store.queue)
      ensures store.unreadable == if ok && !sent
        then KeptAside(old(store.unreadable), name, old(store.queue)[name], contact.stuck) else old(store.unreadable)
      ensures |history.acknowledged| == |old(history).acknowledged| + if sent then 1 else 0
      ensures script == old(script) + steps
      ensures var readable := Intact(store.codec, old(store.queue), name) && contact.readable;
        var reply := FinalReply(staticToken.Some?, old(claim), contact);
        && (sent <==> readable && reply == Some(Accepted) && contact.removable)
        && (ok <==> if readable then sent else contact.movable)
        && steps == (if !readable then if contact.movable then [SetAside] else []
                     else if reply.None? then []
                     else [Send(reply.value.Accepted? || reply.value.ReplyLost?, sent)])
        && if readable && contact.first.Unauthorized? && staticToken.None? && contact.tokenRemovable
           then discards == old(discards) + 1 && Known() == Renewed(old(Known()), contact.reenroll)
           else discards == old(discards) && Known() == old(Known())
    {
      var read := store.ReadEnvelope(name, contact.readable);
      if read.Err? {
        ok := SetHeadAside(name, contact.movable, contact.stuck);
        return ok, false, if ok then [SetAside] else [];
      }
      ok, steps := SendHead(name, contact);
      sent := ok;
    }

    /** The event stays at the head; the server may have accepted it without the agent knowing. */
    ghost method LeaveHead(accepted: bool)
      requires Valid() && Explained()
      modifies this`script, this`history
      ensures Valid() && Explained()
      ensures script == old(script) + [Send(accepted, false)] && history.acknowledged == old(history).acknowledged
    {
      ghost var before := history;
      Record(Send(accepted, false));
      SameQueue(store.codec, store.queue, before, history);
    }

    /** Sends the event at the head of the queue, and takes it out when it is accepted. */
    method SendHead(name: string, contact: Contact) returns (ok: bool, ghost steps: seq<Action>)
      requires Valid() && Explained() && Pending(store.queue) != [] && name == Pending(store.queue)[0]
      requires configured && bearer.Some?
      modifies this`script, this`history, this`bearer, this`deviceToken, this`claim, this`discards, store`queue
      ensures Valid() && store == old(store) && Explained()
      ensures ok ==> Pending(store.queue) == old(Pending(store.queue))[1..] && bearer.Some?
      ensures store.queue == if ok then old(store.queue) - {name} else old(store.queue)
      ensures store.unreadable == old(store.unreadable)
      ensures |history.acknowledged| == |old(history).acknowledged| + if ok then 1 else 0
      ensures script == old(script) + steps
      ensures var reply := FinalReply(staticToken.Some?, old(claim), contact);
        && (ok <==> reply == Some(Accepted) && contact.removable)
        && steps == if reply.None? then [] else [Send(reply.value.Accepted? || reply.value.ReplyLost?, ok)]
      ensures if contact.first.Unauthorized? && staticToken.None? && contact.tokenRemovable
        then discards == old(discards) + 1 && Known() == Renewed(old(Known()), contact.reenroll)
        else discards == old(discards) && Known() == old(Known())
    {
      var reply := SendOnce(contact);
      if reply.None? {
        return false, [];
      }
      if !reply.value.Accepted? {
        LeaveHead(reply.value.ReplyLost?);
        return false, [Send(reply.value.ReplyLost?, false)];
      }
      ok := AcknowledgeHead(name, contact.removable);
      steps := [Send(true, ok)];
    }

    /** The pass over the events that are pending now. */
    ghost function Pass(net: nat -> Contact): Delivery
      reads this, store
    {
      Delivery(store.codec, store.queue, Pending(store.queue), net, staticToken.Some?, Known())
    }

    /** `deliver`: the pending events, oldest first, until one of them cannot be handed over. The
        first `reached` of them are tried, in the pass that begins after registration. */
    method Deliver(enrollment: Enrollment, net: nat -> Contact)
      returns (ok: bool, sent: nat, ghost steps: seq<Action>, ghost reached: nat)
      requires Valid() && Explained()
      modifies this`script, this`history, this`bearer, this`deviceToken, this`claim, this`discards, store`queue,
        store`unreadable
      ensures Valid() && store == old(store) && Explained() && script == old(script) + steps
      ensures |history.acknowledged| == |old(history).acknowledged| + sent
      ensures var registered := old(bearer).Some? || Enrolls(old(claim), enrollment);
        if !configured || !registered then
          && ok == !configured && sent == 0 && steps == []
          && store.queue == old(store.queue) && discards == old(discards)
          && Known() == (if configured then Registered(old(Known()), enrollment) else old(Known()))
        else
          var id := if old(bearer).Some? then old(Known()) else Registered(old(Known()), enrollment);
          var d := old(Pass(net)).(id := id);
          // The last event tried is the first that could not be handed over, if there is one.
          && d.Reaches(reached, ok) && sent == d.SentTo(reached) && steps == d.StepsTo(reached)
          && store.queue == d.Left(d.Gone(reached, ok)) && Pending(store.queue) == d.names[d.Gone(reached, ok)..]
          // A credential is discarded once for every event it is rejected for, not once a cycle.
          && discards == old(discards) + d.RejectedTo(reached) && Known() == d.IdentityAt(reached)
      ensures ok && configured ==> Pending(store.queue) == [] && history.queue == []
    {
      sent, steps, reached := 0, [], 0;
      ok := EnsureEnrolled(enrollment);
      if !ok || !configured {
        return;
      }
      ok, sent, steps, reached := HandOver(net, Pass(net), Counters());
    }

    /** When every queued event is intact and accepted at the first attempt, the queue is drained
        and every event counted. */
    method AcceptedAtOnce(enrollment: Enrollment, net: nat -> Contact)
      returns (ok: bool, sent: nat, ghost steps: seq<Action>, ghost reached: nat)
      requires Valid() && Explained() && configured && (bearer.Some? || Enrolls(claim, enrollment))
      requires forall i :: 0 <= i < |Pending(store.queue)| ==>
        && Intact(store.codec, store.queue, Pending(store.queue)[i])
        && net(i).readable && net(i).first.Accepted? && net(i).removable
      modifies this`script, this`history, this`bearer, this`deviceToken, this`claim, this`discards, store`queue,
        store`unreadable
      ensures Valid() && store == old(store) && Explained()
      ensures ok && Pending(store.queue) == [] && sent == |old(Pending(store.queue))|
    {
      ghost var d := Pass(net).(id := if bearer.Some? then Known() else Registered(Known(), enrollment));
      AllAccepted(d, |d.names|);
      AllHandedOver(d, |d.names|);
      ok, sent, steps, reached := Deliver(enrollment, net);
    }

    /** The loop over the pending events. */
    method HandOver(net: nat -> Contact, ghost d: Delivery, ghost start: Tally)
      returns (ok: bool, sent: nat, ghost steps: seq<Action>, ghost reached: nat)
      requires Valid() && Explained() && configured && bearer.Some?
      requires d == Pass(net) && start == Counters()
      modifies this`script, this`history, this`bearer, this`deviceToken, this`claim, this`discards, store`queue,
        store`unreadable
      ensures Valid() && store == old(store) && Explained()
      ensures Tried(d, start, reached, ok, sent, steps)
      ensures ok ==> reached == |d.names|
    {
      ok, sent, steps, reached := true, 0, [], 0;
      var names := store.PendingPaths();
      SortedNamesLists(EventNames(store.queue));
      NoneLeft(d);
      for i := 0 to |names|
        invariant Valid() && store == old(store) && Explained() && ok && reached == i
        invariant bearer.Some? && Tried(d, start, i, true, sent, steps)
      {
        ok, sent, steps := HandOverNext(names[i], net(i), sent, d, start, steps, i);
        reached := i + 1;
        if !ok {
          return;
        }
      }
    }

    /** What a pass adds to. */
    ghost function Counters(): Tally
      reads this
    {
      Tally(script, discards, |history.acknowledged|)
    }

    /** What a pass leaves when it tried the first `reached` events and the first `gone` left. */
    ghost predicate Stands(d: Delivery, reached: nat, gone: nat)
      requires gone <= reached <= |d.names|
      reads this, store
    {
      store.queue == d.Left(gone) && Pending(store.queue) == d.names[gone..]
      && Known() == d.IdentityAt(reached)
    }

    /** Where the pass stands after trying `reached` events, the last of them with success or not. */
    ghost predicate Tried(d: Delivery, start: Tally, reached: nat, ok: bool, sent: nat, steps: seq<Action>)
      reads this, store
    {
      && reached <= |d.names| && 0 <= d.Gone(reached, ok) && d.HandedOverTo(d.Gone(reached, ok))
      && (!ok ==> !d.HandedOver(reached - 1))
      && Stands(d, reached, d.Gone(reached, ok))
      && d.Adds(reached, start, Counters(), sent, steps)
    }

    method HandOverNext(name: string, contact: Contact, before: nat, ghost d: Delivery, ghost start: Tally,
                        ghost past: seq<Action>, ghost i: nat)
      returns (ok: bool, sent: nat, ghost steps: seq<Action>)
      requires Valid() && Explained() && configured && bearer.Some?
      requires i < |d.names| && Ascending(d.names) && name == d.names[i] && contact == d.net(i)
      requires d.codec == store.codec && d.fixed == staticToken.Some? && Tried(d, start, i, true, before, past)
      requires forall x :: x in d.names ==> x in d.files
      modifies this`script, this`history, this`bearer, this`deviceToken, this`claim, this`discards, store`queue,
        store`unreadable
      ensures Valid() && store == old(store) && Explained() && (ok ==> bearer.Some?)
      ensures Tried(d, start, i + 1, ok, sent, steps)
    {
      var accepted;
      ghost var step;
      ok, accepted, step := HandOverOne(name, contact, d, i);
      sent, steps := if accepted then before + 1 else before, past + step;
      d.AddsOne(i, start, old(Counters()), before, past, Counters(), step);
    }

    /** The event whose turn it is. */
    method HandOverOne(name: string, contact: Contact, ghost d: Delivery, ghost i: nat)
      returns (ok: bool, sent: bool, ghost steps: seq<Action>)
      requires Valid() && Explained() && configured && bearer.Some?
      requires i < |d.names| && Ascending(d.names) && name == d.names[i] && contact == d.net(i)
      requires d.codec == store.codec && d.fixed == staticToken.Some? && Stands(d, i, i)
      requires forall x :: x in d.names ==> x in d.files
      modifies this`script, this`history, this`bearer, this`deviceToken, this`claim, this`discards, store`queue,
        store`unreadable
      ensures Valid() && store == old(store) && Explained() && (ok ==> bearer.Some?)
      ensures (ok <==> d.HandedOver(i)) && (sent <==> d.Sent(i))
      ensures Stands(d, i + 1, if ok then i + 1 else i)
      ensures discards == old(discards) + if d.Rejected(i) then 1 else 0
      ensures |history.acknowledged| == |old(history).acknowledged| + if sent then 1 else 0
      ensures script == old(script) + steps && steps == d.StepsAt(i)
    {
      OneMoreLeft(d, i);
      ok, sent, steps := DeliverHead(name, contact);
    }

    /** However many intact events are queued, if the credential is rejected for each of them and
        each time made good, all are delivered and the credential is replaced for each: twice in
        one cycle for two events. */
    method RenewedForEveryEvent(enrollment: Enrollment, net: nat -> Contact)
      returns (ok: bool, sent: nat, ghost steps: seq<Action>, ghost reached: nat)
      requires Valid() && Explained() && configured && staticToken.None? && bearer.Some? && Sound(claim)
      requires AllRenew(store.codec, store.queue, net)
      modifies this`script, this`history, this`bearer, this`deviceToken, this`claim, this`discards, store`queue,
        store`unreadable
      ensures Valid() && store == old(store) && Explained()
      ensures ok && Pending(store.queue) == [] && sent == |old(Pending(store.queue))|
      ensures discards == old(discards) + |old(Pending(store.queue))|
    {
      ghost var d := Pass(net);
      SortedNamesLists(EventNames(store.queue));
      forall i | 0 <= i < |d.names| ensures Intact(d.codec, d.files, d.names[i]) {
        assert d.names[i] in EventNames(store.queue);
      }
      AllRenewed(d);
      AllSent(d, |d.names|);
      AllRejected(d, |d.names|);
      ok, sent, steps, reached := Deliver(enrollment, net);
    }

    // ----- damage from outside -----

    /** The inventory file becomes unreadable. */
    method LoseInventory()
      requires Valid() && Explained()
      modifies this`script, this`history, store`inventoryFile
      ensures Valid() && store == old(store) && Explained() && script == old(script) + [DamageInventory]
      ensures store.PreviousInventory() == [] && store.queue == old(store.queue)
    {
      store.inventoryFile := Damaged;
      ghost var before := history;
      Record(DamageInventory);
      SameQueue(store.codec, store.queue, before, history);
    }

    /** The hash file disappears. */
    method LoseHashFile()
      requires Valid() && Explained()
      modifies this`script, this`history, store`hashFile
      ensures Valid() && store == old(store) && Explained() && script == old(script) + [LoseHash]
      ensures store.PreviousHash() == None && store.queue == old(store.queue)
    {
      store.hashFile := None;
      ghost var before := history;
      Record(LoseHash);
      SameQueue(store.codec, store.queue, before, history);
    }

    /** A queued event becomes unreadable; nothing shows it until the event is read. */
    method DamageEvent(name: string, bytes: Bytes)
      requires Valid() && Explained() && name in store.queue && store.codec.decode(bytes).None?
      modifies store`queue
      ensures Valid() && store == old(store) && Explained() && script == old(script)
      ensures store.queue == old(store.queue)[name := bytes] && Pending(store.queue) == old(Pending(store.queue))
    {
      DamagedTied(store.codec, store.queue, history, name, bytes);
      store.queue := store.queue[name := bytes];
    }

    // ----- what holds of the agent at any time -----

    /** Whatever the agent went through, what the server accepted or will be sent rebuilds its
        baseline file on every identifier that is not under suspicion. */
    lemma FilesInSync()
      requires Valid() && Explained()
      ensures Inv(history) && Inv(FRESH)
      ensures AgreeOutside(EventualView(history), ViewOfRecords(store.PreviousInventory()),
                           Suspect(cfg, FRESH, script))
    {
      EveryRunInSync(cfg, script);
    }

    /** Without damage and interruption, an empty queue directory means that the server holds
        exactly the baseline file. */
    lemma EmptyQueueMeansDelivered()
      requires Valid() && Explained() && NoDamage(script) && NeverInterrupted(cfg, script)
      requires Pending(store.queue) == []
      ensures Inv(history)
      ensures ServerView(history) == ViewOfRecords(store.PreviousInventory())
    {
      DrainedServerHoldsBaseline(cfg, script);
    }
  }

  ghost predicate AllDurable(writes: CycleWrites, changed: bool) {
    && writes.event.Durable? && writes.heartbeat.Durable?
    && (changed ==> writes.hash.Durable? && writes.inventory.Durable?)
  }

  lemma HeartbeatTied(cfg: Config, h: State, a: Action, codec: Codec, before: map<string, Bytes>,
                      after: map<string, Bytes>)
    requires QueueTied(codec, before, h) && a.QueueHeartbeat?
    requires if a.refused || !Landed(a.eventWrite) then after == before
      else QueueTied(codec, after, Append(h, HeartbeatEnvelope(h, a.now, a.eventId)))
    ensures QueueTied(codec, after, Step(cfg, h, a))
  {
    if !a.refused && Landed(a.eventWrite) {
      SameQueue(codec, after, Append(h, HeartbeatEnvelope(h, a.now, a.eventId)), Step(cfg, h, a));
    }
  }

  /** The cycle reached the writing of the baseline. */
  ghost predicate BaselineStarts(plan: Plan, refused: bool, event: WriteOutcome) {
    !refused && event.Durable? && plan.changed
  }

  /** The cycle reached the writing of the heartbeat's time. */
  ghost predicate HeartbeatStarts(plan: Plan, refused: bool, event: WriteOutcome, hash: WriteOutcome,
                                  inventory: WriteOutcome) {
    !refused && event.Durable? && (plan.changed ==> hash.Durable? && inventory.Durable?)
  }

  ghost predicate AllRenew(codec: Codec, files: map<string, Bytes>, net: nat -> Contact) {
    (forall name :: name in EventNames(files) ==> Intact(codec, files, name)) && forall i :: Renews(net(i))
  }

  lemma NoneLeft(d: Delivery)
    ensures d.Left(0) == d.files && d.names[0..] == d.names
  {
    assert Firsts(d.names, 0) == {};
  }

  /** The next event of a pass is as it was at the start, and is the one that goes next. */
  lemma OneMoreLeft(d: Delivery, i: nat)
    requires i < |d.names| && Ascending(d.names) && forall x :: x in d.names ==> x in d.files
    ensures d.names[i..] != [] && d.names[i..][0] == d.names[i] && d.names[i..][1..] == d.names[i + 1..]
    ensures d.Left(i + 1) == d.Left(i) - {d.names[i]}
    ensures Intact(d.codec, d.Left(i), d.names[i]) == Intact(d.codec, d.files, d.names[i])
  {
    AscendingDistinct(d.names);
    OneMoreFirst(d.names, i);
    assert d.names[i] !in Firsts(d.names, i);
  }

  lemma DamagedTied(codec: Codec, files: map<string, Bytes>, h: State, name: string, bytes: Bytes)
    requires QueueTied(codec, files, h) && name in files && codec.decode(bytes).None?
    ensures QueueTied(codec, files[name := bytes], h) && Pending(files[name := bytes]) == Pending(files)
    ensures EventNames(files[name := bytes]) == EventNames(files)
  {
    var more := files[name := bytes];
    assert EventNames(more) == EventNames(files);
    forall i | 0 <= i < |h.queue| ensures FileTied(codec, more, Pending(more)[i], h.landed, h.queue[i]) {
      assert FileTied(codec, files, Pending(files)[i], h.landed, h.queue[i]);
    }
  }

  lemma RemovedBy(cfg: Config, h: State, c: Cycle, collectors: seq<Collector>, stopped: set<string>,
                  windows: bool, loaded: set<string>)
    requires c.snapshot.errors == [] <==> forall x :: x in collectors ==> Healthy(x, stopped)
    requires forall k :: k in Index(c.snapshot.records) <==>
      k in Index(Gathered(collectors, stopped)) || (windows && UnloadedIn(k, h.inventory, loaded))
    ensures forall k :: ReportsRemoval(CycleEvent(cfg, h, c), k) <==>
      && h.hash.Some? && k in Index(h.inventory)
      && (forall x :: x in collectors ==> Healthy(x, stopped))
      && k !in Index(Gathered(collectors, stopped)) && !(windows && UnloadedIn(k, h.inventory, loaded))
  {
    forall k
      ensures ReportsRemoval(CycleEvent(cfg, h, c), k) <==>
        && h.hash.Some? && k in Index(h.inventory)
        && (forall x :: x in collectors ==> Healthy(x, stopped))
        && k !in Index(Gathered(collectors, stopped)) && !(windows && UnloadedIn(k, h.inventory, loaded))
    {
      RemovalsNeedCleanCycle(cfg, h, c, k);
    }
  }

  lemma MoreSorted(script: seq<Action>, c: Cycle)
    ensures SortedSnapshots(script) && SortedUnique(c.snapshot.records) && c.snapshot.schemaVersion == 1 ==>
      SortedSnapshots(script + [Collect(c)])
  {
  }

  /** The queue directory is tied to any state with the same queue. */
  lemma SameQueue(codec: Codec, files: map<string, Bytes>, h: State, t: State)
    requires QueueTied(codec, files, h) && t.queue == h.queue && t.landed == h.landed
    ensures QueueTied(codec, files, t)
  {
    forall i | 0 <= i < |t.queue| ensures FileTied(codec, files, Pending(files)[i], t.landed, t.queue[i]) {
      assert FileTied(codec, files, Pending(files)[i], h.landed, h.queue[i]);
    }
  }

  lemma FewerNames(files: map<string, Bytes>, name: string)
    ensures OwnNames(files) ==> OwnNames(files - {name})
  {
    assert EventNames(files - {name}) <= EventNames(files);
  }

  /** After the writes of a cycle the cached files are tied to the state after that cycle. */
  lemma CollectCaches(cfg: Config, h: State, c: Cycle, plan: Plan, hash: Option<string>, inventory: seq<AssetRecord>,
                      lastHeartbeat: nat)
    requires plan == PlanOf(cfg, h, c) && (plan.changed || plan.due)
    requires var baseline := BaselineStarts(plan, c.refused, c.eventWrite);
      && hash == (if baseline && Landed(c.hashWrite) then Some(plan.envelope.snapshotHash) else h.hash)
      && inventory == (if baseline && c.hashWrite.Durable? && Landed(c.inventoryWrite) then plan.effective
                       else h.inventory)
      && lastHeartbeat == (if HeartbeatStarts(plan, c.refused, c.eventWrite, c.hashWrite, c.inventoryWrite)
           && Landed(c.heartbeatWrite) then c.now else h.lastHeartbeat)
    ensures CachesTied(hash, inventory, lastHeartbeat, CollectStep(cfg, h, c))
  {
  }

  /** After the writes of a cycle the queue directory is tied to the state after that cycle. */
  lemma CollectTied(cfg: Config, h: State, c: Cycle, codec: Codec, before: map<string, Bytes>,
                    after: map<string, Bytes>)
    requires QueueTied(codec, before, h)
    requires Changed(h, c) || HeartbeatDue(cfg, h, c.now)
    requires if c.refused || !Landed(c.eventWrite) then after == before
      else QueueTied(codec, after, Append(h, CycleEvent(cfg, h, c)))
    ensures QueueTied(codec, after, CollectStep(cfg, h, c))
  {
    if EventLands(cfg, h, c) {
      SameQueue(codec, after, Append(h, CycleEvent(cfg, h, c)), CollectStep(cfg, h, c));
    }
  }
}
