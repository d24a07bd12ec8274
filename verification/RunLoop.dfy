// The agent's main loop: when it wakes, what it then does, and how long it holds back after
// deliveries that failed (Agent::run in src/scheduler.rs).

module RunLoop {
  import opened Machine
  import opened Wrappers

  const SECOND: nat := 1_000_000_000

  /** Both intervals are positive in every accepted configuration; the backoff limit may be zero. */
  datatype Settings = Settings(intervalSeconds: nat, heartbeatSeconds: nat, maxBackoffSeconds: nat)

  ghost predicate Accepted(cfg: Settings) {
    cfg.intervalSeconds > 0 && cfg.heartbeatSeconds > 0 && cfg.maxBackoffSeconds <= U64_MAX
  }

  datatype Loop = Loop(backoff: nat, retryAt: Option<nat>, nextCollection: nat)

  /** One turn. Instants are nanoseconds of a clock that never goes back: `clock` when the wake-up
      time is computed, `woke` when the sleep ends, then the ends of collection and delivery.
      `elapsed` is the wall-clock age of the last heartbeat in seconds. */
  datatype Turn = Turn(
    clock: nat, elapsed: nat, woke: nat, collected: bool, heartbeatQueued: bool, collectedAt: nat,
    delivered: bool, deliveredAt: nat)

  function Lesser(a: nat, b: nat): nat {
    if a <= b then a else b
  }

  function HeartbeatAt(cfg: Settings, t: Turn): nat {
    t.clock + SaturatingSub(cfg.heartbeatSeconds, t.elapsed) * SECOND
  }

  function WakeAt(cfg: Settings, s: Loop, t: Turn): nat {
    var first := Lesser(s.nextCollection, HeartbeatAt(cfg, t));
    if s.retryAt.Some? then Lesser(s.retryAt.value, first) else first
  }

  /** A sleep never ends early, and time does not go back within a turn. */
  predicate Possible(cfg: Settings, s: Loop, t: Turn) {
    t.clock <= t.woke && WakeAt(cfg, s, t) <= t.woke <= t.collectedAt <= t.deliveredAt
  }

  predicate Collects(s: Loop, t: Turn) {
    t.woke >= s.nextCollection
  }

  /** What one turn does: collect, or queue a heartbeat; and contact the server. */
  datatype Work = Work(collects: bool, beats: bool, delivers: bool)

  function WorkOf(cfg: Settings, s: Loop, t: Turn): Work {
    Work(Collects(s, t), !Collects(s, t) && t.woke >= HeartbeatAt(cfg, t), Delivers(cfg, s, t))
  }

  predicate Queues(cfg: Settings, s: Loop, t: Turn) {
    if Collects(s, t) then t.collected
    else t.woke >= HeartbeatAt(cfg, t) && t.heartbeatQueued
  }

  predicate Delivers(cfg: Settings, s: Loop, t: Turn) {
    Queues(cfg, s, t) || (s.retryAt.Some? && t.woke >= s.retryAt.value)
  }

  function Doubled(cfg: Settings, backoff: nat): nat {
    Lesser(SaturatingAdd64(backoff, backoff), if cfg.maxBackoffSeconds >= 1 then cfg.maxBackoffSeconds else 1)
  }

  function AfterDelivery(cfg: Settings, s: Loop, ok: bool, at: nat): Loop {
    if ok then s.(backoff := 1, retryAt := None)
    else s.(backoff := Doubled(cfg, s.backoff), retryAt := Some(at + s.backoff * SECOND))
  }

  ghost function Step(cfg: Settings, s: Loop, t: Turn): Loop {
    var next := if t.woke < s.nextCollection then s
      else s.(nextCollection := t.collectedAt + cfg.intervalSeconds * SECOND);
    if Delivers(cfg, s, t) then AfterDelivery(cfg, next, t.delivered, t.deliveredAt) else next
  }

  ghost function Start(cfg: Settings, started: nat, ok: bool, at: nat): Loop {
    AfterDelivery(cfg, Loop(1, None, started + cfg.intervalSeconds * SECOND), ok, at)
  }

  ghost function RunOf(cfg: Settings, s: Loop, turns: seq<Turn>): Loop {
    if turns == [] then s else Step(cfg, RunOf(cfg, s, turns[..|turns| - 1]), turns[|turns| - 1])
  }

  /** What each turn did. */
  ghost function LogOf(cfg: Settings, s: Loop, turns: seq<Turn>): seq<Work> {
    if turns == [] then [] else
      var front, t := turns[..|turns| - 1], turns[|turns| - 1];
      LogOf(cfg, s, front) + [WorkOf(cfg, RunOf(cfg, s, front), t)]
  }

  /** `run`, from the end of the first collection on, for as many turns as it lives. */
  method Run(cfg: Settings, started: nat, firstOk: bool, firstAt: nat, turns: seq<Turn>)
    returns (s: Loop, log: seq<Work>)
    ensures s == RunOf(cfg, Start(cfg, started, firstOk, firstAt), turns)
    ensures log == LogOf(cfg, Start(cfg, started, firstOk, firstAt), turns)
  {
    log := [];
    var backoff: nat, retryAt: Option<nat>, nextCollection: nat := 1, None, started + cfg.intervalSeconds * SECOND;
    if !firstOk {
      retryAt := Some(firstAt + backoff * SECOND);
      backoff := Doubled(cfg, backoff);
    }
    for i := 0 to |turns|
      invariant Loop(backoff, retryAt, nextCollection) == RunOf(cfg, Start(cfg, started, firstOk, firstAt), turns[..i])
      invariant log == LogOf(cfg, Start(cfg, started, firstOk, firstAt), turns[..i])
    {
      assert turns[..i + 1][..i] == turns[..i];
      var t := turns[i];
      var eventQueued, collects, beats := false, false, false;
      var retryDue := retryAt.Some? && t.woke >= retryAt.value;
      if t.woke >= nextCollection {
        collects, eventQueued := true, t.collected;
        nextCollection := t.collectedAt + cfg.intervalSeconds * SECOND;
      } else if t.woke >= HeartbeatAt(cfg, t) {
        beats, eventQueued := true, t.heartbeatQueued;
      }
      if !eventQueued && !retryDue {
        log := log + [Work(collects, beats, false)];
        continue;
      }
      log := log + [Work(collects, beats, true)];
      if t.delivered {
        backoff, retryAt := 1, None;
      } else {
        retryAt := Some(t.deliveredAt + backoff * SECOND);
        backoff := Doubled(cfg, backoff);
      }
    }
    assert turns[..|turns|] == turns;
    s := Loop(backoff, retryAt, nextCollection);
  }

  // ----- how long the loop holds back -----

  function Pow2(k: nat): (p: nat)
    ensures p >= 1
  {
    if k == 0 then 1 else 2 * Pow2(k - 1)
  }

  /** The pause after `k` failures in a row have already been answered by pauses. */
  function Pause(cfg: Settings, k: nat): nat {
    Lesser(Pow2(k), if cfg.maxBackoffSeconds >= 1 then cfg.maxBackoffSeconds else 1)
  }

  /** Failed deliveries since the last success, and when the last of them ended. */
  datatype Failures = Failures(count: nat, lastAt: nat)

  function Count(f: Failures, ok: bool, at: nat): Failures {
    if ok then Failures(0, f.lastAt) else Failures(f.count + 1, at)
  }

  ghost function FailuresOf(cfg: Settings, s: Loop, f: Failures, turns: seq<Turn>): Failures {
    if turns == [] then f else
      var front, t := turns[..|turns| - 1], turns[|turns| - 1];
      var before := FailuresOf(cfg, s, f, front);
      if Delivers(cfg, RunOf(cfg, s, front), t) then Count(before, t.delivered, t.deliveredAt) else before
  }

  ghost predicate Follows(cfg: Settings, s: Loop, f: Failures) {
    && s.backoff == Pause(cfg, f.count)
    && s.retryAt == if f.count == 0 then None else Some(f.lastAt + Pause(cfg, f.count - 1) * SECOND)
  }

  lemma PauseDoubles(cfg: Settings, k: nat)
    requires cfg.maxBackoffSeconds <= U64_MAX
    ensures Doubled(cfg, Pause(cfg, k)) == Pause(cfg, k + 1)
  {
  }

  /** In every run the state of the loop is a function of the failures in a row: the k-th of them
      is answered after min(2^(k-1), limit) seconds, and a success forgets them all. */
  lemma {:induction false} BackoffFollowsFailures(cfg: Settings, started: nat, firstOk: bool, firstAt: nat,
                                                  turns: seq<Turn>)
    requires Accepted(cfg)
    ensures var s := Start(cfg, started, firstOk, firstAt);
      Follows(cfg, RunOf(cfg, s, turns), FailuresOf(cfg, s, Count(Failures(0, 0), firstOk, firstAt), turns))
  {
    if turns == [] {
      assert Pow2(0) == 1 && Pow2(1) == 2;
    } else {
      var front := turns[..|turns| - 1];
      var s, f := Start(cfg, started, firstOk, firstAt), Count(Failures(0, 0), firstOk, firstAt);
      BackoffFollowsFailures(cfg, started, firstOk, firstAt, front);
      PauseDoubles(cfg, FailuresOf(cfg, s, f, front).count);
      assert Pow2(0) == 1;
    }
  }

  /** So a turn with nothing new to send contacts the server exactly when the pause after the
      last of the failures is over. */
  lemma RetriesOnSchedule(cfg: Settings, started: nat, firstOk: bool, firstAt: nat, turns: seq<Turn>, t: Turn)
    requires Accepted(cfg)
    ensures var start := Start(cfg, started, firstOk, firstAt);
      var s, f := RunOf(cfg, start, turns), FailuresOf(cfg, start, Count(Failures(0, 0), firstOk, firstAt), turns);
      !Queues(cfg, s, t) ==>
        (Delivers(cfg, s, t) <==> f.count > 0 && t.woke >= f.lastAt + Pause(cfg, f.count - 1) * SECOND)
  {
    BackoffFollowsFailures(cfg, started, firstOk, firstAt, turns);
  }

  // ----- when the loop collects and beats -----

  /** The loop wakes at the first of what is due, and for nothing else. */
  lemma WakesForTheFirst(cfg: Settings, s: Loop, t: Turn)
    ensures var due := if t.elapsed < cfg.heartbeatSeconds then cfg.heartbeatSeconds - t.elapsed else 0;
      var heartbeat := t.clock + due * 1_000_000_000;
      var wake := WakeAt(cfg, s, t);
      && wake <= s.nextCollection && wake <= heartbeat && (s.retryAt.Some? ==> wake <= s.retryAt.value)
      && (wake == s.nextCollection || wake == heartbeat || s.retryAt == Some(wake))
  {
  }

  /** When the last collection ended, or the loop began. */
  ghost function LastCollection(cfg: Settings, start: Loop, started: nat, turns: seq<Turn>): nat {
    if turns == [] then started else
      var front, t := turns[..|turns| - 1], turns[|turns| - 1];
      if WorkOf(cfg, RunOf(cfg, start, front), t).collects then t.collectedAt
      else LastCollection(cfg, start, started, front)
  }

  /** In every run a turn collects exactly when a whole interval has passed since the last collection
      ended, whatever deliveries and heartbeats did; otherwise it queues a heartbeat exactly when
      the last one is a whole interval old; and what it queued it delivers at once. */
  lemma TurnsOnSchedule(cfg: Settings, started: nat, firstOk: bool, firstAt: nat, turns: seq<Turn>, t: Turn)
    ensures var start := Start(cfg, started, firstOk, firstAt);
      var s, work := RunOf(cfg, start, turns), WorkOf(cfg, RunOf(cfg, start, turns), t);
      && (work.collects <==>
            t.woke >= LastCollection(cfg, start, started, turns) + cfg.intervalSeconds * 1_000_000_000)
      && (work.beats <==>
            !work.collects && t.woke >= t.clock + SaturatingSub(cfg.heartbeatSeconds, t.elapsed) * 1_000_000_000)
      && ((work.collects && t.collected) || (work.beats && t.heartbeatQueued) ==> work.delivers)
  {
    NextCollectionFollows(cfg, started, firstOk, firstAt, turns);
  }

  lemma {:induction false} NextCollectionFollows(cfg: Settings, started: nat, firstOk: bool, firstAt: nat,
                                                 turns: seq<Turn>)
    ensures var start := Start(cfg, started, firstOk, firstAt);
      RunOf(cfg, start, turns).nextCollection
        == LastCollection(cfg, start, started, turns) + cfg.intervalSeconds * 1_000_000_000
  {
    if turns != [] {
      NextCollectionFollows(cfg, started, firstOk, firstAt, turns[..|turns| - 1]);
    }
  }

  // ----- whether the loop sleeps -----

  /** The turn does its work in no time, so that no delay of its own keeps the loop awake. */
  ghost predicate Instant(t: Turn) {
    t.woke == t.collectedAt == t.deliveredAt
  }

  /** In every run, after a turn that took no time, the loop sleeps exactly when the last heartbeat
      is not overdue by then: nothing holds back a heartbeat that cannot be queued. */
  lemma SleepsUnlessOverdue(cfg: Settings, started: nat, firstOk: bool, firstAt: nat, turns: seq<Turn>, t: Turn,
                            next: Turn)
    requires Accepted(cfg) && Instant(t) && next.clock == t.woke
    requires Possible(cfg, RunOf(cfg, Start(cfg, started, firstOk, firstAt), turns), t)
    ensures var s := RunOf(cfg, Start(cfg, started, firstOk, firstAt), turns);
      WakeAt(cfg, Step(cfg, s, t), next) > next.clock <==> next.elapsed < cfg.heartbeatSeconds
  {
    BackoffFollowsFailures(cfg, started, firstOk, firstAt, turns);
  }

  /** A turn that neither sleeps nor contacts the server. */
  ghost predicate Spins(cfg: Settings, s: Loop, t: Turn, clock: nat) {
    t.clock == t.woke == clock && Possible(cfg, s, t) && !Delivers(cfg, s, t)
  }

  /** A turn at an instant before the next collection and the next retry, in which an overdue
      heartbeat cannot be queued, does not sleep, does not send, and leaves the loop as it was. */
  lemma RefusedHeartbeatSpins(cfg: Settings, s: Loop, t: Turn)
    requires t.elapsed >= cfg.heartbeatSeconds && t.clock < s.nextCollection
    requires s.retryAt.Some? ==> t.clock < s.retryAt.value
    requires t.woke == t.clock && Instant(t) && !t.heartbeatQueued
    ensures Spins(cfg, s, t, t.clock) && Step(cfg, s, t) == s
  {
  }
}
