// Staging, applying and re-applying signed releases, and what every run of them does to the
// installed version (stage, prune_staged_artifacts and apply_pending in src/updater.rs).

module Updater {
  import opened Machine
  import opened Wrappers
  import DurableFs
  import Install
  import opened Release

  type Files = DurableFs.Files

  datatype Settings = Settings(
    channel: string, os: string, architecture: string, key: string, crypto: Crypto,
    reports: Install.Reporter, target: string, suffix: string)

  const ARTIFACT_PREFIX: string := "invenqor-agent-"

  function ArtifactName(version: string, suffix: string): string {
    ARTIFACT_PREFIX + version + suffix
  }

  predicate IsArtifact(name: string) {
    ARTIFACT_PREFIX <= name
  }

  datatype StageIo = StageIo(
    artifact: DurableFs.WriteIo, executable: bool, stuck: set<string>, marker: WriteOutcome, attempts: nat)

  /** The directory of staged releases. It belongs to the unprivileged agent: whatever applies an
      update must not trust what it finds here. */
  class Staging {
    const dir: DurableFs.Directory
    var pending: Option<Manifest>

    constructor (dir: DurableFs.Directory, pending: Option<Manifest>)
      ensures this.dir == dir && this.pending == pending
    {
      this.dir, this.pending := dir, pending;
    }

    /** `stage`: the artifact, then the cleanup, then the marker. */
    method Stage(m: Manifest, bytes: Bytes, suffix: string, scratch: string, io: StageIo) returns (ok: bool)
      requires dir.Valid() && io.attempts >= 1 && scratch !in dir.files
      requires scratch != ArtifactName(m.version, suffix)
      modifies this, dir
      ensures dir.Valid()
      ensures var written := DurableFs.PlannedOutcome(io.attempts, io.artifact);
        var ready := ParseVersion(m.version).Some? && written.Durable? && io.executable;
        && (ok <==> ready && io.marker.Durable?)
        && pending == (if ready && Landed(io.marker) then Some(m) else old(pending))
        && Install.Lookup(dir.files, ArtifactName(m.version, suffix))
           == if ParseVersion(m.version).Some? && Landed(written) then Some(bytes)
              else Install.Lookup(old(dir.files), ArtifactName(m.version, suffix))
      // Older artifacts go when the new one is ready; nothing else is touched.
      ensures var ready := ParseVersion(m.version).Some? && io.executable
          && DurableFs.PlannedOutcome(io.attempts, io.artifact).Durable?;
        forall name :: name != ArtifactName(m.version, suffix) && name != scratch ==>
          Install.Lookup(dir.files, name)
            == if ready && "invenqor-agent-" <= name && name !in io.stuck then None
               else Install.Lookup(old(dir.files), name)
    {
      if ParseVersion(m.version).None? {
        return false;
      }
      var name := ArtifactName(m.version, suffix);
      ghost var before := dir.files;
      var written := dir.AtomicWrite(name, bytes, scratch, io.attempts, io.artifact);
      forall other | other != name && other != scratch
        ensures Install.Lookup(dir.files, other) == Install.Lookup(before, other)
      {
        assert other in dir.files <==> other in dir.files - {scratch};
      }
      if !written.Durable? || !io.executable {
        return false;
      }
      Prune(name, io.stuck);
      if Landed(io.marker) {
        pending := Some(m);
      }
      ok := io.marker.Durable?;
    }

    /** `prune_staged_artifacts`: every artifact but the given one; failures are ignored. */
    method Prune(keep: string, stuck: set<string>)
      requires dir.Valid() && IsArtifact(keep)
      modifies dir
      ensures dir.Valid()
      ensures forall name ::
        Install.Lookup(dir.files, name) ==
          if "invenqor-agent-" <= name && name != keep && name !in stuck then None
          else Install.Lookup(old(dir.files), name)
    {
      var entries := dir.files.Keys;
      ghost var before := dir.files;
      while entries != {}
        invariant dir.Valid()
        invariant entries <= before.Keys
        invariant forall name ::
          Install.Lookup(dir.files, name) ==
            if name !in entries && IsArtifact(name) && name != keep && name !in stuck then None
            else Install.Lookup(before, name)
        decreases entries
      {
        var name :| name in entries;
        entries := entries - {name};
        if IsArtifact(name) && name != keep {
          var removed := dir.Remove(name, name !in stuck);
        }
      }
    }
  }

  // ----- applying -----

  datatype ApplyError = Rejected | Missing | NotInstalled(error: Install.InstallError) | MarkerStuck

  /** Everything that has to hold before the installed binary is touched. */
  predicate Acceptable(settings: Settings, current: string, pending: Option<Manifest>, staged: Files) {
    && pending.Some?
    && ValidOffer(pending.value, settings.channel, current, settings.os, settings.architecture)
    && ArtifactName(pending.value.version, settings.suffix) in staged
    && VerifiedArtifact(settings.crypto, settings.key,
                        staged[ArtifactName(pending.value.version, settings.suffix)], pending.value)
  }

  /** What stands behind a binary: its size and digest are the manifest's, the pinned key signed its
      bytes, and in version 2 the manifest too; it is for this channel and machine, and no step
      back unless the key signed that. */
  ghost predicate Vouches(settings: Settings, current: string, m: Manifest, bytes: Bytes) {
    && 0 < |bytes| == m.size <= 134_217_728
    && settings.crypto.sha256(bytes) == ToLower(m.sha256)
    && settings.crypto.verifiesBytes(settings.key, bytes, m.signature)
    && (m.signatureVersion == 1
        || (m.signatureVersion == 2
            && settings.crypto.verifiesText(settings.key, CanonicalMessage(m), m.manifestSignature)))
    && m.channel == settings.channel && m.os == settings.os && m.architecture == settings.architecture
    && m.downloadUrl == "/v1/agent/updates/" + m.version + "-" + m.os + "-" + m.architecture + "/artifact"
    && m.version != current && (IsNewer(current, m.version) || (m.allowDowngrade && m.signatureVersion == 2))
  }

  lemma AcceptedIsVouchedFor(settings: Settings, current: string, m: Manifest, staged: Files)
    requires Acceptable(settings, current, Some(m), staged)
    ensures Vouches(settings, current, m, staged[ArtifactName(m.version, settings.suffix)])
  {
    AgentVerifiesWhatSignerSigns(m);
    NewerIsStrictOrder(current, current, current);
  }

  /** What one attempt may do to the installed binary: nothing, take it away, or replace it by
      the accepted candidate. */
  ghost predicate ApplyStep(settings: Settings, current: string, pending: Option<Manifest>, staged: Files,
                            before: Option<Bytes>, after: Option<Bytes>)
  {
    || after == before
    || after == None
    || (Acceptable(settings, current, pending, staged)
        && after == Some(staged[ArtifactName(pending.value.version, settings.suffix)])
        && Install.PassesSelfTest(settings.reports, after.value, pending.value.version))
  }

  /** What one attempt may leave in the directory of the binary. Without an installed binary a
      failed activation brings back whatever an earlier one kept aside. */
  ghost predicate MayBecome(settings: Settings, current: string, pending: Option<Manifest>, staged: Files,
                            before: Files, after: Files)
  {
    || ApplyStep(settings, current, pending, staged,
                 Install.Lookup(before, settings.target), Install.Lookup(after, settings.target))
    || (settings.target !in before
        && Install.Lookup(after, settings.target) == Install.Lookup(before, Install.PreviousName(settings.target)))
  }

  lemma SafeMayBecome(settings: Settings, current: string, pending: Option<Manifest>, staged: Files, before: Files,
                      after: Files)
    requires Acceptable(settings, current, pending, staged)
    requires var bytes := staged[ArtifactName(pending.value.version, settings.suffix)];
      Install.SafeState(after, before, settings.target, bytes,
                        Install.PassesSelfTest(settings.reports, bytes, pending.value.version))
    ensures MayBecome(settings, current, pending, staged, before, after)
  {
  }

  /** The call of the installer, once everything is accepted. */
  method InstallAccepted(settings: Settings, current: string, m: Manifest, bytes: Bytes, ghost staged: Files,
                         dir: DurableFs.Directory, temporary: string, scratch: string, io: Install.InstallIo)
    returns (r: Result<(), Install.InstallError>)
    requires dir.Valid() && io.attempts >= 1
    requires temporary != settings.target && temporary != Install.PreviousName(settings.target)
    requires scratch != settings.target && scratch != Install.PreviousName(settings.target)
    requires scratch != temporary && scratch !in dir.files
    requires Acceptable(settings, current, Some(m), staged) && bytes == staged[ArtifactName(m.version, settings.suffix)]
    modifies dir
    ensures dir.Valid() && old(dir.trace) <= dir.trace
    ensures forall i :: |old(dir.trace)| <= i < |dir.trace| ==>
      MayBecome(settings, current, Some(m), staged, old(dir.files), dir.trace[i])
    ensures MayBecome(settings, current, Some(m), staged, old(dir.files), dir.files)
    ensures r == Install.PlannedResult(old(dir.files), settings.target, bytes, m.version, settings.reports, io)
    ensures Install.Lookup(dir.files, settings.target)
         == Install.InPlace(old(dir.files), settings.target, bytes, m.version, settings.reports, io)
    ensures Install.SameBeside(dir.files, old(dir.files),
                               {settings.target, Install.PreviousName(settings.target), temporary, scratch})
    ensures r.Ok? && settings.target in old(dir.files) ==>
      Install.Lookup(dir.files, Install.PreviousName(settings.target)) == Some(old(dir.files)[settings.target])
  {
    ghost var before, start := dir.files, |dir.trace|;
    r := Install.AtomicInstall(dir, settings.target, temporary, scratch, bytes, m.version, settings.reports, io);
    forall i | start <= i < |dir.trace| ensures MayBecome(settings, current, Some(m), staged, before, dir.trace[i]) {
      SafeMayBecome(settings, current, Some(m), staged, before, dir.trace[i]);
    }
  }

  /** `apply_pending`, run by a binary of version `current`. */
  method ApplyPending(settings: Settings, current: string, staging: Staging, dir: DurableFs.Directory,
                      temporary: string, scratch: string, io: Install.InstallIo,
                      markerRemovable: bool, artifactRemovable: bool)
    returns (r: Result<Option<string>, ApplyError>)
    requires staging.dir.Valid() && dir.Valid() && staging.dir != dir && io.attempts >= 1
    requires temporary != settings.target && temporary != Install.PreviousName(settings.target)
    requires scratch != settings.target && scratch != Install.PreviousName(settings.target)
    requires scratch != temporary && scratch !in dir.files
    modifies staging, staging.dir, dir
    ensures dir.Valid() && old(dir.trace) <= dir.trace
    // After the call, and at any moment at which the call may be cut short:
    ensures forall i :: |old(dir.trace)| <= i < |dir.trace| ==>
      MayBecome(settings, current, old(staging.pending), old(staging.dir.files), old(dir.files), dir.trace[i])
    ensures MayBecome(settings, current, old(staging.pending), old(staging.dir.files), old(dir.files), dir.files)
    ensures Install.SameBeside(dir.files, old(dir.files),
                               {settings.target, Install.PreviousName(settings.target), temporary, scratch})
    ensures r.Ok? && r.value.Some? && settings.target in old(dir.files) ==>
      Install.Lookup(dir.files, Install.PreviousName(settings.target)) == Some(old(dir.files)[settings.target])
    // What comes of it.
    ensures r == Ok(None) <==> old(staging.pending).None?
    ensures !Acceptable(settings, current, old(staging.pending), old(staging.dir.files)) ==>
      && dir.files == old(dir.files) && staging.pending == old(staging.pending)
      && staging.dir.files == old(staging.dir.files)
    ensures old(staging.pending).Some? ==>
      var m := old(staging.pending).value;
      var name, staged := ArtifactName(m.version, settings.suffix), old(staging.dir.files);
      var valid := ValidOffer(m, settings.channel, current, settings.os, settings.architecture);
      && (r == Err(Missing) <==> valid && name !in staged)
      && (r == Err(Rejected) <==>
            !valid || (name in staged && !VerifiedArtifact(settings.crypto, settings.key, staged[name], m)))
    ensures Acceptable(settings, current, old(staging.pending), old(staging.dir.files)) ==>
      var m := old(staging.pending).value;
      var name, staged, before := ArtifactName(m.version, settings.suffix), old(staging.dir.files), old(dir.files);
      var bytes, done := staged[name], Install.PlannedResult(before, settings.target, staged[name], m.version,
                                                             settings.reports, io);
      && r == (if done.Err? then Err(NotInstalled(done.error))
               else if markerRemovable then Ok(Some(m.version)) else Err(MarkerStuck))
      && Install.Lookup(dir.files, settings.target)
         == Install.InPlace(before, settings.target, bytes, m.version, settings.reports, io)
      && staging.pending == (if r.Ok? then None else Some(m))
      && staging.dir.files == (if r.Ok? && artifactRemovable then staged - {name} else staged)
      // Whatever was not there before was hashed, signed, and meant for this machine.
      && Vouches(settings, current, m, bytes)
  {
    if staging.pending.None? {
      return Ok(None);
    }
    var m := staging.pending.value;
    if !ValidOffer(m, settings.channel, current, settings.os, settings.architecture) {
      return Err(Rejected);
    }
    var name := ArtifactName(m.version, settings.suffix);
    if name !in staging.dir.files {
      return Err(Missing);
    }
    var bytes := staging.dir.files[name];
    if |bytes| != m.size || !VerifiedArtifact(settings.crypto, settings.key, bytes, m) {
      return Err(Rejected);
    }
    AcceptedIsVouchedFor(settings, current, m, staging.dir.files);
    var installed := InstallAccepted(settings, current, m, bytes, staging.dir.files, dir, temporary, scratch, io);
    if installed.Err? {
      return Err(NotInstalled(installed.error));
    }
    if !markerRemovable {
      return Err(MarkerStuck);
    }
    staging.pending := None;
    var removed := staging.dir.Remove(name, artifactRemovable);
    r := Ok(Some(m.version));
  }

  // ----- versions over whole runs -----

  /** The version the installed binary reports. */
  ghost predicate Installed(settings: Settings, binary: Option<Bytes>, version: string) {
    binary.Some? && settings.reports(binary.value) == Some(Install.BANNER + version)
  }

  lemma InstalledVersionUnique(settings: Settings, binary: Option<Bytes>, v: string, w: string)
    requires Installed(settings, binary, v) && Installed(settings, binary, w)
    ensures v == w
  {
    SamePrefix(Install.BANNER, v, w);
  }

  /** One attempt, by whatever binary is installed, with whatever lies in the staging directory. */
  datatype Attempt = Attempt(current: string, pending: Option<Manifest>, staged: Files, after: Option<Bytes>)

  ghost function BinaryAfter(start: Option<Bytes>, run: seq<Attempt>): Option<Bytes> {
    if run == [] then start else run[|run| - 1].after
  }

  /** Each attempt is executed by the binary installed at that time; without one there is none. */
  ghost predicate RunByInstalled(settings: Settings, start: Option<Bytes>, run: seq<Attempt>)
    decreases |run|
  {
    run == [] ||
    (var front, last := run[..|run| - 1], run[|run| - 1];
     var before := BinaryAfter(start, front);
     && RunByInstalled(settings, start, front)
     && Installed(settings, before, last.current)
     && ApplyStep(settings, last.current, last.pending, last.staged, before, last.after))
  }

  ghost predicate NoRollbackSigned(settings: Settings, run: seq<Attempt>) {
    forall i :: 0 <= i < |run| && run[i].pending.Some? ==>
      !AuthorizedRollback(settings.crypto, settings.key, run[i].pending.value)
  }

  /** One attempt by the installed binary leaves it, removes it, or replaces it by a newer one,
      unless the pinned key signed a rollback. */
  lemma AttemptMovesForward(settings: Settings, a: Attempt, before: Option<Bytes>)
    requires Installed(settings, before, a.current)
    requires ApplyStep(settings, a.current, a.pending, a.staged, before, a.after)
    ensures a.after == before || a.after == None ||
      (a.pending.Some? && Installed(settings, a.after, a.pending.value.version)
       && a.pending.value.version != a.current
       && (IsNewer(a.current, a.pending.value.version)
           || AuthorizedRollback(settings.crypto, settings.key, a.pending.value)))
  {
    if a.after != before && a.after != None {
      var m := a.pending.value;
      AcceptedOfferIsNewer(settings.crypto, settings.key, a.staged[ArtifactName(m.version, settings.suffix)], m,
                           settings.channel, a.current, settings.os, settings.architecture);
    }
  }

  /** Over every run, with anything at all in the staging directory and a crash anywhere, the
      installed version never goes back unless the pinned key signed a rollback. */
  lemma {:induction false} VersionNeverGoesBack(settings: Settings, start: Option<Bytes>, version: string,
                                                run: seq<Attempt>)
    returns (now: string)
    requires Installed(settings, start, version)
    requires RunByInstalled(settings, start, run) && NoRollbackSigned(settings, run)
    requires BinaryAfter(start, run).Some?
    ensures Installed(settings, BinaryAfter(start, run), now)
    ensures now == version || IsNewer(version, now)
    decreases |run|
  {
    if run == [] {
      now := version;
    } else {
      var front, last := run[..|run| - 1], run[|run| - 1];
      var before := BinaryAfter(start, front);
      now := VersionNeverGoesBack(settings, start, version, front);
      InstalledVersionUnique(settings, before, now, last.current);
      AttemptMovesForward(settings, last, before);
      if last.after != before {
        NewerIsStrictOrder(version, now, last.pending.value.version);
        now := last.pending.value.version;
      }
    }
  }

  /** The binary came with the manifest of this attempt, and that vouches for it. */
  ghost predicate CameWith(settings: Settings, a: Attempt, binary: Option<Bytes>) {
    && binary.Some? && a.pending.Some?
    && Vouches(settings, a.current, a.pending.value, binary.value)
    && Installed(settings, binary, a.pending.value.version)
  }

  lemma AttemptIsVouchedFor(settings: Settings, a: Attempt, before: Option<Bytes>)
    requires ApplyStep(settings, a.current, a.pending, a.staged, before, a.after)
    ensures a.after == before || a.after == None || CameWith(settings, a, a.after)
  {
    if a.after != before && a.after != None {
      AcceptedIsVouchedFor(settings, a.current, a.pending.value, a.staged);
    }
  }

  /** The attempt that put the present binary in place. */
  lemma {:induction false} LastChange(settings: Settings, start: Option<Bytes>, run: seq<Attempt>)
    returns (i: nat, before: Option<Bytes>)
    requires RunByInstalled(settings, start, run) && BinaryAfter(start, run) != start
    ensures i < |run| && run[i].after == BinaryAfter(start, run) && before != run[i].after
    ensures ApplyStep(settings, run[i].current, run[i].pending, run[i].staged, before, run[i].after)
    decreases |run|
  {
    var front, last := run[..|run| - 1], run[|run| - 1];
    if last.after != BinaryAfter(start, front) {
      i, before := |run| - 1, BinaryAfter(start, front);
    } else {
      i, before := LastChange(settings, start, front);
    }
  }

  /** Over every run, what is installed is what was there at the start, or came with the manifest of
      some attempt: of its size and digest, with a signature of the pinned key over these bytes (and
      in version 2 over the manifest), for this channel and machine, naming the version it was
      accepted as, which was a newer one than the binary that accepted it unless a downgrade was signed. */
  lemma InstalledIsVouchedFor(settings: Settings, start: Option<Bytes>, run: seq<Attempt>)
    returns (i: nat, m: Manifest, bytes: Bytes)
    requires RunByInstalled(settings, start, run)
    requires BinaryAfter(start, run) != start && BinaryAfter(start, run) != None
    ensures i < |run| && run[i].pending == Some(m) && BinaryAfter(start, run) == Some(bytes)
    ensures 0 < |bytes| == m.size <= 134_217_728
    ensures settings.crypto.sha256(bytes) == ToLower(m.sha256)
    ensures settings.crypto.verifiesBytes(settings.key, bytes, m.signature)
    ensures m.signatureVersion == 1
      || settings.crypto.verifiesText(settings.key, CanonicalMessage(m), m.manifestSignature)
    ensures m.channel == settings.channel && m.os == settings.os && m.architecture == settings.architecture
    ensures settings.reports(bytes) == Some("invenqor-agent " + m.version)
    ensures IsNewer(run[i].current, m.version) || (m.allowDowngrade && m.signatureVersion == 2)
  {
    var before;
    i, before := LastChange(settings, start, run);
    AttemptIsVouchedFor(settings, run[i], before);
    m, bytes := run[i].pending.value, BinaryAfter(start, run).value;
  }

  /** After an installation that was cut short before its marker was removed, the new binary
      refuses the same marker. */
  lemma ReapplyRefused(settings: Settings, m: Manifest, staged: Files)
    ensures !Acceptable(settings, m.version, Some(m), staged)
  {
    NewerIsStrictOrder(m.version, m.version, m.version);
  }

  /** Nothing that passes the offer check of `running`, rollbacks aside, is older than `installed`. */
  ghost predicate NeverBack(settings: Settings, running: string, installed: string) {
    forall m: Manifest ::
      ValidOffer(m, settings.channel, running, settings.os, settings.architecture) && !m.allowDowngrade ==>
        m.version == installed || IsNewer(installed, m.version)
  }

  ghost function OfferOf(settings: Settings, version: string): Manifest {
    Manifest(version, settings.channel, settings.os, settings.architecture, "", "", "", ED25519, LEGACY,
             "/v1/agent/updates/" + version + "-" + settings.os + "-" + settings.architecture + "/artifact", 1, false)
  }

  /** An old process applying updates over a newer binary can move it back: the offer check is
      enough exactly when the running version is not behind the installed one, or behind it by a
      single step, so that no version lies between. */
  lemma RunnerMustNotBeBehind(settings: Settings, running: string, installed: string)
    requires ParseVersion(running).Some? && ParseVersion(installed).Some?
    ensures NeverBack(settings, running, installed) <==>
      !IsNewer(running, installed) || installed == Print(Successor(ParseVersion(running).value))
  {
    var r, i := ParseVersion(running).value, ParseVersion(installed).value;
    ParseVersionExact(running, r);
    ParseVersionExact(installed, i);
    if IsNewer(running, installed) && installed != Print(Successor(r)) {
      SuccessorIsNext(r, i);
      var m := OfferOf(settings, Print(Successor(r)));
      ParseVersionExact(m.version, Successor(r));
      assert ValidOffer(m, settings.channel, running, settings.os, settings.architecture);
    } else {
      forall m: Manifest
        | ValidOffer(m, settings.channel, running, settings.os, settings.architecture) && !m.allowDowngrade
        ensures m.version == installed || IsNewer(installed, m.version)
      {
        NotBetween(running, installed, m.version);
      }
    }
  }

  lemma NotBetween(running: string, installed: string, offered: string)
    requires ParseVersion(running).Some? && ParseVersion(installed).Some? && IsNewer(running, offered)
    requires !IsNewer(running, installed) || installed == Print(Successor(ParseVersion(running).value))
    ensures offered == installed || IsNewer(installed, offered)
  {
    var r, o := ParseVersion(running).value, ParseVersion(offered).value;
    ParseVersionExact(offered, o);
    NewerIsStrictOrder(installed, running, offered);
    if IsNewer(running, installed) {
      SuccessorIsNext(r, o);
      ParseVersionExact(installed, Successor(r));
    }
  }

  /** It does happen: a process of version 1.0.0, still running over an installed 1.0.2, may put
      1.0.1 in its place. */
  lemma OlderRunnerMovesBack() returns (settings: Settings, before: Option<Bytes>, a: Attempt)
    ensures a.current == Print(Version(1, 0, 0))
    ensures Installed(settings, before, Print(Version(1, 0, 2)))
    ensures Installed(settings, a.after, Print(Version(1, 0, 1)))
    ensures ApplyStep(settings, a.current, a.pending, a.staged, before, a.after) && NoRollbackSigned(settings, [a])
    ensures IsNewer(Print(Version(1, 0, 1)), Print(Version(1, 0, 2)))
  {
    var running, offered, installed := Print(Version(1, 0, 0)), Print(Version(1, 0, 1)), Print(Version(1, 0, 2));
    ParseVersionExact(running, Version(1, 0, 0));
    ParseVersionExact(offered, Version(1, 0, 1));
    ParseVersionExact(installed, Version(1, 0, 2));
    var reports: Install.Reporter := b => Some(Install.BANNER + if |b| == 1 then offered else installed);
    var crypto := Crypto(b => "", (key, bytes, signature) => true, (key, text, signature) => true);
    settings := Settings("stable", "linux", "x86_64", "key", crypto, reports, "invenqor-agent", "");
    var m := OfferOf(settings, offered);
    before := Some([]);
    a := Attempt(running, Some(m), map[ArtifactName(offered, "") := [0]], Some([0]));
    OfferAccepted(settings, running, offered, a.staged, [0]);
  }

  lemma OfferAccepted(settings: Settings, running: string, offered: string, staged: Files, bytes: Bytes)
    requires ParseVersion(offered).Some? && IsNewer(running, offered)
    requires ArtifactName(offered, settings.suffix) in staged && staged[ArtifactName(offered, settings.suffix)] == bytes
    requires |bytes| == 1 && settings.crypto.sha256(bytes) == ""
    requires settings.crypto.verifiesBytes(settings.key, bytes, "")
    ensures Acceptable(settings, running, Some(OfferOf(settings, offered)), staged)
  {
    assert ToLower("") == "";
  }
}
