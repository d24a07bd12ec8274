// The swap of the agent binary, step by step: write beside the target, try the candidate, move
// the old binary aside, move the new one in (atomic_install_with_suffix in src/updater.rs).

module Install {
  import opened Machine
  import opened Wrappers
  import opened DurableFs

  datatype InstallError = WriteError | NotExecutable | SelfTestFailed | PreserveError | ActivateError | FlushError

  /** What the operating system does at each step of one installation. */
  datatype InstallIo = InstallIo(
    write: WriteIo, attempts: nat, executable: bool, finishes: bool, cleaned: bool,
    staleRemoved: bool, preserve: nat -> bool, activate: nat -> bool, restore: bool, flushed: bool)

  /** What a binary prints when it is asked for its version, if it runs at all. */
  type Reporter = Bytes -> Option<string>

  const BANNER: string := "invenqor-agent "

  function PreviousName(target: string): string {
    target + ".previous"
  }

  /** The candidate starts, ends in time and names the promised version. */
  predicate PassesSelfTest(reports: Reporter, bytes: Bytes, version: string) {
    reports(bytes) == Some(BANNER + version)
  }

  function Lookup(files: Files, name: string): Option<Bytes> {
    if name in files then Some(files[name]) else None
  }

  /** What is kept aside once the target has been moved out of the way. */
  function ExpectedAside(before: Files, target: string): Option<Bytes> {
    if target in before then Some(before[target]) else Lookup(before, PreviousName(target))
  }

  /** What a host may find on disk during an installation over `before`. */
  ghost predicate SafeState(now: Files, before: Files, target: string, bytes: Bytes, passed: bool) {
    var current, aside := Lookup(now, target), Lookup(now, PreviousName(target));
    if target in before then
      || current == Some(before[target])
      || (current == Some(bytes) && passed && aside == Some(before[target]))
      || (current == None && aside == Some(before[target]))
    else
      || current == None
      || (current == Some(bytes) && passed)
      || (current == Lookup(before, PreviousName(target)))
  }

  ghost predicate SafeSince(trace: seq<Files>, start: nat, before: Files, target: string, bytes: Bytes, passed: bool) {
    forall i :: start <= i < |trace| ==> SafeState(trace[i], before, target, bytes, passed)
  }

  /** Apart from these names the directory is as it was. */
  ghost predicate SameBeside(now: Files, before: Files, names: set<string>) {
    forall name :: name !in names ==> Lookup(now, name) == Lookup(before, name)
  }

  ghost predicate Outcome(r: Result<(), InstallError>, now: Files, before: Files, target: string, bytes: Bytes,
                          restored: bool)
  {
    var current, aside := Lookup(now, target), Lookup(now, PreviousName(target));
    match r
    case Ok(_) =>
      current == Some(bytes) && (target in before ==> aside == Some(before[target]))
    case Err(FlushError) =>
      current == Some(bytes) && (target in before ==> aside == Some(before[target]))
    case Err(ActivateError) =>
      && (target in before && !restored ==> aside == Some(before[target]))
      && current == if restored then ExpectedAside(before, target) else None
    case Err(_) =>
      current == Lookup(before, target)
  }

  ghost predicate SomeAttempt(works: nat -> bool, attempts: nat) {
    exists a :: 0 <= a < attempts && works(a)
  }

  /** Which step fails first, if any. */
  ghost function PlannedResult(before: Files, target: string, bytes: Bytes, version: string, reports: Reporter,
                               io: InstallIo)
    : Result<(), InstallError>
  {
    if !PlannedOutcome(io.attempts, io.write).Durable? then Err(WriteError)
    else if !io.executable then Err(NotExecutable)
    else if !io.finishes || !PassesSelfTest(reports, bytes, version) then Err(SelfTestFailed)
    else if target in before && !SomeAttempt(io.preserve, io.attempts) then Err(PreserveError)
    else if !SomeAttempt(io.activate, io.attempts) then Err(ActivateError)
    else if io.flushed then Ok(()) else Err(FlushError)
  }

  /** The candidate is written and tried, and the old binary is out of the way. */
  ghost predicate ReachesActivation(before: Files, target: string, bytes: Bytes, version: string, reports: Reporter,
                                    io: InstallIo)
  {
    && PlannedOutcome(io.attempts, io.write).Durable? && io.executable && io.finishes
    && PassesSelfTest(reports, bytes, version)
    && (target in before ==> SomeAttempt(io.preserve, io.attempts))
  }

  ghost predicate KeepsOld(before: Files, target: string, bytes: Bytes, version: string, reports: Reporter,
                           io: InstallIo) {
    || !ReachesActivation(before, target, bytes, version, reports, io)
    || (!SomeAttempt(io.activate, io.attempts) && io.restore)
  }

  ghost predicate PutsNew(before: Files, target: string, bytes: Bytes, version: string, reports: Reporter,
                          io: InstallIo) {
    ReachesActivation(before, target, bytes, version, reports, io) && SomeAttempt(io.activate, io.attempts)
  }

  method AtomicInstallWithSuffix(dir: Directory, target: string, temporary: string, scratch: string,
                                 bytes: Bytes, version: string, reports: Reporter, io: InstallIo)
    returns (r: Result<(), InstallError>)
    requires dir.Valid() && io.attempts >= 1
    requires temporary != target && temporary != PreviousName(target)
    requires scratch != target && scratch != PreviousName(target) && scratch != temporary && scratch !in dir.files
    modifies dir
    ensures dir.Valid() && old(dir.trace) <= dir.trace
    ensures SafeSince(dir.trace, |old(dir.trace)|, old(dir.files), target, bytes,
                      PassesSelfTest(reports, bytes, version))
    ensures r == PlannedResult(old(dir.files), target, bytes, version, reports, io)
    ensures Outcome(r, dir.files, old(dir.files), target, bytes, io.restore)
    ensures r.Ok? || r == Err(FlushError) ==> PassesSelfTest(reports, bytes, version) && temporary !in dir.files
    ensures SameBeside(dir.files, old(dir.files), {target, PreviousName(target), temporary, scratch})
  {
    ghost var before, start, passed := dir.files, |dir.trace|, PassesSelfTest(reports, bytes, version);
    var previous := PreviousName(target);
    Differ(target);
    var written := dir.AtomicWrite(temporary, bytes, scratch, io.attempts, io.write);
    forall i | start <= i < |dir.trace| ensures SafeState(dir.trace[i], before, target, bytes, passed) {
      SameElsewhere(dir.trace[i], before, temporary, bytes, scratch, target);
    }
    if !written.Durable? {
      LastIsFiles(dir.trace, start, dir.files, before, target, bytes, passed);
      SameElsewhere(dir.files, before, temporary, bytes, scratch, target);
      return Err(WriteError);
    }
    assert Lookup(dir.files, target) == Lookup(before, target);
    assert Lookup(dir.files, previous) == Lookup(before, previous);
    if !io.executable {
      return Err(NotExecutable);
    }
    if !io.finishes || !PassesSelfTest(reports, bytes, version) {
      var removed := dir.Remove(temporary, io.cleaned);
      return Err(SelfTestFailed);
    }
    var preserved := Preserve(dir, target, temporary, before, start, bytes, passed, io);
    if !preserved {
      return Err(PreserveError);
    }
    r := Activate(dir, target, temporary, before, start, bytes, io);
  }

  /** What the target holds after the call. Without an old binary, what an earlier installation
      kept aside may come back. */
  ghost function InPlace(before: Files, target: string, bytes: Bytes, version: string, reports: Reporter,
                         io: InstallIo): Option<Bytes>
  {
    if !ReachesActivation(before, target, bytes, version, reports, io) then Lookup(before, target)
    else if SomeAttempt(io.activate, io.attempts) then Some(bytes)
    else if io.restore then ExpectedAside(before, target) else None
  }

  /** `atomic_install`: the same, with the suffix of the platform. */
  method AtomicInstall(dir: Directory, target: string, temporary: string, scratch: string,
                       bytes: Bytes, version: string, reports: Reporter, io: InstallIo)
    returns (r: Result<(), InstallError>)
    requires dir.Valid() && io.attempts >= 1
    requires temporary != target && temporary != PreviousName(target)
    requires scratch != target && scratch != PreviousName(target) && scratch != temporary && scratch !in dir.files
    modifies dir
    ensures dir.Valid() && old(dir.trace) <= dir.trace
    ensures SafeSince(dir.trace, |old(dir.trace)|, old(dir.files), target, bytes,
                      PassesSelfTest(reports, bytes, version))
    ensures r == PlannedResult(old(dir.files), target, bytes, version, reports, io)
    ensures Outcome(r, dir.files, old(dir.files), target, bytes, io.restore)
    ensures SameBeside(dir.files, old(dir.files), {target, PreviousName(target), temporary, scratch})
    // Which binary is in place after the call, by what the system did during it.
    ensures Lookup(dir.files, target) == InPlace(old(dir.files), target, bytes, version, reports, io)
    ensures target in old(dir.files) && old(dir.files)[target] != bytes ==>
      && (Lookup(dir.files, target) == Some(old(dir.files)[target])
          <==> KeepsOld(old(dir.files), target, bytes, version, reports, io))
      && (Lookup(dir.files, target) == Some(bytes)
          <==> PutsNew(old(dir.files), target, bytes, version, reports, io))
  {
    r := AtomicInstallWithSuffix(dir, target, temporary, scratch, bytes, version, reports, io);
  }

  /** Moves the old binary aside, if there is one. */
  method Preserve(dir: Directory, target: string, temporary: string, ghost before: Files, ghost start: nat,
                  bytes: Bytes, ghost passed: bool, io: InstallIo)
    returns (ok: bool)
    requires dir.Valid() && io.attempts >= 1 && start <= |dir.trace|
    requires temporary != target && temporary != PreviousName(target) && Lookup(dir.files, temporary) == Some(bytes)
    requires Lookup(dir.files, target) == Lookup(before, target)
    requires Lookup(dir.files, PreviousName(target)) == Lookup(before, PreviousName(target))
    requires SafeSince(dir.trace, start, before, target, bytes, passed)
    modifies dir
    ensures dir.Valid() && old(dir.trace) <= dir.trace && SafeSince(dir.trace, start, before, target, bytes, passed)
    ensures Lookup(dir.files, temporary) == Some(bytes)
    ensures ok <==> target !in before || SomeAttempt(io.preserve, io.attempts)
    ensures !ok ==> Lookup(dir.files, target) == Lookup(before, target)
    ensures ok ==> Lookup(dir.files, target) == None
    ensures ok ==> Lookup(dir.files, PreviousName(target)) == ExpectedAside(before, target)
    ensures SameBeside(dir.files, old(dir.files), {target, PreviousName(target)})
  {
    var previous := PreviousName(target);
    Differ(target);
    ok := true;
    if target in dir.files {
      var stale := dir.Remove(previous, io.staleRemoved);
      ok := dir.ReplaceFile(target, previous, io.attempts, io.preserve);
    }
  }

  /** Moves the new binary in; on failure moves the old one back. */
  method Activate(dir: Directory, target: string, temporary: string, ghost before: Files, ghost start: nat,
                  bytes: Bytes, io: InstallIo)
    returns (r: Result<(), InstallError>)
    requires dir.Valid() && io.attempts >= 1 && start <= |dir.trace|
    requires temporary != target && temporary != PreviousName(target) && Lookup(dir.files, temporary) == Some(bytes)
    requires Lookup(dir.files, target) == None
    requires Lookup(dir.files, PreviousName(target)) == ExpectedAside(before, target)
    requires SafeSince(dir.trace, start, before, target, bytes, true)
    modifies dir
    ensures dir.Valid() && old(dir.trace) <= dir.trace && SafeSince(dir.trace, start, before, target, bytes, true)
    ensures r == if !SomeAttempt(io.activate, io.attempts) then Err(ActivateError)
      else if io.flushed then Ok(()) else Err(FlushError)
    ensures Outcome(r, dir.files, before, target, bytes, io.restore)
    ensures r.Ok? || r == Err(FlushError) ==> temporary !in dir.files
    ensures SameBeside(dir.files, old(dir.files), {target, PreviousName(target), temporary})
  {
    var previous := PreviousName(target);
    Differ(target);
    var activated := dir.ReplaceFile(temporary, target, io.attempts, io.activate);
    if !activated {
      if previous in dir.files {
        var restored := dir.Rename(previous, target, io.restore);
      }
      return Err(ActivateError);
    }
    r := if io.flushed then Ok(()) else Err(FlushError);
  }

  lemma Differ(target: string)
    ensures PreviousName(target) != target
  {
    assert |PreviousName(target)| == |target| + 9;
  }

  lemma SameElsewhere(now: Files, before: Files, path: string, bytes: Bytes, temporary: string, name: string)
    requires OldOrNew(now, before, path, bytes, temporary) && name != path && name != temporary
    ensures Lookup(now, name) == Lookup(before, name)
  {
    assert name in now <==> name in now - {temporary};
  }

  lemma LastIsFiles(trace: seq<Files>, start: nat, files: Files, before: Files, target: string, bytes: Bytes,
                    passed: bool)
    requires trace != [] && trace[|trace| - 1] == files && SafeSince(trace, start, before, target, bytes, passed)
    ensures start < |trace| ==> SafeState(files, before, target, bytes, passed)
  {
  }

  /** That an error leaves the old binary in place holds of a call exactly when, once the old
      binary is aside, either an attempt to activate and the last flush work, or none does and
      moving the old binary back works. */
  lemma ErrorKeepsOldBinary(before: Files, target: string, bytes: Bytes, version: string, reports: Reporter,
                            io: InstallIo)
    requires target in before
    ensures (PlannedResult(before, target, bytes, version, reports, io).Err?
             ==> KeepsOld(before, target, bytes, version, reports, io))
        <==> (ReachesActivation(before, target, bytes, version, reports, io)
              ==> if SomeAttempt(io.activate, io.attempts) then io.flushed else io.restore)
  {
  }

  lemma FlushErrorPlanned(before: Files, target: string, bytes: Bytes, version: string, reports: Reporter)
    requires PassesSelfTest(reports, bytes, version)
    ensures PlannedResult(before, target, bytes, version, reports, AllButLastFlush()) == Err(FlushError)
  {
    assert AllButLastFlush().activate(0) && AllButLastFlush().preserve(0) && AllButLastFlush().write.renames(0);
  }

  /** A call in which everything works but the last flush returns an error, and the new binary is
      in place of the old one. */
  method FlushErrorOccurs(before: Files, target: string, temporary: string, scratch: string,
                          bytes: Bytes, version: string, reports: Reporter)
    returns (dir: Directory, r: Result<(), InstallError>)
    requires target in before && PassesSelfTest(reports, bytes, version)
    requires temporary != target && temporary != PreviousName(target)
    requires scratch != target && scratch != PreviousName(target) && scratch != temporary && scratch !in before
    ensures r.Err? && Lookup(dir.files, target) == Some(bytes)
    ensures Lookup(dir.files, PreviousName(target)) == Some(before[target])
  {
    dir := new Directory(before);
    FlushErrorPlanned(before, target, bytes, version, reports);
    r := AtomicInstall(dir, target, temporary, scratch, bytes, version, reports, AllButLastFlush());
  }

  function AllButLastFlush(): InstallIo {
    var works := (attempt: nat) => true;
    InstallIo(WriteIo(true, None, true, works, true), 1, true, true, true, true, works, works, true, false)
  }
}
