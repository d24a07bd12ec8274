// Files that are replaced whole or not at all (src/durablefs.rs). A directory remembers every
// state it went through, so that a crash may fall between any two of its steps.

module DurableFs {
  import opened Machine
  import opened Wrappers

  type Files = map<string, Bytes>

  class Directory {
    var files: Files
    ghost var trace: seq<Files>  // every state on disk so far, the present one last

    ghost predicate Valid()
      reads this
    {
      trace != [] && trace[|trace| - 1] == files
    }

    constructor (files: Files)
      ensures Valid() && this.files == files && trace == [files]
    {
      this.files, this.trace := files, [files];
    }

    method Store(name: string, bytes: Bytes)
      modifies this
      ensures Valid() && files == old(files)[name := bytes] && trace == old(trace) + [files]
    {
      files := files[name := bytes];
      trace := trace + [files];
    }

    method Remove(name: string, works: bool) returns (ok: bool)
      requires Valid()
      modifies this
      ensures Valid() && ok == (works && name in old(files))
      ensures files == if ok then old(files) - {name} else old(files)
      ensures trace == old(trace) + if ok then [files] else []
    {
      ok := works && name in files;
      if ok {
        files := files - {name};
        trace := trace + [files];
      }
    }

    /** A rename is one step: it replaces whatever had the new name. */
    method Rename(from: string, to: string, works: bool) returns (ok: bool)
      requires Valid()
      modifies this
      ensures Valid() && ok == (works && from in old(files))
      ensures files == if ok then Renamed(old(files), from, to) else old(files)
      ensures trace == old(trace) + if ok then [files] else []
    {
      ok := works && from in files;
      if ok {
        files := Renamed(files, from, to);
        trace := trace + [files];
      }
    }

    /** `replace_file`: tries the rename up to `attempts` times, as long as it fails. */
    method ReplaceFile(from: string, to: string, attempts: nat, works: nat -> bool) returns (ok: bool)
      requires Valid() && attempts >= 1
      modifies this
      ensures Valid() && ok == (from in old(files) && exists a :: 0 <= a < attempts && works(a))
      ensures files == if ok then Renamed(old(files), from, to) else old(files)
      ensures trace == old(trace) + if ok then [files] else []
    {
      for attempt := 0 to attempts
        invariant Valid() && files == old(files) && trace == old(trace)
        invariant from in files ==> forall a :: 0 <= a < attempt ==> !works(a)
      {
        ok := Rename(from, to, works(attempt));
        if ok {
          return true;
        }
      }
      ok := false;
    }

    /** Creates, fills and flushes the temporary file; nothing else is touched. */
    method FillTemporary(temporary: string, bytes: Bytes, io: WriteIo) returns (ok: bool)
      requires Valid() && temporary !in files
      modifies this
      ensures Valid() && ok == (io.created && io.written.None?)
      ensures ok ==> files == old(files)[temporary := bytes]
      ensures !ok ==> files - {temporary} == old(files)
      ensures !ok && (!io.created || io.cleaned) ==> files == old(files)
      ensures old(trace) <= trace
      ensures forall i :: |old(trace)| <= i < |trace| ==> trace[i] - {temporary} == old(files)
    {
      if !io.created {
        return false;
      }
      Store(temporary, []);
      Store(temporary, if io.written.Some? then io.written.value else bytes);
      ok := io.written.None?;
      if !ok {
        var cleaned := Remove(temporary, io.cleaned);
      }
    }

    /** `atomic_write`: a temporary file under a name of its own, filled and flushed, renamed onto
        the target, then the directory flushed. */
    method AtomicWrite(path: string, bytes: Bytes, temporary: string, attempts: nat, io: WriteIo)
      returns (outcome: WriteOutcome)
      requires Valid() && attempts >= 1
      requires temporary != path && temporary !in files
      modifies this
      ensures Valid()
      ensures outcome == PlannedOutcome(attempts, io)
      // What is on disk when the call returns.
      ensures Landed(outcome) ==> files == old(files)[path := bytes]
      ensures !Landed(outcome) ==> files - {temporary} == old(files)
      ensures !io.created || (io.written.Some? && io.cleaned) ==> !Landed(outcome) ==> files == old(files)
      // What is on disk whenever a crash may fall.
      ensures old(trace) <= trace
      ensures forall i :: |old(trace)| <= i < |trace| ==> OldOrNew(trace[i], old(files), path, bytes, temporary)
    {
      var filled := FillTemporary(temporary, bytes, io);
      if !filled {
        return NotWritten;
      }
      var renamed := ReplaceFile(temporary, path, attempts, io.renames);
      if !renamed {
        return NotWritten;
      }
      assert files == old(files)[path := bytes];
      outcome := if io.flushed then Durable else LandedNotSynced;
    }
  }

  /** What each system call of one write does; `written` holds a partial content when filling or
      flushing the temporary fails. */
  datatype WriteIo = WriteIo(
    created: bool, written: Option<Bytes>, cleaned: bool, renames: nat -> bool, flushed: bool)

  ghost function PlannedOutcome(attempts: nat, io: WriteIo): WriteOutcome {
    if !io.created || io.written.Some? || !(exists a :: 0 <= a < attempts && io.renames(a)) then NotWritten
    else if io.flushed then Durable else LandedNotSynced
  }

  function Renamed(files: Files, from: string, to: string): Files
    requires from in files
  {
    (files - {from})[to := files[from]]
  }

  /** Apart from the temporary, nothing but the target changes, and it changes in one step. */
  ghost predicate OldOrNew(now: Files, before: Files, path: string, bytes: Bytes, temporary: string) {
    now - {temporary} == before || now - {temporary} == before[path := bytes]
  }
}
