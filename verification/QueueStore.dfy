// The durable event queue: one file per event, named by a 39-digit sequence number, drained in
// name order, bounded in bytes, with unreadable events moved aside (StateStore in src/storage.rs).

module QueueStore {
  import opened Machine
  import opened Wrappers
  import opened Text
  import opened Inventory
  import opened Replication

  const SEQUENCE_WIDTH: nat := 39
  const QUARANTINE_KEEP: nat := 20
  const LINE_FEED: bv8 := 10

  /** How events become bytes and back. An event read back is assumed to be the event written. */
  datatype Codec = Codec(encode: Envelope -> Bytes, decode: Bytes -> Option<Envelope>) {
    ghost predicate RoundTrips() {
      forall e :: decode(encode(e) + [LINE_FEED]) == Some(e)
    }
  }

  datatype StoreError = QueueFull | WriteFailed | OutsideQueue | Unreadable

  // ----- file names -----

  function QueueName(sequence: nat, eventId: string): string {
    Padded(sequence, SEQUENCE_WIDTH) + ("-" + eventId + ".jsonl")
  }

  /** The directory entries that hold events: extension `jsonl` after a non-empty stem. */
  predicate IsEvent(name: string) {
    |name| > 6 && name[|name| - 6..] == ".jsonl"
  }

  lemma EventNamesEnd(stem: string)
    ensures IsEvent(stem + ".jsonl") <==> stem != ""
    ensures IsEvent(stem) ==> stem == stem[..|stem| - 6] + ".jsonl" && stem[..|stem| - 6] != ""
  {
    assert (stem + ".jsonl")[|stem|..] == ".jsonl";
  }

  /** `str::parse::<u128>`: an optional plus sign and at least one digit, within range. */
  function ParseU128(s: string): Option<nat> {
    var digits := if s != [] && s[0] == '+' then s[1..] else s;
    if digits != [] && AllDigits(digits) && Value(digits) <= U128_MAX then Some(Value(digits)) else None
  }

  function SequenceOf(name: string): Option<nat> {
    ParseU128(Split(name, '-')[0])
  }

  predicate WellNamed(name: string) {
    && |name| > SEQUENCE_WIDTH && AllDigits(name[..SEQUENCE_WIDTH]) && name[SEQUENCE_WIDTH] == '-'
    && Value(name[..SEQUENCE_WIDTH]) <= U128_MAX
  }

  lemma {:induction false} Pow10Sum(a: nat, b: nat)
    ensures Pow10(a + b) == Pow10(a) * Pow10(b)
  {
    if b > 0 {
      Pow10Sum(a, b - 1);
      assert Pow10(a) * Pow10(b) == 10 * (Pow10(a) * Pow10(b - 1));
    }
  }

  lemma ThousandMillions()
    ensures Pow10(13) == 10_000_000_000_000
  {
    assert Pow10(3) == 1000;
    Pow10Sum(3, 3);
    Pow10Sum(6, 6);
  }

  /** Every 128-bit number fits the padding width. */
  lemma SequenceFits(n: nat)
    requires n <= U128_MAX
    ensures n < Pow10(SEQUENCE_WIDTH)
  {
    ThousandMillions();
    Pow10Sum(13, 13);
    Pow10Sum(26, 13);
  }

  /** The number printed into a name is the number parsed back out of it. */
  lemma QueueNameSequence(n: nat, eventId: string)
    requires n <= U128_MAX
    ensures WellNamed(QueueName(n, eventId)) && IsEvent(QueueName(n, eventId))
    ensures Value(QueueName(n, eventId)[..SEQUENCE_WIDTH]) == n
  {
    SequenceFits(n);
    PaddedProperties(n, SEQUENCE_WIDTH);
    var name := QueueName(n, eventId);
    assert name[..SEQUENCE_WIDTH] == Padded(n, SEQUENCE_WIDTH);
    assert name[|name| - 6..] == ".jsonl";
  }

  lemma WellNamedSequence(name: string)
    requires WellNamed(name)
    ensures SequenceOf(name) == Some(Value(name[..SEQUENCE_WIDTH]))
  {
    var digits := name[..SEQUENCE_WIDTH];
    assert name == digits + ['-'] + name[SEQUENCE_WIDTH + 1..];
    SplitHead(digits, name[SEQUENCE_WIDTH + 1..], '-');
  }

  /** Lexicographic order of names is numeric order of their sequence numbers. */
  lemma NamesFollowSequence(name: string, n: nat, eventId: string)
    requires WellNamed(name) && n <= U128_MAX && Value(name[..SEQUENCE_WIDTH]) < n
    ensures LexLess(name, QueueName(n, eventId))
  {
    SequenceFits(n);
    PaddedProperties(n, SEQUENCE_WIDTH);
    var digits := name[..SEQUENCE_WIDTH];
    EqualWidthOrder(digits, Padded(n, SEQUENCE_WIDTH));
    LexPrefixDecides(digits, Padded(n, SEQUENCE_WIDTH), name[SEQUENCE_WIDTH..], "-" + eventId + ".jsonl");
    assert name == digits + name[SEQUENCE_WIDTH..];
  }

  /** Names with one sequence number are ordered by event identifier alone. */
  lemma EqualSequenceOrder(n: nat, a: string, b: string)
    ensures LexLess(QueueName(n, a), QueueName(n, b)) <==> LexLess(a + ".jsonl", b + ".jsonl")
  {
    LexCommonPrefix(Padded(n, SEQUENCE_WIDTH), "-" + a + ".jsonl", "-" + b + ".jsonl");
    assert "-" + a + ".jsonl" == "-" + (a + ".jsonl") && "-" + b + ".jsonl" == "-" + (b + ".jsonl");
    LexCommonPrefix("-", a + ".jsonl", b + ".jsonl");
  }

  // ----- arithmetic of the sequence and the limit -----

  function NextSequence(sequence: nat, nanos: nat): nat {
    var bumped := if sequence < U128_MAX then sequence + 1 else U128_MAX;
    if bumped >= nanos then bumped else nanos
  }

  /** For any clock, the next number exceeds the last one exactly below saturation. */
  lemma SequenceAdvances(sequence: nat, nanos: nat)
    requires sequence <= U128_MAX && nanos <= U128_MAX
    ensures NextSequence(sequence, nanos) <= U128_MAX
    ensures NextSequence(sequence, nanos) > sequence <==> sequence < U128_MAX
  {
  }

  /** At saturation the queue may stop being first-in first-out. */
  lemma SaturatedOrder(nanos: nat)
    requires nanos <= U128_MAX
    ensures var n := NextSequence(U128_MAX, nanos);
      n == U128_MAX && LexLess(QueueName(n, "a"), QueueName(U128_MAX, "b"))
  {
    EqualSequenceOrder(U128_MAX, "a", "b");
  }

  // ----- the contents of a queue directory -----

  ghost function EventNames(files: map<string, Bytes>): set<string> {
    set name | name in files && IsEvent(name)
  }

  /** `pending()`: the event files, oldest first. */
  ghost function Pending(files: map<string, Bytes>): seq<string> {
    SortedNames(EventNames(files))
  }

  ghost function SizeOf(files: map<string, Bytes>, names: seq<string>): nat
    requires forall name :: name in names ==> name in files
  {
    if names == [] then 0 else SizeOf(files, names[..|names| - 1]) + |files[names[|names| - 1]]|
  }

  ghost function QueueBytes(files: map<string, Bytes>): nat {
    SortedNamesLists(EventNames(files));
    SizeOf(files, Pending(files))
  }

  lemma {:induction false} SizeOfUnchanged(files: map<string, Bytes>, more: map<string, Bytes>, names: seq<string>)
    requires forall name :: name in names ==> name in files && name in more && files[name] == more[name]
    ensures SizeOf(files, names) == SizeOf(more, names)
  {
    if names != [] {
      var front := names[..|names| - 1];
      assert names == front + [names[|names| - 1]];
      SizeOfUnchanged(files, more, front);
    }
  }

  /** A file whose name sorts last is appended to the queue; the size grows by its length. */
  lemma PendingAppend(files: map<string, Bytes>, name: string, bytes: Bytes)
    requires IsEvent(name) && forall k :: k in EventNames(files) ==> LexLess(k, name)
    ensures Pending(files[name := bytes]) == Pending(files) + [name]
    ensures QueueBytes(files[name := bytes]) == QueueBytes(files) + |bytes|
  {
    var more := files[name := bytes];
    assert EventNames(more) == EventNames(files) + {name};
    SortedNamesAppend(EventNames(files), name);
    assert Pending(more)[..|Pending(files)|] == Pending(files);
    LexIrreflexive(name);
    SortedNamesLists(EventNames(files));
    SizeOfUnchanged(files, more, Pending(files));
  }

  lemma {:induction false} SizeOfConcat(files: map<string, Bytes>, a: seq<string>, b: seq<string>)
    requires forall name :: name in a || name in b ==> name in files
    ensures forall name :: name in a + b ==> name in files
    ensures SizeOf(files, a + b) == SizeOf(files, a) + SizeOf(files, b)
  {
    if b == [] {
      assert a + b == a;
    } else {
      assert (a + b)[..|a + b| - 1] == a + b[..|b| - 1];
      SizeOfConcat(files, a, b[..|b| - 1]);
    }
  }

  /** Where a name goes in a sorted list. */
  lemma {:induction false} Position(names: seq<string>, k: string) returns (i: nat)
    requires Ascending(names)
    ensures i <= |names| && (forall j :: 0 <= j < i ==> LexLess(names[j], k))
    ensures i < |names| ==> !LexLess(names[i], k)
  {
    if names == [] {
      i := 0;
    } else {
      i := Position(names[..|names| - 1], k);
      if i == |names| - 1 && LexLess(names[i], k) {
        i := i + 1;
      }
    }
  }

  lemma SizeWithin(files: map<string, Bytes>, front: seq<string>, name: string, back: seq<string>)
    requires name in files && forall k :: k in front || k in back ==> k in files
    ensures forall k :: k in front + [name] + back ==> k in files
    ensures SizeOf(files, front + [name] + back) == SizeOf(files, front) + |files[name]| + SizeOf(files, back)
  {
    SizeOfConcat(files, front, [name]);
    SizeOfConcat(files, front + [name], back);
    assert [name][..0] == [];
  }

  /** A further event file adds its length, wherever its name sorts. */
  lemma QueueBytesAdd(files: map<string, Bytes>, name: string, bytes: Bytes)
    requires IsEvent(name) && name !in files
    ensures QueueBytes(files[name := bytes]) == QueueBytes(files) + |bytes|
  {
    var more, keys, names := files[name := bytes], EventNames(files), Pending(files);
    SortedNamesLists(keys);
    var i := Position(names, name);
    var front, back := names[..i], names[i..];
    InsertLists(names, keys, name, i);
    assert EventNames(more) == keys + {name};
    SortedNamesLists(keys + {name});
    ListingUnique(Pending(more), front + [name] + back, keys + {name});
    assert names == front + back;
    assert forall k :: k in front || k in back ==> k in names;
    SizeOfConcat(files, front, back);
    SizeWithin(more, front, name, back);
    SizeOfUnchanged(files, more, front);
    SizeOfUnchanged(files, more, back);
  }

  /** Writing an event file, new or over another, adds at most its length. */
  lemma QueueBytesWrite(files: map<string, Bytes>, name: string, bytes: Bytes)
    requires IsEvent(name)
    ensures QueueBytes(files[name := bytes]) == QueueBytes(files - {name}) + |bytes|
    ensures QueueBytes(files - {name}) <= QueueBytes(files)
  {
    var others := files - {name};
    QueueBytesAdd(others, name, bytes);
    assert others[name := bytes] == files[name := bytes];
    if name in files {
      QueueBytesAdd(others, name, files[name]);
      assert others[name := files[name]] == files;
    } else {
      assert others == files;
    }
  }

  /** Removing the oldest file leaves the rest of the queue in order, and no larger. */
  lemma PendingTail(files: map<string, Bytes>)
    requires Pending(files) != []
    ensures Pending(files)[0] in EventNames(files) && Ascending(Pending(files))
    ensures Pending(files - {Pending(files)[0]}) == Pending(files)[1..]
  {
    var names := Pending(files);
    SortedNamesLists(EventNames(files));
    assert names[0] in names;
    SortedNamesTail(EventNames(files));
    assert EventNames(files - {names[0]}) == EventNames(files) - {names[0]};
  }

  ghost predicate SequencedBelow(files: map<string, Bytes>, sequence: nat) {
    forall name :: name in EventNames(files) && WellNamed(name) ==> Value(name[..SEQUENCE_WIDTH]) <= sequence
  }

  /** Every event file bears a name of the form this agent writes. */
  ghost predicate OwnNames(files: map<string, Bytes>) {
    forall name :: name in EventNames(files) ==> WellNamed(name)
  }

  /** A new event file, numbered at least as high as every other. */
  lemma NewFile(files: map<string, Bytes>, bytes: Bytes, sequence: nat, next: nat, eventId: string)
    requires SequencedBelow(files, sequence) && sequence <= next <= U128_MAX
    ensures SequencedBelow(files, next)
    ensures var more := files[QueueName(next, eventId) := bytes];
      && SequencedBelow(more, next)
      && (OwnNames(files) ==> OwnNames(more))
      && (OwnNames(files) && sequence < next ==>
           && (forall k :: k in EventNames(files) ==> LexLess(k, QueueName(next, eventId)))
           && Pending(more) == Pending(files) + [QueueName(next, eventId)]
           && QueueBytes(more) == QueueBytes(files) + |bytes|)
  {
    var name := QueueName(next, eventId);
    QueueNameSequence(next, eventId);
    if OwnNames(files) && sequence < next {
      forall k | k in EventNames(files) ensures LexLess(k, name) {
        NamesFollowSequence(k, next, eventId);
      }
      PendingAppend(files, name, bytes);
    }
  }

  function SurplusCount(n: nat): nat {
    if n <= QUARANTINE_KEEP then 0 else n - QUARANTINE_KEEP
  }

  /** What `trim_quarantine` removes: the oldest names beyond the number to keep. */
  ghost function Surplus(files: map<string, Bytes>): set<string> {
    var names := SortedNames(files.Keys);
    Firsts(names, SurplusCount(|names|))
  }

  ghost function Firsts(names: seq<string>, n: nat): set<string>
    requires n <= |names|
  {
    set k | k in names[..n]
  }

  lemma OneMoreFirst(names: seq<string>, n: nat)
    requires n < |names|
    ensures Firsts(names, n + 1) == Firsts(names, n) + {names[n]}
  {
    assert names[..n + 1] == names[..n] + [names[n]];
  }

  /** Trimming keeps the newest names and, when every removal works, at most the limit. */
  lemma TrimKeepsNewest(files: map<string, Bytes>)
    ensures Surplus(files) <= files.Keys
    ensures |files.Keys - Surplus(files)| == if |files| <= 20 then |files| else 20
    ensures forall k, g :: k in files && k !in Surplus(files) && g in Surplus(files) ==> LexLess(g, k)
  {
    var names := SortedNames(files.Keys);
    var cut := SurplusCount(|names|);
    var older, newer := names[..cut], names[cut..];
    SortedNamesLists(files.Keys);
    OlderAndNewer(names, cut);
    AscendingDistinct(names);
    Elements(names, files.Keys);
    var kept := files.Keys - Surplus(files);
    assert forall k :: k in newer <==> k in kept;
    Elements(newer, kept);
  }

  lemma OlderAndNewer(names: seq<string>, cut: nat)
    requires Ascending(names) && cut <= |names|
    ensures forall k :: k in names <==> k in names[..cut] || k in names[cut..]
    ensures forall k, g :: k in names[cut..] && g in names[..cut] ==> LexLess(g, k) && g != k
  {
    var older, newer := names[..cut], names[cut..];
    assert names == older + newer;
    forall k, g | k in newer && g in older ensures LexLess(g, k) && g != k {
      var i :| 0 <= i < |newer| && newer[i] == k;
      var j :| 0 <= j < |older| && older[j] == g;
      assert names[cut + i] == k && names[j] == g;
      LexAsymmetric(g, k);
    }
  }

  lemma {:induction false} Elements(names: seq<string>, keys: set<string>)
    requires forall i, j :: 0 <= i < j < |names| ==> names[i] != names[j]
    requires forall k :: k in names <==> k in keys
    ensures |keys| == |names|
  {
    if names == [] {
      assert keys == {};
    } else {
      var front, last := names[..|names| - 1], names[|names| - 1];
      assert names == front + [last];
      Elements(front, keys - {last});
    }
  }

  ghost predicate Intact(codec: Codec, files: map<string, Bytes>, name: string) {
    name in files && codec.decode(files[name]).Some?
  }

  // ----- the store -----

  datatype CacheFile = Missing | Damaged | Stored(records: seq<AssetRecord>)

  class StateStore {
    const codec: Codec
    const maxQueueBytes: nat
    var queue: map<string, Bytes>
    var unreadable: map<string, Bytes>
    var sequence: nat
    var hashFile: Option<string>
    var inventoryFile: CacheFile
    var heartbeatFile: Option<nat>

    ghost predicate Valid()
      reads this
    {
      && codec.RoundTrips() && maxQueueBytes <= U64_MAX
      && sequence <= U128_MAX && SequencedBelow(queue, sequence)
    }

    /** `open`: a restart over whatever files are there, with whatever the clock says. */
    constructor Open(codec: Codec, maxQueueBytes: nat, queue: map<string, Bytes>, unreadable: map<string, Bytes>,
                     hashFile: Option<string>, inventoryFile: CacheFile, heartbeatFile: Option<nat>, nanos: nat)
      requires codec.RoundTrips() && maxQueueBytes <= U64_MAX && nanos <= U128_MAX
      ensures Valid()
      ensures this.codec == codec && this.maxQueueBytes == maxQueueBytes
      ensures this.queue == queue && this.unreadable == unreadable
      ensures this.hashFile == hashFile && this.inventoryFile == inventoryFile && this.heartbeatFile == heartbeatFile
      ensures sequence >= nanos
    {
      this.codec, this.maxQueueBytes := codec, maxQueueBytes;
      this.queue, this.unreadable := queue, unreadable;
      this.hashFile, this.inventoryFile, this.heartbeatFile := hashFile, inventoryFile, heartbeatFile;
      var highest := HighestSequence(queue.Keys);
      this.sequence := if highest >= nanos then highest else nanos;
      forall name | name in EventNames(queue) && WellNamed(name) ensures Value(name[..SEQUENCE_WIDTH]) <= highest {
        WellNamedSequence(name);
      }
    }

    /** `unwrap_or(0)` of the greatest number found in any entry of the queue directory. */
    static method HighestSequence(names: set<string>) returns (highest: nat)
      ensures highest <= U128_MAX
      ensures forall name :: name in names && SequenceOf(name).Some? ==> SequenceOf(name).value <= highest
      ensures highest == 0 || exists name :: name in names && SequenceOf(name) == Some(highest)
    {
      highest := 0;
      var rest := names;
      while rest != {}
        invariant rest <= names && highest <= U128_MAX
        invariant forall name :: name in names - rest && SequenceOf(name).Some? ==> SequenceOf(name).value <= highest
        invariant highest == 0 || exists name :: name in names && SequenceOf(name) == Some(highest)
        decreases rest
      {
        var name :| name in rest;
        var number := SequenceOf(name);
        if number.Some? && number.value > highest {
          highest := number.value;
        }
        rest := rest - {name};
      }
    }

    function PreviousHash(): Option<string>
      reads this
    {
      if hashFile.Some? && hashFile.value != "" then hashFile else None
    }

    function PreviousInventory(): seq<AssetRecord>
      reads this
    {
      if inventoryFile.Stored? then inventoryFile.records else []
    }

    function LastHeartbeat(): nat
      reads this
    {
      if heartbeatFile.Some? then heartbeatFile.value else 0
    }

    method SetPreviousHash(value: string, write: WriteOutcome) returns (ok: bool)
      modifies this`hashFile
      ensures ok == write.Durable?
      ensures hashFile == if Landed(write) then Some(value) else old(hashFile)
    {
      if Landed(write) { hashFile := Some(value); }
      ok := write.Durable?;
    }

    method SetPreviousInventory(records: seq<AssetRecord>, write: WriteOutcome) returns (ok: bool)
      modifies this`inventoryFile
      ensures ok == write.Durable?
      ensures inventoryFile == if Landed(write) then Stored(records) else old(inventoryFile)
    {
      if Landed(write) { inventoryFile := Stored(records); }
      ok := write.Durable?;
    }

    method SetLastHeartbeat(value: nat, write: WriteOutcome) returns (ok: bool)
      modifies this`heartbeatFile
      ensures ok == write.Durable?
      ensures heartbeatFile == if Landed(write) then Some(value) else old(heartbeatFile)
    {
      if Landed(write) { heartbeatFile := Some(value); }
      ok := write.Durable?;
    }

    method PendingPaths() returns (names: seq<string>)
      ensures names == Pending(queue) && Lists(names, EventNames(queue))
    {
      names := SortNames(set name | name in queue && IsEvent(name));
    }

    method UsedBytes() returns (used: nat)
      ensures used == QueueBytes(queue)
    {
      var names := PendingPaths();
      used := 0;
      for i := 0 to |names|
        invariant forall name :: name in names[..i] ==> name in queue
        invariant used == SizeOf(queue, names[..i])
      {
        assert names[i] in names;
        assert names[..i + 1][..i] == names[..i];
        used := used + |queue[names[i]]|;
      }
      assert names[..|names|] == names;
    }

    /** An event does not fit when its bytes would take the queue past the limit. */
    ghost predicate Fits(e: Envelope)
      reads this
    {
      SaturatingAdd64(QueueBytes(queue), |codec.encode(e)| + 1) <= maxQueueBytes
    }

    method Enqueue(e: Envelope, nanos: nat, write: WriteOutcome) returns (r: Result<string, StoreError>)
      requires Valid() && nanos <= U128_MAX
      modifies this`queue, this`sequence
      ensures Valid()
      // Refused exactly when the limit would be passed, in 64 bits that do not wrap.
      ensures r == Err(QueueFull) <==>
        old(QueueBytes(queue)) + |codec.encode(e)| + 1 > maxQueueBytes && maxQueueBytes < 18_446_744_073_709_551_615
      ensures !old(Fits(e)) ==> r == Err(QueueFull) && sequence == old(sequence)
      ensures old(Fits(e)) ==> sequence == NextSequence(old(sequence), nanos)
      ensures old(Fits(e)) ==> r == if write.Durable? then Ok(QueueName(sequence, e.eventId)) else Err(WriteFailed)
      ensures queue == if old(Fits(e)) && Landed(write)
        then old(queue)[QueueName(sequence, e.eventId) := codec.encode(e) + [LINE_FEED]] else old(queue)
      ensures old(OwnNames(queue)) ==> OwnNames(queue)
      // The queue stays within its limit, whatever files it holds.
      ensures old(Fits(e)) && maxQueueBytes < U64_MAX ==> QueueBytes(queue) <= maxQueueBytes
      // Below saturation the event goes last.
      ensures old(OwnNames(queue)) && old(sequence) < U128_MAX && old(Fits(e)) && Landed(write) ==>
        && Pending(queue) == old(Pending(queue)) + [QueueName(sequence, e.eventId)]
        && QueueBytes(queue) == old(QueueBytes(queue)) + |codec.encode(e)| + 1
    {
      var bytes := codec.encode(e) + [LINE_FEED];
      var used := UsedBytes();
      if SaturatingAdd64(used, |bytes|) > maxQueueBytes {
        return Err(QueueFull);
      }
      var next := NextSequence(sequence, nanos);
      assert Fits(e);
      NewFile(queue, bytes, sequence, next, e.eventId);
      sequence := next;
      var name := QueueName(sequence, e.eventId);
      QueueNameSequence(sequence, e.eventId);
      QueueBytesWrite(queue, name, bytes);
      if Landed(write) {
        queue := queue[name := bytes];
      }
      r := if write.Durable? then Ok(name) else Err(WriteFailed);
    }

    /** `readable` is whether the file system lets the file be read this time. */
    method ReadEnvelope(name: string, readable: bool) returns (r: Result<Envelope, StoreError>)
      ensures r == if Intact(codec, queue, name) && readable then Ok(codec.decode(queue[name]).value)
        else Err(Unreadable)
    {
      if !readable || name !in queue {
        return Err(Unreadable);
      }
      var decoded := codec.decode(queue[name]);
      r := if decoded.Some? then Ok(decoded.value) else Err(Unreadable);
    }

    method Acknowledge(name: string, removable: bool) returns (ok: bool)
      requires Valid()
      modifies this`queue
      ensures Valid()
      ensures ok == (removable && name in old(queue))
      ensures queue == if ok then old(queue) - {name} else old(queue)
    {
      ok := removable && name in queue;
      if ok { queue := queue - {name}; }
    }

    /** Moves an unreadable event aside; `stuck` names files whose removal would fail. */
    method Quarantine(name: string, movable: bool, stuck: set<string>) returns (ok: bool)
      requires Valid()
      modifies this`queue, this`unreadable
      ensures Valid()
      ensures ok == (movable && name in old(queue))
      ensures !ok ==> queue == old(queue) && unreadable == old(unreadable)
      ensures ok ==> queue == old(queue) - {name}
      ensures ok ==>
        var moved := old(unreadable)[name := old(queue)[name]];
        unreadable == moved - (Surplus(moved) - stuck)
    {
      ok := movable && name in queue;
      if ok {
        unreadable := unreadable[name := queue[name]];
        queue := queue - {name};
        TrimQuarantine(stuck);
      }
    }

    method TrimQuarantine(stuck: set<string>)
      modifies this`unreadable
      ensures unreadable == old(unreadable) - (Surplus(old(unreadable)) - stuck)
    {
      var files := SortNames(unreadable.Keys);
      ghost var before := unreadable;
      var surplus := SurplusCount(|files|);
      for i := 0 to surplus
        invariant unreadable == before - (Firsts(files, i) - stuck)
      {
        OneMoreFirst(files, i);
        RemoveOne(before, Firsts(files, i), stuck, files[i]);
        if files[i] !in stuck {
          unreadable := unreadable - {files[i]};
        }
      }
    }
  }

  lemma RemoveOne(files: map<string, Bytes>, gone: set<string>, stuck: set<string>, k: string)
    ensures files - (gone + {k} - stuck)
         == if k in stuck then files - (gone - stuck) else files - (gone - stuck) - {k}
  {
    assert k in stuck ==> gone + {k} - stuck == gone - stuck;
  }
}
