// The firmware UUID in the SMBIOS structure table (src/smbios.rs), against the layout of
// structures in the SMBIOS specification (DSP0134, sections 6.1.2, 6.1.3 and 7.2.1).

module Smbios {
  import opened Text
  import opened Wrappers

  newtype Byte = b: int | 0 <= b < 256

  const NUL: Byte := 0

  // ----- structures and their encoding -----

  /** A structure: its type, its formatted part after the two-byte type and length, its strings. */
  datatype Structure = Structure(kind: Byte, formatted: seq<Byte>, strings: seq<seq<Byte>>)

  ghost predicate WellFormed(s: Structure) {
    && 2 <= |s.formatted| <= 253
    && Texts(s.strings)
  }

  type Sound = s: Structure | WellFormed(s) witness Structure(0, [0, 0], [])

  function LengthOf(s: Structure): nat {
    |s.formatted| + 2
  }

  function EncodeStrings(strings: seq<seq<Byte>>): seq<Byte> {
    if strings == [] then [] else strings[0] + [0] + EncodeStrings(strings[1..])
  }

  /** The string area: each string and a NUL, then one more NUL; two NULs when there is none. */
  function StringArea(strings: seq<seq<Byte>>): seq<Byte> {
    if strings == [] then [0, 0] else EncodeStrings(strings) + [0]
  }

  function Encode(s: Sound): seq<Byte> {
    [s.kind, (|s.formatted| + 2) as Byte] + s.formatted + StringArea(s.strings)
  }

  function EncodeTable(structures: seq<Sound>): seq<Byte> {
    if structures == [] then [] else Encode(structures[0]) + EncodeTable(structures[1..])
  }

  // ----- printing -----

  function HexDigit(n: nat): char
    requires n < 16
  {
    if n < 10 then ('0' as int + n) as char else ('a' as int + n - 10) as char
  }

  function HexAll(bytes: seq<Byte>): (text: string)
    ensures |text| == 2 * |bytes|
  {
    if bytes == [] then "" else [HexDigit(bytes[0] as int / 16), HexDigit(bytes[0] as int % 16)] + HexAll(bytes[1..])
  }

  /** `format_uuid`: the first three groups are stored little-endian. */
  function FormatUuid(u: seq<Byte>): (text: string)
    requires |u| == 16
  {
    HexAll([u[3], u[2], u[1], u[0]]) + ("-" + (HexAll([u[5], u[4]]) + ("-" + (HexAll([u[7], u[6]]) + ("-"
    + (HexAll(u[8..10]) + ("-" + HexAll(u[10..16]))))))))
  }

  lemma HexDigitInjective(m: nat, n: nat)
    requires m < 16 && n < 16
    ensures HexDigit(m) == HexDigit(n) ==> m == n
  {
  }

  lemma {:induction false} HexAllInjective(a: seq<Byte>, b: seq<Byte>)
    requires |a| == |b| && HexAll(a) == HexAll(b)
    ensures a == b
  {
    if a != [] {
      var s, t := HexAll(a), HexAll(b);
      assert s[0] == t[0] && s[1] == t[1] && s[2..] == t[2..];
      assert s[2..] == HexAll(a[1..]) && t[2..] == HexAll(b[1..]);
      HexDigitInjective(a[0] as int / 16, b[0] as int / 16);
      HexDigitInjective(a[0] as int % 16, b[0] as int % 16);
      HexAllInjective(a[1..], b[1..]);
      assert a == [a[0]] + a[1..] && b == [b[0]] + b[1..];
    }
  }

  /** A group of known width followed by a dash. */
  lemma NextGroup(a: seq<Byte>, x: string, b: seq<Byte>, y: string)
    requires |a| == |b| && HexAll(a) + ("-" + x) == HexAll(b) + ("-" + y)
    ensures a == b && x == y
  {
    var s, t := HexAll(a) + ("-" + x), HexAll(b) + ("-" + y);
    assert s[..2 * |a|] == HexAll(a) && t[..2 * |b|] == HexAll(b);
    assert s[2 * |a| + 1..] == x && t[2 * |b| + 1..] == y;
    HexAllInjective(a, b);
  }

  /** Different identifiers print differently. */
  lemma FormatUuidInjective(u: seq<Byte>, v: seq<Byte>)
    requires |u| == 16 && |v| == 16
    ensures FormatUuid(u) == FormatUuid(v) <==> u == v
  {
    if FormatUuid(u) == FormatUuid(v) {
      var x4, y4 := HexAll(u[10..16]), HexAll(v[10..16]);
      var x3, y3 := HexAll(u[8..10]) + ("-" + x4), HexAll(v[8..10]) + ("-" + y4);
      var x2, y2 := HexAll([u[7], u[6]]) + ("-" + x3), HexAll([v[7], v[6]]) + ("-" + y3);
      var x1, y1 := HexAll([u[5], u[4]]) + ("-" + x2), HexAll([v[5], v[4]]) + ("-" + y2);
      NextGroup([u[3], u[2], u[1], u[0]], x1, [v[3], v[2], v[1], v[0]], y1);
      NextGroup([u[5], u[4]], x2, [v[5], v[4]], y2);
      NextGroup([u[7], u[6]], x3, [v[7], v[6]], y3);
      NextGroup(u[8..10], x4, v[8..10], y4);
      HexAllInjective(u[10..16], v[10..16]);
      SameBytes(u, v);
    }
  }

  lemma SameBytes(u: seq<Byte>, v: seq<Byte>)
    requires |u| == |v| == 16
    requires [u[3], u[2], u[1], u[0]] == [v[3], v[2], v[1], v[0]] && [u[5], u[4]] == [v[5], v[4]]
    requires [u[7], u[6]] == [v[7], v[6]] && u[8..10] == v[8..10] && u[10..16] == v[10..16]
    ensures u == v
  {
    var a, b := [u[3], u[2], u[1], u[0]], [v[3], v[2], v[1], v[0]];
    assert a[0] == b[0] && a[1] == b[1] && a[2] == b[2] && a[3] == b[3];
    assert [u[5], u[4]][0] == [v[5], v[4]][0] && [u[5], u[4]][1] == [v[5], v[4]][1];
    assert [u[7], u[6]][0] == [v[7], v[6]][0] && [u[7], u[6]][1] == [v[7], v[6]][1];
    assert u[..8] == v[..8];
    assert u == u[..8] + u[8..10] + u[10..16] && v == v[..8] + v[8..10] + v[10..16];
  }

  // ----- what the print shows -----

  /** The number that bytes stand for, least significant byte first. */
  function LittleEndian(bytes: seq<Byte>): nat {
    if bytes == [] then 0 else bytes[0] as nat + 256 * LittleEndian(bytes[1..])
  }

  /** The same, most significant byte first. */
  function BigEndian(bytes: seq<Byte>): nat {
    if bytes == [] then 0 else 256 * BigEndian(bytes[..|bytes| - 1]) + bytes[|bytes| - 1] as nat
  }

  predicate LowerHex(text: string) {
    forall i :: 0 <= i < |text| ==> text[i] in "0123456789abcdef"
  }

  function NibbleOf(c: char): nat
    requires c in "0123456789abcdef"
  {
    if c <= '9' then c as int - '0' as int else c as int - 'a' as int + 10
  }

  function HexNumber(text: string): nat
    requires LowerHex(text)
  {
    if text == "" then 0 else 16 * HexNumber(text[..|text| - 1]) + NibbleOf(text[|text| - 1])
  }

  lemma HexDigitShows(n: nat)
    requires n < 16
    ensures HexDigit(n) == "0123456789abcdef"[n] && NibbleOf(HexDigit(n)) == n
  {
  }

  lemma {:induction false} HexAllSnoc(front: seq<Byte>, b: Byte)
    ensures HexAll(front + [b]) == HexAll(front) + [HexDigit(b as int / 16), HexDigit(b as int % 16)]
  {
    if front == [] {
      assert front + [b] == [b];
    } else {
      HexAllSnoc(front[1..], b);
      assert (front + [b])[1..] == front[1..] + [b];
    }
  }

  /** Two digits a byte, in the order given. */
  lemma {:induction false} HexAllShows(bytes: seq<Byte>)
    ensures LowerHex(HexAll(bytes)) && HexNumber(HexAll(bytes)) == BigEndian(bytes)
  {
    if bytes != [] {
      var front, b := bytes[..|bytes| - 1], bytes[|bytes| - 1];
      HexAllShows(front);
      HexAllSnoc(front, b);
      assert bytes == front + [b];
      TwoDigits(HexAll(front), b as nat / 16, b as nat % 16);
    }
  }

  lemma TwoDigits(text: string, high: nat, low: nat)
    requires LowerHex(text) && high < 16 && low < 16
    ensures LowerHex(text + [HexDigit(high), HexDigit(low)])
    ensures HexNumber(text + [HexDigit(high), HexDigit(low)]) == 256 * HexNumber(text) + 16 * high + low
  {
    HexDigitShows(high);
    HexDigitShows(low);
    var one, two := text + [HexDigit(high)], text + [HexDigit(high), HexDigit(low)];
    assert two[..|two| - 1] == one && one[..|one| - 1] == text;
  }

  lemma Backwards(u: seq<Byte>)
    requires |u| == 16
    ensures BigEndian([u[3], u[2], u[1], u[0]]) == LittleEndian(u[0..4])
    ensures BigEndian([u[5], u[4]]) == LittleEndian(u[4..6]) && BigEndian([u[7], u[6]]) == LittleEndian(u[6..8])
  {
    TwoBackwards(u[4..6]);
    TwoBackwards(u[6..8]);
    FourBackwards(u[0..4]);
  }

  lemma TwoBackwards(b: seq<Byte>)
    requires |b| == 2
    ensures BigEndian([b[1], b[0]]) == b[0] as nat + 256 * b[1] as nat == LittleEndian(b)
  {
    var a := [b[1], b[0]];
    assert a[..1] == [b[1]] == b[1..] && [b[1]][..0] == [b[1]][1..] == [];
    assert BigEndian([b[1]]) == LittleEndian([b[1]]) == b[1] as nat;
  }

  lemma FourBackwards(b: seq<Byte>)
    requires |b| == 4
    ensures BigEndian([b[3], b[2], b[1], b[0]]) == LittleEndian(b)
  {
    var a := [b[3], b[2], b[1], b[0]];
    TwoBackwards(b[2..]);
    assert a[..3] == [b[3], b[2], b[1]] && a[..3][..2] == [b[3], b[2]];
    assert b[1..][1..] == b[2..];
  }

  /** The layout of an identifier in section 7.2.1 of DSP0134: 36 characters with four dashes, the
      first three numbers stored least significant byte first, the other two in order. */
  lemma FormatUuidShows(u: seq<Byte>)
    requires |u| == 16
    ensures var text := FormatUuid(u);
      && |text| == 36 && text[8] == '-' && text[13] == '-' && text[18] == '-' && text[23] == '-'
      && LowerHex(text[0..8]) && HexNumber(text[0..8]) == LittleEndian(u[0..4])
      && LowerHex(text[9..13]) && HexNumber(text[9..13]) == LittleEndian(u[4..6])
      && LowerHex(text[14..18]) && HexNumber(text[14..18]) == LittleEndian(u[6..8])
      && LowerHex(text[19..23]) && HexNumber(text[19..23]) == BigEndian(u[8..10])
      && LowerHex(text[24..36]) && HexNumber(text[24..36]) == BigEndian(u[10..16])
  {
    var a, b, c, d, e := HexAll([u[3], u[2], u[1], u[0]]), HexAll([u[5], u[4]]), HexAll([u[7], u[6]]),
      HexAll(u[8..10]), HexAll(u[10..16]);
    Groups(FormatUuid(u), a, b, c, d, e);
    HexAllShows([u[3], u[2], u[1], u[0]]);
    HexAllShows([u[5], u[4]]);
    HexAllShows([u[7], u[6]]);
    HexAllShows(u[8..10]);
    HexAllShows(u[10..16]);
    Backwards(u);
  }

  lemma Groups(text: string, a: string, b: string, c: string, d: string, e: string)
    requires |a| == 8 && |b| == |c| == |d| == 4 && |e| == 12
    requires text == a + ("-" + (b + ("-" + (c + ("-" + (d + ("-" + e)))))))
    ensures |text| == 36 && text[8] == '-' && text[13] == '-' && text[18] == '-' && text[23] == '-'
    ensures text[0..8] == a && text[9..13] == b && text[14..18] == c && text[19..23] == d && text[24..36] == e
  {
  }

  // ----- what the walk is to find -----

  ghost predicate AllEqual(bytes: seq<Byte>, b: Byte) {
    forall i :: 0 <= i < |bytes| ==> bytes[i] == b
  }

  ghost predicate Unset(uuid: seq<Byte>) {
    AllEqual(uuid, 0) || AllEqual(uuid, 255)
  }

  /** A system information structure long enough to hold an identifier. */
  ghost predicate HasUuid(s: Structure) {
    s.kind == 1 && LengthOf(s) >= 24
  }

  ghost function Answer(uuid: seq<Byte>): Option<string>
    requires |uuid| == 16
  {
    if Unset(uuid) then None else Some(FormatUuid(uuid))
  }

  /** The identifier of the first such structure, unless it is one of the two unset patterns. */
  ghost function Expected(structures: seq<Sound>): Option<string> {
    if structures == [] then None
    else if HasUuid(structures[0]) then Answer(structures[0].formatted[6..22])
    else Expected(structures[1..])
  }

  // ----- the walk over raw bytes -----

  /** The first position from `cursor` on where the string area ends, or the end of the table. */
  ghost function StringEnd(table: seq<Byte>, cursor: nat): (end: nat)
    ensures cursor <= end
    decreases |table| - cursor
  {
    if cursor + 1 < |table| && !(table[cursor] == 0 && table[cursor + 1] == 0)
    then StringEnd(table, cursor + 1) else cursor
  }

  ghost function Walk(table: seq<Byte>, offset: nat): Option<string>
    decreases |table| - offset
  {
    if offset + 4 > |table| then None
    else
      var kind, length := table[offset], table[offset + 1] as nat;
      if length < 4 || offset + length > |table| then None
      else if kind == 1 && length >= 24 then Answer(table[offset + 8..offset + 24])
      else Walk(table, StringEnd(table, offset + length) + 2)
  }

  method AllAre(bytes: seq<Byte>, b: Byte) returns (all: bool)
    ensures all == AllEqual(bytes, b)
  {
    for i := 0 to |bytes|
      invariant AllEqual(bytes[..i], b)
    {
      if bytes[i] != b {
        return false;
      }
      assert bytes[..i + 1] == bytes[..i] + [bytes[i]];
    }
    assert bytes[..|bytes|] == bytes;
    all := true;
  }

  /** The inner loop: to the two NULs that end a string area, or to the end of the table. */
  method SkipStrings(table: seq<Byte>, start: nat) returns (cursor: nat)
    ensures cursor == StringEnd(table, start)
  {
    cursor := start;
    while cursor + 1 < |table| && !(table[cursor] == 0 && table[cursor + 1] == 0)
      invariant start <= cursor
      invariant StringEnd(table, cursor) == StringEnd(table, start)
      decreases |table| - cursor
    {
      cursor := cursor + 1;
    }
  }

  method ReadUuid(uuid: seq<Byte>) returns (r: Option<string>)
    requires |uuid| == 16
    ensures r == Answer(uuid)
  {
    var zeros := AllAre(uuid, 0);
    var ones := AllAre(uuid, 255);
    r := if zeros || ones then None else Some(FormatUuid(uuid));
  }

  /** `system_uuid`, on any bytes whatsoever. */
  method SystemUuid(table: seq<Byte>) returns (r: Option<string>)
    ensures r == Walk(table, 0)
  {
    var offset := 0;
    ghost var expected := Walk(table, 0);
    while offset + 4 <= |table|
      invariant 0 <= offset
      invariant Walk(table, offset) == expected
      decreases |table| - offset
    {
      var kind := table[offset];
      var length := table[offset + 1] as int;
      if length < 4 || offset + length > |table| {
        return None;
      }
      if kind == 1 && length >= 24 {
        r := ReadUuid(table[offset + 8..offset + 24]);
        return r;
      }
      var cursor := SkipStrings(table, offset + length);
      var next := cursor + 2;
      if next <= offset {
        return None;
      }
      offset := next;
    }
    r := None;
  }

  // ----- well-formed tables -----

  /** The walk passes over a string without a NUL. */
  lemma {:induction false} SkipString(before: seq<Byte>, s: seq<Byte>, after: seq<Byte>)
    requires NUL !in s && after != []
    ensures StringEnd(before + s + after, |before|) == StringEnd(before + s + after, |before| + |s|)
    decreases |s|
  {
    var table := before + s + after;
    if s != [] {
      assert table[|before|] == s[0] && s[0] in s;
      var before' := before + [s[0]];
      assert table == before' + s[1..] + after;
      SkipString(before', s[1..], after);
    }
  }

  /** After one string the walk stops when another NUL follows, and goes on otherwise. */
  lemma OneString(before: seq<Byte>, s: seq<Byte>, tail: seq<Byte>)
    requires NUL !in s && tail != []
    ensures var table := before + s + [0] + tail;
      StringEnd(table, |before|)
      == if tail[0] == 0 then |before| + |s| else StringEnd(table, |before| + |s| + 1)
  {
    var table := before + s + [0] + tail;
    assert table == before + s + ([0] + tail);
    SkipString(before, s, [0] + tail);
    var here := |before| + |s|;
    assert table[here] == 0 && table[here + 1] == tail[0];
    if tail[0] != 0 {
      assert here + 1 < |table|;
    }
  }

  ghost predicate Texts(strings: seq<seq<Byte>>) {
    forall i :: 0 <= i < |strings| ==> strings[i] != [] && NUL !in strings[i]
  }

  /** Inside a string area two NULs in a row occur only at its end. */
  lemma {:induction false} StringEndInArea(before: seq<Byte>, strings: seq<seq<Byte>>, after: seq<Byte>)
    requires strings != [] && Texts(strings)
    ensures StringEnd(before + EncodeStrings(strings) + [0] + after, |before|)
         == |before| + |EncodeStrings(strings)| - 1
    decreases |strings|
  {
    var s, rest := strings[0], strings[1..];
    var tail := EncodeStrings(rest) + [0] + after;
    Peel(before, s, EncodeStrings(rest), after);
    OneString(before, s, tail);
    if rest != [] {
      FirstByte(rest, after);
      StringEndInArea(before + s + [0], rest, after);
    }
  }

  lemma Peel(before: seq<Byte>, s: seq<Byte>, rest: seq<Byte>, after: seq<Byte>)
    ensures before + (s + [0] + rest) + [0] + after == before + s + [0] + (rest + [0] + after)
    ensures before + s + [0] + rest + [0] + after == before + s + [0] + (rest + [0] + after)
  {
  }

  lemma FirstByte(strings: seq<seq<Byte>>, after: seq<Byte>)
    requires strings != [] && Texts(strings)
    ensures var tail := EncodeStrings(strings) + [0] + after;
      tail != [] && tail[0] == strings[0][0] != 0
  {
    assert EncodeStrings(strings)[0] == strings[0][0];
    assert strings[0][0] in strings[0];
  }

  /** After a well-formed structure the walk continues exactly at the next one. */
  lemma NextStructure(before: seq<Byte>, s: Sound, after: seq<Byte>)
    ensures StringEnd(before + Encode(s) + after, |before| + LengthOf(s)) + 2 == |before| + |Encode(s)|
  {
    var head := [s.kind, (|s.formatted| + 2) as Byte] + s.formatted;
    var table := before + Encode(s) + after;
    if s.strings == [] {
      assert table == before + head + [0, 0] + after;
      assert table[|before| + |head|] == 0 && table[|before| + |head| + 1] == 0;
    } else {
      assert table == (before + head) + EncodeStrings(s.strings) + [0] + after;
      StringEndInArea(before + head, s.strings, after);
    }
  }

  /** What the walk reads at a structure that begins at `at` and is followed at `next`. */
  ghost predicate Reads(table: seq<Byte>, at: nat, s: Sound, next: nat) {
    && at + 4 <= |table| && at + LengthOf(s) <= |table|
    && table[at] == s.kind && table[at + 1] as nat == LengthOf(s)
    && (HasUuid(s) ==> table[at + 8..at + 24] == s.formatted[6..22])
    && StringEnd(table, at + LengthOf(s)) + 2 == next
  }

  lemma StructureReads(before: seq<Byte>, s: Sound, after: seq<Byte>)
    ensures Reads(before + Encode(s) + after, |before|, s, |before| + |Encode(s)|)
  {
    var table, at := before + Encode(s) + after, |before|;
    assert |StringArea(s.strings)| >= 1;
    var head := [s.kind, (|s.formatted| + 2) as Byte] + s.formatted;
    assert table[at..at + |head|] == head;
    assert table[at] == head[0] && table[at + 1] == head[1];
    if HasUuid(s) {
      assert table[at + 8..at + 24] == head[8..24];
    }
    NextStructure(before, s, after);
  }

  /** One structure of the walk. */
  lemma WalkStructure(table: seq<Byte>, at: nat, s: Sound, next: nat)
    requires Reads(table, at, s, next)
    ensures Walk(table, at) == if HasUuid(s) then Answer(s.formatted[6..22]) else Walk(table, next)
  {
  }

  lemma {:induction false} WalkTable(before: seq<Byte>, structures: seq<Sound>)
    ensures Walk(before + EncodeTable(structures), |before|) == Expected(structures)
    decreases |structures|
  {
    if structures == [] {
      WalkEnds(before);
    } else {
      var s, rest := structures[0], structures[1..];
      var after := EncodeTable(rest);
      Regroup(before, Encode(s), after);
      StructureReads(before, s, after);
      WalkStructure(before + Encode(s) + after, |before|, s, |before + Encode(s)|);
      WalkTable(before + Encode(s), rest);
    }
  }

  lemma WalkEnds(before: seq<Byte>)
    ensures Walk(before + EncodeTable([]), |before|) == None
  {
  }

  /** On the encoding of any list of well-formed structures the walk finds the identifier of the
      first system information structure that has one. */
  lemma SystemUuidOfTable(structures: seq<Sound>)
    ensures Walk(EncodeTable(structures), 0) == Expected(structures)
  {
    assert [] + EncodeTable(structures) == EncodeTable(structures);
    WalkTable([], structures);
  }

  /** Whatever the bytes, a result is the print of sixteen bytes of the table that are set. */
  lemma {:induction false} ResultComesFromTable(table: seq<Byte>, offset: nat) returns (at: nat)
    requires Walk(table, offset).Some?
    ensures at + 16 <= |table| && !Unset(table[at..at + 16])
    ensures Walk(table, offset) == Some(FormatUuid(table[at..at + 16]))
    decreases |table| - offset
  {
    var length := table[offset + 1] as nat;
    if table[offset] == 1 && length >= 24 {
      at := offset + 8;
    } else {
      at := ResultComesFromTable(table, StringEnd(table, offset + length) + 2);
    }
  }
}
