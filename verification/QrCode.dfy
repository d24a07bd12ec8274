// The QR code as one SVG path and as pixels (web/src/qrCode.ts).

module QrCode {
  import opened Text
  import opened Wrappers

  datatype Matrix = Matrix(size: nat, modules: seq<bool>)

  ghost predicate Square(m: Matrix) {
    |m.modules| == m.size * m.size
  }

  lemma TimesMonotone(a: nat, b: nat, size: nat)
    requires a <= b
    ensures a * size <= b * size
  {
    assert (b - a) * size >= 0;
    assert b * size == a * size + (b - a) * size;
  }

  lemma CellInRange(row: nat, column: nat, size: nat)
    requires row < size && column < size
    ensures 0 <= row * size + column < size * size
  {
    TimesMonotone(row + 1, size, size);
    TimesMonotone(0, row, size);
    assert (row + 1) * size == row * size + size;
  }

  predicate Dark(m: Matrix, row: int, column: int)
    requires Square(m)
  {
    && 0 <= row < m.size && 0 <= column < m.size
    && (CellInRange(row, column, m.size); m.modules[row * m.size + column])
  }

  // ----- runs -----

  /** A rectangle of the path: one module high, starting at (x, y). */
  datatype Run = Run(x: nat, y: nat, length: nat)

  ghost predicate Covers(r: Run, row: int, column: int) {
    r.y == row && r.x <= column < r.x + r.length
  }

  /** A run of dark modules that cannot be extended to either side. */
  ghost predicate MaximalRun(m: Matrix, r: Run)
    requires Square(m)
  {
    && r.length > 0 && r.y < m.size && r.x + r.length <= m.size
    && (forall column :: r.x <= column < r.x + r.length ==> Dark(m, r.y, column))
    && !Dark(m, r.y, r.x - 1) && !Dark(m, r.y, r.x + r.length)
  }

  ghost predicate EndsBefore(r: Run, row: int, column: int) {
    r.y < row || (r.y == row && r.x + r.length <= column)
  }

  ghost predicate Earlier(y: int, x: int, row: int, column: int) {
    y < row || (y == row && x < column)
  }

  /** The runs, in reading order, that lie before a position and cover all that is dark there. */
  ghost predicate RunsUpTo(m: Matrix, runs: seq<Run>, row: int, column: int)
    requires Square(m)
  {
    && (forall i :: 0 <= i < |runs| ==> MaximalRun(m, runs[i]) && EndsBefore(runs[i], row, column))
    && (forall i, j :: 0 <= i < j < |runs| ==> EndsBefore(runs[i], runs[j].y, runs[j].x))
    && (forall y, x :: Dark(m, y, x) && Earlier(y, x, row, column) ==> CoveredBy(runs, y, x))
  }

  ghost predicate CoveredBy(runs: seq<Run>, row: int, column: int) {
    exists i :: 0 <= i < |runs| && Covers(runs[i], row, column)
  }

  ghost predicate RunsOf(m: Matrix, runs: seq<Run>)
    requires Square(m)
  {
    RunsUpTo(m, runs, m.size, 0)
  }

  lemma CoveredIffDark(m: Matrix, runs: seq<Run>, row: int, column: int)
    requires Square(m) && RunsOf(m, runs)
    ensures CoveredBy(runs, row, column) <==> Dark(m, row, column)
  {
    if CoveredBy(runs, row, column) {
      var i :| 0 <= i < |runs| && Covers(runs[i], row, column);
      assert MaximalRun(m, runs[i]);
    }
    if Dark(m, row, column) {
      assert Earlier(row, column, m.size, 0);
    }
  }

  /** The rectangles cover exactly the dark modules, each of them once. */
  lemma RunsCoverDark(m: Matrix, runs: seq<Run>, row: int, column: int)
    requires Square(m) && RunsOf(m, runs)
    ensures CoveredBy(runs, row, column) <==> Dark(m, row, column)
    ensures forall i, j :: 0 <= i < j < |runs| && Covers(runs[i], row, column) ==> !Covers(runs[j], row, column)
  {
    CoveredIffDark(m, runs, row, column);
  }

  /** Rectangles that describe two matrices of one size describe one matrix. */
  lemma RunsDetermineMatrix(m: Matrix, n: Matrix, runs: seq<Run>)
    requires Square(m) && Square(n) && m.size == n.size && RunsOf(m, runs) && RunsOf(n, runs)
    ensures m == n
  {
    forall i | 0 <= i < |m.modules| ensures m.modules[i] == n.modules[i] {
      var row, column := ModuleAt(m, i);
      OneModule(n, i, row, column);
      CoveredIffDark(m, runs, row, column);
      CoveredIffDark(n, runs, row, column);
    }
  }

  /** Where a module of the row-major list is. */
  lemma ModuleAt(m: Matrix, i: nat) returns (row: nat, column: nat)
    requires Square(m) && i < |m.modules|
    ensures row < m.size && column < m.size && i == row * m.size + column
    ensures Dark(m, row, column) <==> m.modules[i]
  {
    assert m.size != 0;
    Unflatten(i, m.size);
    row, column := i / m.size, i % m.size;
    OneModule(m, i, row, column);
  }

  lemma OneModule(m: Matrix, i: nat, row: nat, column: nat)
    requires Square(m) && i < |m.modules|
    requires row < m.size && column < m.size && i == row * m.size + column
    ensures Dark(m, row, column) <==> m.modules[i]
  {
  }

  lemma QuotientBelow(i: nat, width: nat, height: nat)
    requires width > 0 && i < width * height
    ensures i / width < height
  {
    var q := i / width;
    assert i == width * q + i % width;
    if q >= height {
      TimesMonotone(height, q, width);
    }
  }

  lemma Unflatten(i: nat, size: nat)
    requires size > 0 && i < size * size
    ensures i / size < size && i % size < size && i / size * size + i % size == i
  {
    QuotientBelow(i, size, size);
  }

  // ----- the path -----

  function PrintRun(r: Run): string {
    "M" + (Decimal(r.x) + (" " + (Decimal(r.y) + ("h" + (Decimal(r.length) + ("v1h-" + (Decimal(r.length) + "z")))))))
  }

  function Parts(runs: seq<Run>): seq<string> {
    seq(|runs|, i requires 0 <= i < |runs| => PrintRun(runs[i]))
  }

  /** The path lists the maximal dark runs of the matrix, all of them, in reading order. */
  ghost predicate Draws(m: Matrix, path: string)
    requires Square(m)
  {
    exists runs :: RunsOf(m, runs) && path == Join(Parts(runs), "")
  }

  method QrPath(m: Matrix) returns (path: string)
    requires Square(m)
    ensures Draws(m, path)
  {
    var parts := [];
    ghost var runs: seq<Run> := [];
    for row := 0 to m.size
      invariant parts == Parts(runs) && RunsUpTo(m, runs, row, 0)
    {
      parts, runs := PathRow(m, row, parts, runs);
    }
    path := Join(parts, "");
    assert RunsOf(m, runs);
  }

  /** One row: counts dark modules and emits a rectangle when the count ends. */
  method PathRow(m: Matrix, row: nat, before: seq<string>, ghost earlier: seq<Run>)
    returns (parts: seq<string>, ghost runs: seq<Run>)
    requires Square(m) && row < m.size && before == Parts(earlier) && RunsUpTo(m, earlier, row, 0)
    ensures parts == Parts(runs) && RunsUpTo(m, runs, row + 1, 0)
  {
    parts, runs := before, earlier;
    var run := 0;
    for column := 0 to m.size + 1
      invariant 0 <= run <= column && (column == m.size + 1 ==> run == 0)
      invariant parts == Parts(runs) && RunsUpTo(m, runs, row, column - run)
      invariant forall c :: column - run <= c < column ==> Dark(m, row, c)
      invariant !Dark(m, row, column - run - 1)
    {
      if column < m.size { CellInRange(row, column, m.size); }
      var dark := column < m.size && m.modules[row * m.size + column];
      assert dark <==> Dark(m, row, column);
      if dark {
        run := run + 1;
        continue;
      }
      if run > 0 {
        var r := Run(column - run, row, run);
        AddRun(m, runs, r);
        parts := parts + [PrintRun(r)];
        runs := runs + [r];
        run := 0;
      }
      SkipLight(m, runs, row, column);
    }
    NextRow(m, runs, row);
  }

  lemma AddRun(m: Matrix, runs: seq<Run>, r: Run)
    requires Square(m) && RunsUpTo(m, runs, r.y, r.x) && MaximalRun(m, r)
    ensures RunsUpTo(m, runs + [r], r.y, r.x + r.length)
  {
    var longer := runs + [r];
    forall y, x | Dark(m, y, x) && Earlier(y, x, r.y, r.x + r.length) ensures CoveredBy(longer, y, x) {
      if Earlier(y, x, r.y, r.x) {
        var i :| 0 <= i < |runs| && Covers(runs[i], y, x);
        assert Covers(longer[i], y, x);
      } else {
        assert Covers(longer[|runs|], y, x);
      }
    }
  }

  lemma SkipLight(m: Matrix, runs: seq<Run>, row: int, column: int)
    requires Square(m) && RunsUpTo(m, runs, row, column) && !Dark(m, row, column)
    ensures RunsUpTo(m, runs, row, column + 1)
  {
  }

  lemma NextRow(m: Matrix, runs: seq<Run>, row: int)
    requires Square(m) && RunsUpTo(m, runs, row, m.size + 1)
    ensures RunsUpTo(m, runs, row + 1, 0)
  {
  }

  // ----- reading the path back -----

  lemma NumberCut(a: nat, b: nat, c: char, x: string, y: string)
    requires !IsDigit(c) && Decimal(a) + ([c] + x) == Decimal(b) + ([c] + y)
    ensures a == b && x == y
  {
    assert Decimal(a) + ([c] + x) == Decimal(a) + [c] + x && Decimal(b) + ([c] + y) == Decimal(b) + [c] + y;
    FirstCut(Decimal(a), Decimal(b), c, x, y);
    DecimalInjective(a, b);
  }

  lemma PrintThen(r: Run, x: string)
    ensures PrintRun(r) + x == "M" + (Decimal(r.x) + (" " + (Decimal(r.y) + ("h" + (Decimal(r.length) + ("v" + ("1h-"
      + (Decimal(r.length) + ("z" + x)))))))))
  {
  }

  lemma RunHead(r: Run, s: Run, x: string, y: string)
    requires PrintRun(r) + x == PrintRun(s) + y
    ensures r == s && x == y
  {
    var r3, s3 := Decimal(r.length) + ("z" + x), Decimal(s.length) + ("z" + y);
    var r2, s2 := Decimal(r.length) + ("v" + ("1h-" + r3)), Decimal(s.length) + ("v" + ("1h-" + s3));
    var r1, s1 := Decimal(r.y) + ("h" + r2), Decimal(s.y) + ("h" + s2);
    var r0, s0 := Decimal(r.x) + (" " + r1), Decimal(s.x) + (" " + s1);
    PrintThen(r, x);
    PrintThen(s, y);
    assert ("M" + r0)[1..] == r0 && ("M" + s0)[1..] == s0;
    NumberCut(r.x, s.x, ' ', r1, s1);
    NumberCut(r.y, s.y, 'h', r2, s2);
    NumberCut(r.length, s.length, 'v', "1h-" + r3, "1h-" + s3);
    assert ("1h-" + r3)[3..] == r3 && ("1h-" + s3)[3..] == s3;
    NumberCut(r.length, s.length, 'z', x, y);
  }

  lemma PartsOfRest(runs: seq<Run>)
    requires runs != []
    ensures Join(Parts(runs), "") == PrintRun(runs[0]) + Join(Parts(runs[1..]), "")
  {
    var parts := Parts(runs);
    assert parts[1..] == Parts(runs[1..]);
    JoinRest(parts);
  }

  lemma JoinRest(parts: seq<string>)
    requires parts != []
    ensures Join(parts, "") == parts[0] + Join(parts[1..], "")
  {
  }

  /** Different lists of rectangles print different paths. */
  lemma {:induction false} PathDeterminesRuns(a: seq<Run>, b: seq<Run>)
    requires Join(Parts(a), "") == Join(Parts(b), "")
    ensures a == b
    decreases |a|
  {
    if a != [] { PartsOfRest(a); }
    if b != [] { PartsOfRest(b); }
    if a != [] && b != [] {
      RunHead(a[0], b[0], Join(Parts(a[1..]), ""), Join(Parts(b[1..]), ""));
      PathDeterminesRuns(a[1..], b[1..]);
      assert a == [a[0]] + a[1..] && b == [b[0]] + b[1..];
    }
  }

  /** The path gives the matrix back: two matrices of one size with one path are equal. */
  lemma PathDeterminesMatrix(m: Matrix, n: Matrix, path: string)
    requires Square(m) && Square(n) && m.size == n.size && Draws(m, path) && Draws(n, path)
    ensures m == n
  {
    var runs :| RunsOf(m, runs) && path == Join(Parts(runs), "");
    var others :| RunsOf(n, others) && path == Join(Parts(others), "");
    PathDeterminesRuns(runs, others);
    RunsDetermineMatrix(m, n, runs);
  }

  // ----- drawing the path -----

  /** What a pen does that follows path data (section 8.3 of SVG 1.1): it starts a subpath at a
      point, draws a line to a point, or closes the subpath. */
  datatype Mark = Start(x: int, y: int) | Line(x: int, y: int) | Closed

  datatype Command = MoveTo(x: int, y: int) | Horizontal(dx: int) | Vertical(dy: int) | Close

  /** How many digits a text begins with. */
  function DigitCount(s: string): (n: nat)
    ensures n <= |s|
  {
    if s != "" && IsDigit(s[0]) then 1 + DigitCount(s[1..]) else 0
  }

  lemma {:induction false} DigitCountOf(s: string)
    ensures AllDigits(s[..DigitCount(s)])
  {
    if s != "" && IsDigit(s[0]) {
      DigitCountOf(s[1..]);
      assert s[..DigitCount(s)] == [s[0]] + s[1..][..DigitCount(s[1..])];
    }
  }

  /** A natural number at the front of a text, and what follows it. */
  function Digits(s: string): (r: Option<(nat, string)>)
    ensures r.Some? ==> |r.value.1| < |s|
  {
    var n := DigitCount(s);
    DigitCountOf(s);
    if n == 0 then None else Some((Value(s[..n]), s[n..]))
  }

  /** The same with an optional sign. */
  function Number(s: string): (r: Option<(int, string)>)
    ensures r.Some? ==> |r.value.1| < |s|
  {
    if s != "" && s[0] == '-' then
      var n := Digits(s[1..]);
      if n.None? then None else Some((0 - n.value.0, n.value.1))
    else
      var n := Digits(s);
      if n.None? then None else Some((n.value.0 as int, n.value.1))
  }

  /** The command at the front of path data: absolute moves and relative lines; nothing for any
      other text. */
  function Read(s: string): (r: Option<(Command, string)>)
    ensures r.Some? ==> |r.value.1| < |s|
  {
    if s == "" then None
    else if s[0] == 'z' then Some((Close, s[1..]))
    else
      var a := Number(s[1..]);
      if a.None? then None
      else if s[0] == 'h' then Some((Horizontal(a.value.0), a.value.1))
      else if s[0] == 'v' then Some((Vertical(a.value.0), a.value.1))
      else if s[0] == 'M' && a.value.1 != "" && a.value.1[0] == ' ' then
        var b := Number(a.value.1[1..]);
        if b.None? then None else Some((MoveTo(a.value.0, b.value.0), b.value.1))
      else None
  }

  /** Where a command takes a pen at (x, y), and the mark it leaves. */
  function Obey(c: Command, x: int, y: int): Mark {
    match c
    case MoveTo(a, b) => Start(a, b)
    case Horizontal(dx) => Line(x + dx, y)
    case Vertical(dy) => Line(x, y + dy)
    case Close => Closed
  }

  type Reader = string -> Option<(Command, string)>

  ghost predicate Shrinks(read: Reader) {
    forall s :: read(s).Some? ==> |read(s).value.1| < |s|
  }

  /** Obeys the commands a reader finds in a text, with a pen at (x, y). */
  ghost function Follow(read: Reader, s: string, x: int, y: int): Option<seq<Mark>>
    requires Shrinks(read)
    decreases |s|
  {
    if s == "" then Some([])
    else if read(s).None? then None
    else
      var mark, rest := Obey(read(s).value.0, x, y), read(s).value.1;
      Then(mark, if mark.Closed? then Follow(read, rest, x, y) else Follow(read, rest, mark.x, mark.y))
  }

  /** What path data draws. */
  ghost function Draw(s: string): Option<seq<Mark>> {
    Follow(Read, s, 0, 0)
  }

  function Then(mark: Mark, rest: Option<seq<Mark>>): Option<seq<Mark>> {
    if rest.None? then None else Some([mark] + rest.value)
  }

  /** The outline of a rectangle one module high. */
  function Outline(r: Run): seq<Mark> {
    [Start(r.x, r.y), Line(r.x + r.length, r.y), Line(r.x + r.length, r.y + 1), Line(r.x, r.y + 1), Closed]
  }

  function Outlines(runs: seq<Run>): seq<Mark> {
    if runs == [] then [] else Outline(runs[0]) + Outlines(runs[1..])
  }

  lemma {:induction false} DigitsThen(digits: string, x: string)
    requires AllDigits(digits) && (x == "" || !IsDigit(x[0]))
    ensures DigitCount(digits + x) == |digits|
  {
    if digits == "" {
      assert digits + x == x;
    } else {
      assert (digits + x)[1..] == digits[1..] + x;
      DigitsThen(digits[1..], x);
    }
  }

  lemma NumberThen(n: nat, x: string)
    requires x == "" || !IsDigit(x[0])
    ensures Number(Decimal(n) + x) == Some((n as int, x))
    ensures Number("-" + (Decimal(n) + x)) == Some((0 - n, x))
  {
    var digits := Decimal(n);
    DigitsThen(digits, x);
    ValueOfDecimal(n);
    assert IsDigit(digits[0]) && (digits + x)[0] == digits[0];
    assert (digits + x)[..|digits|] == digits && (digits + x)[|digits|..] == x;
    assert Digits(digits + x) == Some((n, x));
    assert ("-" + (digits + x))[1..] == digits + x;
  }

  lemma ReadLine(c: char, n: int, number: string, rest: string)
    requires (c == 'h' || c == 'v') && Number(number) == Some((n, rest))
    ensures Read([c] + number) == Some((if c == 'h' then Horizontal(n) else Vertical(n), rest))
  {
    assert ([c] + number)[1..] == number;
  }

  lemma ReadLines(n: nat, rest: string)
    requires rest != "" && !IsDigit(rest[0])
    ensures Read("h" + (Decimal(n) + rest)) == Some((Horizontal(n), rest))
    ensures Read("v" + (Decimal(n) + rest)) == Some((Vertical(n), rest))
    ensures Read("h" + ("-" + (Decimal(n) + rest))) == Some((Horizontal(0 - n), rest))
  {
    NumberThen(n, rest);
    ReadLine('h', n, Decimal(n) + rest, rest);
    ReadLine('v', n, Decimal(n) + rest, rest);
    ReadLine('h', 0 - n, "-" + (Decimal(n) + rest), rest);
    assert "h" == ['h'] && "v" == ['v'];
  }

  lemma ReadMove(x: nat, y: nat, rest: string)
    requires rest != "" && rest[0] == 'h'
    ensures Read("M" + (Decimal(x) + (" " + (Decimal(y) + rest)))) == Some((MoveTo(x, y), rest))
  {
    var second := " " + (Decimal(y) + rest);
    NumberThen(x, second);
    NumberThen(y, rest);
    assert ("M" + (Decimal(x) + second))[1..] == Decimal(x) + second;
    assert second[1..] == Decimal(y) + rest;
  }

  /** The text of a rectangle, cut before each of its last four commands. */
  function Cut4(rest: string): string { "z" + rest }
  function Cut3(r: Run, rest: string): string { "h" + ("-" + (Decimal(r.length) + Cut4(rest))) }
  function Cut2(r: Run, rest: string): string { "v" + (Decimal(1) + Cut3(r, rest)) }
  function Cut1(r: Run, rest: string): string { "h" + (Decimal(r.length) + Cut2(r, rest)) }

  lemma ReadFirst(r: Run, rest: string)
    ensures PrintRun(r) + rest != "" && Read(PrintRun(r) + rest) == Some((MoveTo(r.x, r.y), Cut1(r, rest)))
  {
    RunText(r, rest, Cut1(r, rest));
    ReadMove(r.x, r.y, Cut1(r, rest));
  }

  lemma ReadSecond(r: Run, rest: string)
    ensures Read(Cut1(r, rest)) == Some((Horizontal(r.length), Cut2(r, rest)))
  {
    ReadLines(r.length, Cut2(r, rest));
  }

  lemma ReadThird(r: Run, rest: string)
    ensures Read(Cut2(r, rest)) == Some((Vertical(1), Cut3(r, rest)))
  {
    ReadLines(1, Cut3(r, rest));
  }

  lemma ReadLast(r: Run, rest: string)
    ensures Read(Cut3(r, rest)) == Some((Horizontal(0 - r.length), Cut4(rest)))
    ensures Read(Cut4(rest)) == Some((Close, rest))
  {
    ReadLines(r.length, Cut4(rest));
    assert Cut4(rest)[1..] == rest;
  }

  lemma RunText(r: Run, rest: string, s1: string)
    requires s1 == "h" + (Decimal(r.length) + ("v" + (Decimal(1) + ("h" + ("-" + (Decimal(r.length) + ("z" + rest)))))))
    ensures PrintRun(r) + rest == "M" + (Decimal(r.x) + (" " + (Decimal(r.y) + s1)))
  {
    assert Decimal(1) == "1";
    var l := Decimal(r.length);
    var tail := l + ("z" + rest);
    assert "1" + ("h" + ("-" + tail)) == "1h-" + tail;
    PrintThen(r, rest);
  }

  lemma DrawRun(r: Run, rest: string, x: int, y: int)
    ensures var after := Follow(Read, rest, r.x, r.y + 1);
      Follow(Read, PrintRun(r) + rest, x, y) == if after.None? then None else Some(Outline(r) + after.value)
  {
    ReadFirst(r, rest);
    ReadSecond(r, rest);
    ReadThird(r, rest);
    ReadLast(r, rest);
    FollowFive(Read, r, rest, x, y, PrintRun(r) + rest, Cut1(r, rest), Cut2(r, rest), Cut3(r, rest), Cut4(rest));
    FiveMarks(r, Follow(Read, rest, r.x, r.y + 1));
  }

  lemma FollowOne(read: Reader, s: string, c: Command, rest: string, x: int, y: int)
    requires Shrinks(read) && read(s) == Some((c, rest))
    ensures var mark := Obey(c, x, y);
      Follow(read, s, x, y) == Then(mark, if mark.Closed? then Follow(read, rest, x, y)
                                          else Follow(read, rest, mark.x, mark.y))
  {
    assert s != "";
  }

  lemma FollowFive(read: Reader, r: Run, rest: string, x: int, y: int, s0: string, s1: string, s2: string, s3: string,
                   s4: string)
    requires Shrinks(read)
    requires read(s0) == Some((MoveTo(r.x, r.y), s1)) && read(s1) == Some((Horizontal(r.length), s2))
    requires read(s2) == Some((Vertical(1), s3)) && read(s3) == Some((Horizontal(0 - r.length), s4))
    requires read(s4) == Some((Close, rest))
    ensures Follow(read, s0, x, y)
         == Then(Start(r.x, r.y), Then(Line(r.x + r.length, r.y), Then(Line(r.x + r.length, r.y + 1),
              Then(Line(r.x, r.y + 1), Then(Closed, Follow(read, rest, r.x, r.y + 1))))))
  {
    FollowOne(read, s4, Close, rest, r.x, r.y + 1);
    FollowOne(read, s3, Horizontal(0 - r.length), s4, r.x + r.length, r.y + 1);
    FollowOne(read, s2, Vertical(1), s3, r.x + r.length, r.y);
    FollowOne(read, s1, Horizontal(r.length), s2, r.x, r.y);
    FollowOne(read, s0, MoveTo(r.x, r.y), s1, x, y);
  }

  lemma FiveMarks(r: Run, after: Option<seq<Mark>>)
    ensures Then(Start(r.x, r.y), Then(Line(r.x + r.length, r.y), Then(Line(r.x + r.length, r.y + 1),
              Then(Line(r.x, r.y + 1), Then(Closed, after)))))
         == if after.None? then None else Some(Outline(r) + after.value)
  {
    if after.Some? {
      var a, b, c, d := Start(r.x, r.y), Line(r.x + r.length, r.y), Line(r.x + r.length, r.y + 1), Line(r.x, r.y + 1);
      assert [a] + ([b] + ([c] + ([d] + ([Closed] + after.value)))) == Outline(r) + after.value;
    }
  }

  lemma {:induction false} DrawRuns(runs: seq<Run>, x: int, y: int)
    ensures Follow(Read, Join(Parts(runs), ""), x, y) == Some(Outlines(runs))
    decreases |runs|
  {
    if runs != [] {
      PartsOfRest(runs);
      DrawRuns(runs[1..], runs[0].x, runs[0].y + 1);
      DrawRun(runs[0], Join(Parts(runs[1..]), ""), x, y);
    }
  }

  /** Followed by a pen, the path of a matrix draws the outlines of its maximal dark runs. */
  lemma PathDrawsRuns(m: Matrix, path: string) returns (runs: seq<Run>)
    requires Square(m) && Draws(m, path)
    ensures RunsOf(m, runs) && Draw(path) == Some(Outlines(runs))
  {
    runs :| RunsOf(m, runs) && path == Join(Parts(runs), "");
    DrawRuns(runs, 0, 0);
  }

  // ----- pixels -----

  /** What one byte of a pixel has to be: opaque, black where the module is dark, else white. */
  ghost function PixelByte(m: Matrix, scale: nat, quietZone: nat, y: int, x: int, channel: int): int
    requires Square(m) && scale > 0
  {
    if channel < 3 && Dark(m, y / scale - quietZone, x / scale - quietZone) then 0 else 255
  }

  ghost predicate Painted(m: Matrix, scale: nat, quietZone: nat, width: nat, data: seq<int>, pixel: int)
    requires Square(m) && scale > 0 && width > 0
  {
    && 0 <= 4 * pixel <= |data| - 4
    && forall channel :: 0 <= channel < 4 ==>
         data[4 * pixel + channel] == PixelByte(m, scale, quietZone, pixel / width, pixel % width, channel)
  }

  /** The bytes are the picture of the matrix, row by row and four to a pixel. */
  ghost predicate Raster(m: Matrix, scale: nat, quietZone: nat, width: nat, data: seq<int>)
    requires Square(m)
  {
    && width == (m.size + quietZone * 2) * scale && |data| == width * width * 4
    && (scale > 0 && width > 0 ==>
          forall pixel :: 0 <= pixel < width * width ==> Painted(m, scale, quietZone, width, data, pixel))
  }

  lemma Flatten(y: nat, x: nat, width: nat)
    requires x < width
    ensures (y * width + x) / width == y && (y * width + x) % width == x
  {
    var p := y * width + x;
    var q, r := p / width, p % width;
    assert p == width * q + r;
    Between(q, y, r, x, width);
  }

  lemma Between(q: int, y: int, r: int, x: int, width: int)
    requires width * q + r == y * width + x && 0 <= r < width && 0 <= x < width
    ensures q == y && r == x
  {
    var d := q - y;
    assert width * d == x - r;
    assert d >= 1 ==> width * d >= width;
    assert d <= -1 ==> width * d <= -width;
  }

  method QrPixels(m: Matrix, scale: nat, quietZone: nat) returns (data: array<int>, width: nat)
    requires Square(m)
    ensures fresh(data) && Raster(m, scale, quietZone, width, data[..])
  {
    var modules := m.size + quietZone * 2;
    width := modules * scale;
    data := new int[width * width * 4];
    assert width > 0 ==> scale > 0;
    ghost var start := 0;
    for y := 0 to width
      invariant start == y * width
      invariant width > 0 ==> scale > 0
      invariant scale > 0 && width > 0 ==>
        forall pixel :: 0 <= pixel < start ==> Painted(m, scale, quietZone, width, data[..], pixel)
    {
      PixelRow(m, scale, quietZone, width, data, y);
      assert (y + 1) * width == y * width + width;
      start := start + width;
    }
  }

  method PixelRow(m: Matrix, scale: nat, quietZone: nat, width: nat, data: array<int>, y: nat)
    requires Square(m) && scale > 0 && y < width && data.Length == width * width * 4
    requires forall pixel :: 0 <= pixel < y * width ==> Painted(m, scale, quietZone, width, data[..], pixel)
    modifies data
    ensures forall pixel :: 0 <= pixel < y * width + width ==> Painted(m, scale, quietZone, width, data[..], pixel)
  {
    for x := 0 to width
      invariant forall pixel :: 0 <= pixel < y * width + x ==> Painted(m, scale, quietZone, width, data[..], pixel)
    {
      var row, column := y / scale - quietZone, x / scale - quietZone;
      var dark := Dark(m, row, column);
      CellInRange(y, x, width);
      Flatten(y, x, width);
      var offset := (y * width + x) * 4;
      var value := if dark then 0 else 255;
      Paint(m, scale, quietZone, width, data, y * width + x, offset, value);
    }
  }

  method Paint(m: Matrix, scale: nat, quietZone: nat, width: nat, data: array<int>, ghost pixel: nat, offset: nat,
               value: int)
    requires Square(m) && scale > 0 && width > 0
    requires offset == 4 * pixel && offset + 4 <= data.Length
    requires value == PixelByte(m, scale, quietZone, pixel / width, pixel % width, 0)
    requires forall p :: 0 <= p < pixel ==> Painted(m, scale, quietZone, width, data[..], p)
    modifies data
    ensures forall p :: 0 <= p < pixel + 1 ==> Painted(m, scale, quietZone, width, data[..], p)
  {
    ghost var before := data[..];
    data[offset] := value;
    data[offset + 1] := value;
    data[offset + 2] := value;
    data[offset + 3] := 255;
    ghost var after := data[..];
    forall p | 0 <= p < pixel ensures Painted(m, scale, quietZone, width, after, p) {
      StaysPainted(m, scale, quietZone, width, before, after, p);
    }
    IsPainted(m, scale, quietZone, width, after, pixel, value);
  }

  lemma StaysPainted(m: Matrix, scale: nat, quietZone: nat, width: nat, before: seq<int>, after: seq<int>, p: nat)
    requires Square(m) && scale > 0 && width > 0 && |before| == |after|
    requires Painted(m, scale, quietZone, width, before, p)
    requires forall i :: 4 * p <= i < 4 * p + 4 ==> after[i] == before[i]
    ensures Painted(m, scale, quietZone, width, after, p)
  {
  }

  lemma IsPainted(m: Matrix, scale: nat, quietZone: nat, width: nat, data: seq<int>, p: nat, value: int)
    requires Square(m) && scale > 0 && width > 0 && 4 * p + 4 <= |data|
    requires value == PixelByte(m, scale, quietZone, p / width, p % width, 0)
    requires data[4 * p] == data[4 * p + 1] == data[4 * p + 2] == value && data[4 * p + 3] == 255
    ensures Painted(m, scale, quietZone, width, data, p)
  {
  }

  // ----- what the picture shows -----

  /** The pixels of a module are a square block of side `scale`, shifted by the quiet zone. */
  lemma PixelOfModule(m: Matrix, scale: nat, quietZone: nat, row: nat, column: nat, dy: nat, dx: nat, channel: nat)
    requires Square(m) && row < m.size && column < m.size && dy < scale && dx < scale && channel < 3
    ensures
      var y, x := (row + quietZone) * scale + dy, (column + quietZone) * scale + dx;
      && PixelByte(m, scale, quietZone, y, x, channel) == (if Dark(m, row, column) then 0 else 255)
      && PixelByte(m, scale, quietZone, y, x, 3) == 255
  {
    Flatten(row + quietZone, dy, scale);
    Flatten(column + quietZone, dx, scale);
  }

  /** Outside the block of the modules the picture is white. */
  lemma QuietZoneIsWhite(m: Matrix, scale: nat, quietZone: nat, y: nat, x: nat, channel: nat)
    requires Square(m) && scale > 0
    requires
      || y < quietZone * scale || y >= (quietZone + m.size) * scale
      || x < quietZone * scale || x >= (quietZone + m.size) * scale
    ensures PixelByte(m, scale, quietZone, y, x, channel) == 255
  {
    Quotient(y, scale, quietZone);
    Quotient(y, scale, quietZone + m.size);
    Quotient(x, scale, quietZone);
    Quotient(x, scale, quietZone + m.size);
  }

  lemma Quotient(y: nat, scale: nat, bound: nat)
    requires scale > 0
    ensures y / scale < bound <==> y < bound * scale
  {
    var q := y / scale;
    assert y == scale * q + y % scale;
    if q < bound { TimesMonotone(q + 1, bound, scale); } else { TimesMonotone(bound, q, scale); }
  }

  /** The picture gives the matrix back: matrices of one size with the same bytes are equal. */
  lemma PixelsDetermineMatrix(m: Matrix, n: Matrix, scale: nat, quietZone: nat, width: nat, data: seq<int>)
    requires Square(m) && Square(n) && m.size == n.size && scale > 0
    requires Raster(m, scale, quietZone, width, data) && Raster(n, scale, quietZone, width, data)
    ensures m == n
  {
    forall i | 0 <= i < |m.modules| ensures m.modules[i] == n.modules[i] {
      var row, column := ModuleAt(m, i);
      OneModule(n, i, row, column);
      ModuleShown(m, scale, quietZone, width, data, row, column);
      ModuleShown(n, scale, quietZone, width, data, row, column);
    }
  }

  /** The first byte of a module's block tells whether the module is dark. */
  lemma ModuleShown(m: Matrix, scale: nat, quietZone: nat, width: nat, data: seq<int>, row: nat, column: nat)
    requires Square(m) && row < m.size && column < m.size && scale > 0
    requires Raster(m, scale, quietZone, width, data)
    ensures
      var pixel := (row + quietZone) * scale * width + (column + quietZone) * scale;
      0 <= 4 * pixel < |data| && (data[4 * pixel] == 0 <==> Dark(m, row, column))
  {
    var y, x := (row + quietZone) * scale, (column + quietZone) * scale;
    TimesMonotone(row + quietZone + 1, m.size + quietZone * 2, scale);
    TimesMonotone(column + quietZone + 1, m.size + quietZone * 2, scale);
    assert (row + quietZone + 1) * scale == y + scale && (column + quietZone + 1) * scale == x + scale;
    TimesMonotone(0, row + quietZone, scale);
    TimesMonotone(0, column + quietZone, scale);
    Shown(m, scale, quietZone, width, data, y, x);
    PixelOfModule(m, scale, quietZone, row, column, 0, 0, 0);
  }

  lemma Shown(m: Matrix, scale: nat, quietZone: nat, width: nat, data: seq<int>, y: nat, x: nat)
    requires Square(m) && scale > 0 && y < width && x < width
    requires Raster(m, scale, quietZone, width, data)
    ensures 0 <= 4 * (y * width + x) < |data|
    ensures data[4 * (y * width + x)] == PixelByte(m, scale, quietZone, y, x, 0)
  {
    CellInRange(y, x, width);
    Flatten(y, x, width);
    assert Painted(m, scale, quietZone, width, data, y * width + x);
  }
}
