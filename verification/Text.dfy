// Byte-wise string order, decimal printing and splitting: the text conventions that queue
// file names, timestamps, versions and signed messages all depend on.

module Text {

  /** The order in which Rust compares strings and paths, and in which names are sorted. */
  predicate LexLess(a: string, b: string) {
    b != [] && (a == [] || a[0] < b[0] || (a[0] == b[0] && LexLess(a[1..], b[1..])))
  }

  lemma {:induction false} LexTransitive(a: string, b: string, c: string)
    requires LexLess(a, b) && LexLess(b, c)
    ensures LexLess(a, c)
  {
    if a != [] && a[0] == b[0] && b[0] == c[0] {
      LexTransitive(a[1..], b[1..], c[1..]);
    }
  }

  lemma {:induction false} LexIrreflexive(a: string)
    ensures !LexLess(a, a)
  {
    if a != [] {
      LexIrreflexive(a[1..]);
    }
  }

  lemma {:induction false} LexTotal(a: string, b: string)
    ensures LexLess(a, b) || a == b || LexLess(b, a)
  {
    if a != [] && b != [] && a[0] == b[0] {
      LexTotal(a[1..], b[1..]);
      assert a == [a[0]] + a[1..] && b == [b[0]] + b[1..];
    }
  }

  lemma LexAsymmetric(a: string, b: string)
    requires LexLess(a, b)
    ensures !LexLess(b, a) && a != b
  {
    LexIrreflexive(a);
    if LexLess(b, a) {
      LexTransitive(a, b, a);
    }
  }

  /** A difference inside equally long prefixes decides the comparison. */
  lemma {:induction false} LexPrefixDecides(a: string, b: string, x: string, y: string)
    requires |a| == |b| && LexLess(a, b)
    ensures LexLess(a + x, b + y)
  {
    assert (a + x)[0] == a[0] && (b + y)[0] == b[0];
    assert (a + x)[1..] == a[1..] + x && (b + y)[1..] == b[1..] + y;
    if a[0] == b[0] {
      LexPrefixDecides(a[1..], b[1..], x, y);
    }
  }

  /** A common prefix is irrelevant. */
  lemma {:induction false} LexCommonPrefix(p: string, x: string, y: string)
    ensures LexLess(p + x, p + y) <==> LexLess(x, y)
  {
    if p == [] {
      assert p + x == x && p + y == y;
    } else {
      assert (p + x)[1..] == p[1..] + x && (p + y)[1..] == p[1..] + y;
      LexCommonPrefix(p[1..], x, y);
    }
  }

  // ----- sorted lists of names -----

  ghost predicate Ascending(names: seq<string>) {
    forall i, j :: 0 <= i < j < |names| ==> LexLess(names[i], names[j])
  }

  ghost predicate Lists(names: seq<string>, keys: set<string>) {
    && Ascending(names)
    && (forall k :: k in names <==> k in keys)
  }

  /** A set has at most one sorted listing, so sorted iteration is deterministic. */
  lemma {:induction false} ListingUnique(a: seq<string>, b: seq<string>, keys: set<string>)
    requires Lists(a, keys) && Lists(b, keys)
    ensures a == b
    decreases |a|
  {
    EmptyListing(a, keys);
    EmptyListing(b, keys);
    if a != [] {
      assert a[0] in b && b != [] && b[0] in a;
      var i :| 0 <= i < |b| && b[i] == a[0];
      var j :| 0 <= j < |a| && a[j] == b[0];
      if i > 0 && j > 0 {
        LexAsymmetric(a[0], a[j]);
        assert false;
      }
      AscendingDistinct(a);
      AscendingDistinct(b);
      assert a[0] == b[0];
      TailLists(a, keys);
      TailLists(b, keys);
      ListingUnique(a[1..], b[1..], keys - {a[0]});
      assert a == [a[0]] + a[1..] && b == [b[0]] + b[1..];
    }
  }

  lemma EmptyListing(a: seq<string>, keys: set<string>)
    requires Lists(a, keys)
    ensures a == [] <==> keys == {}
  {
    if a != [] {
      assert a[0] in a;
    }
    if keys != {} {
      var k :| k in keys;
      assert k in a;
    }
  }

  lemma AscendingDistinct(a: seq<string>)
    requires Ascending(a)
    ensures forall i, j :: 0 <= i < j < |a| ==> a[i] != a[j]
  {
    forall i, j | 0 <= i < j < |a| ensures a[i] != a[j] {
      LexAsymmetric(a[i], a[j]);
    }
  }

  lemma TailLists(a: seq<string>, keys: set<string>)
    requires Lists(a, keys) && a != []
    ensures Lists(a[1..], keys - {a[0]})
  {
    AscendingDistinct(a);
    forall k ensures k in a[1..] <==> k in keys - {a[0]} {
      if k in keys - {a[0]} {
        var i :| 0 <= i < |a| && a[i] == k;
        assert a[1..][i - 1] == k;
      }
    }
  }

  /** The sorted listing of a set of names. */
  ghost function SortedNames(keys: set<string>): seq<string> {
    if keys == {} then [] else var m := LeastName(keys); [m] + SortedNames(keys - {m})
  }

  lemma {:induction false} SortedNamesLists(keys: set<string>)
    ensures Lists(SortedNames(keys), keys)
  {
    if keys != {} {
      var m := LeastName(keys);
      SortedNamesLists(keys - {m});
      var rest := SortedNames(keys - {m});
      assert forall k :: k in [m] + rest <==> k == m || k in rest;
      assert forall i :: 0 <= i < |rest| ==> rest[i] in rest;
    }
  }

  ghost predicate IsLeast(m: string, keys: set<string>) {
    m in keys && forall k :: k in keys && k != m ==> LexLess(m, k)
  }

  ghost function LeastName(keys: set<string>): (m: string)
    requires keys != {}
    ensures IsLeast(m, keys)
  {
    LeastExists(keys);
    var m :| IsLeast(m, keys);
    m
  }

  lemma {:induction false} LeastExists(keys: set<string>)
    requires keys != {}
    ensures exists m :: IsLeast(m, keys)
  {
    var x :| x in keys;
    var others := keys - {x};
    if others == {} {
      assert keys == others + {x};
      assert IsLeast(x, keys);
    } else {
      LeastExists(others);
      var m :| IsLeast(m, others);
      assert forall k :: k in keys <==> k == x || k in others;
      LexTotal(m, x);
      if LexLess(m, x) {
        assert IsLeast(m, keys);
      } else {
        forall k | k in keys && k != x ensures LexLess(x, k) {
          if k != m { LexTransitive(x, m, k); }
        }
        assert IsLeast(x, keys);
      }
    }
  }

  /** A name beyond all others goes last. */
  lemma SortedNamesAppend(keys: set<string>, name: string)
    requires forall k :: k in keys ==> LexLess(k, name)
    ensures SortedNames(keys + {name}) == SortedNames(keys) + [name]
  {
    var names := SortedNames(keys);
    SortedNamesLists(keys);
    SortedNamesLists(keys + {name});
    assert forall i :: 0 <= i < |names| ==> names[i] in names;
    assert Lists(names + [name], keys + {name});
    ListingUnique(SortedNames(keys + {name}), names + [name], keys + {name});
  }

  /** Removing the first name removes the head of the listing. */
  lemma SortedNamesTail(keys: set<string>)
    requires keys != {}
    ensures SortedNames(keys) != [] && SortedNames(keys)[0] in keys
    ensures SortedNames(keys - {SortedNames(keys)[0]}) == SortedNames(keys)[1..]
  {
    var names := SortedNames(keys);
    SortedNamesLists(keys);
    SortedNamesLists(keys - {names[0]});
    assert names[0] in names;
    TailLists(names, keys);
    ListingUnique(SortedNames(keys - {names[0]}), names[1..], keys - {names[0]});
  }

  /** Sorting a set of names: what a BTreeMap iteration or `sort` on distinct names yields. */
  method SortNames(keys: set<string>) returns (names: seq<string>)
    ensures names == SortedNames(keys) && Lists(names, keys)
  {
    names := [];
    var rest := keys;
    while rest != {}
      invariant rest <= keys
      invariant Lists(names, keys - rest)
      decreases rest
    {
      var k :| k in rest;
      var i := 0;
      while i < |names| && LexLess(names[i], k)
        invariant 0 <= i <= |names|
        invariant forall j :: 0 <= j < i ==> LexLess(names[j], k)
      {
        i := i + 1;
      }
      InsertLists(names, keys - rest, k, i);
      assert keys - rest + {k} == keys - (rest - {k});
      names := names[..i] + [k] + names[i..];
      rest := rest - {k};
    }
    assert keys - rest == keys;
    SortedNamesLists(keys);
    ListingUnique(names, SortedNames(keys), keys);
  }

  lemma InsertName(names: seq<string>, k: string, i: nat)
    requires Ascending(names) && i <= |names|
    requires forall j :: 0 <= j < i ==> LexLess(names[j], k)
    requires i < |names| ==> LexLess(k, names[i])
    ensures Ascending(names[..i] + [k] + names[i..])
  {
    forall j | i <= j < |names| ensures LexLess(k, names[j]) {
      if j > i { LexTransitive(k, names[i], names[j]); }
    }
  }

  lemma InsertLists(names: seq<string>, keys: set<string>, k: string, i: nat)
    requires Lists(names, keys) && k !in keys && i <= |names|
    requires forall j :: 0 <= j < i ==> LexLess(names[j], k)
    requires i < |names| ==> !LexLess(names[i], k)
    ensures Lists(names[..i] + [k] + names[i..], keys + {k})
  {
    var result := names[..i] + [k] + names[i..];
    if i < |names| {
      assert names[i] in keys;
      LexTotal(k, names[i]);
    }
    InsertName(names, k, i);
    forall x ensures x in result <==> x in keys + {k} {
      if x in names {
        var j :| 0 <= j < |names| && names[j] == x;
        assert result[if j < i then j else j + 1] == x;
      }
      assert result[i] == k;
    }
  }

  // ----- decimal numbers -----

  function DigitChar(d: nat): char
    requires d < 10
  {
    ('0' as int + d) as char
  }

  predicate IsDigit(c: char) {
    '0' <= c <= '9'
  }

  predicate AllDigits(s: string) {
    forall i :: 0 <= i < |s| ==> IsDigit(s[i])
  }

  function DigitValue(c: char): nat
    requires IsDigit(c)
  {
    c as int - '0' as int
  }

  /** Base-ten printing without padding, as `{}` prints an unsigned integer. */
  function Decimal(n: nat): (s: string)
    ensures s != [] && AllDigits(s)
  {
    if n < 10 then [DigitChar(n)] else Decimal(n / 10) + [DigitChar(n % 10)]
  }

  function Value(s: string): nat
    requires AllDigits(s)
  {
    if s == [] then 0 else Value(s[..|s| - 1]) * 10 + DigitValue(s[|s| - 1])
  }

  function Pow10(w: nat): (p: nat)
    ensures p > 0
  {
    if w == 0 then 1 else 10 * Pow10(w - 1)
  }

  /** Zero padding on the left up to a minimum width, as `{:0w}` prints. */
  function ZeroPad(s: string, w: nat): string
    decreases w - |s|
  {
    if |s| >= w then s else ZeroPad("0" + s, w)
  }

  function Padded(n: nat, w: nat): string {
    ZeroPad(Decimal(n), w)
  }

  lemma {:induction false} ValueOfDecimal(n: nat)
    ensures Value(Decimal(n)) == n
  {
    if n >= 10 {
      ValueOfDecimal(n / 10);
      var s := Decimal(n);
      assert s[..|s| - 1] == Decimal(n / 10);
    }
  }

  lemma DecimalInjective(m: nat, n: nat)
    requires Decimal(m) == Decimal(n)
    ensures m == n
  {
    ValueOfDecimal(m);
    ValueOfDecimal(n);
  }

  /** Printing uses no more digits than the magnitude needs. */
  lemma {:induction false} DecimalWidth(n: nat, w: nat)
    requires n < Pow10(w) && w > 0
    ensures |Decimal(n)| <= w
  {
    if n >= 10 {
      DecimalWidth(n / 10, w - 1);
    }
  }

  lemma {:induction false} ValueLeadingZero(s: string)
    requires AllDigits(s)
    ensures AllDigits("0" + s) && Value("0" + s) == Value(s)
  {
    var t := "0" + s;
    if s != [] {
      assert t[..|t| - 1] == "0" + s[..|s| - 1];
      ValueLeadingZero(s[..|s| - 1]);
    }
  }

  lemma {:induction false} ZeroPadProperties(s: string, w: nat)
    requires AllDigits(s)
    ensures AllDigits(ZeroPad(s, w)) && Value(ZeroPad(s, w)) == Value(s)
    ensures |ZeroPad(s, w)| == if |s| >= w then |s| else w
    decreases w - |s|
  {
    if |s| < w {
      ValueLeadingZero(s);
      ZeroPadProperties("0" + s, w);
    }
  }

  lemma PaddedProperties(n: nat, w: nat)
    requires n < Pow10(w) && w > 0
    ensures AllDigits(Padded(n, w)) && |Padded(n, w)| == w && Value(Padded(n, w)) == n
  {
    ValueOfDecimal(n);
    DecimalWidth(n, w);
    ZeroPadProperties(Decimal(n), w);
  }

  lemma {:induction false} LexSnoc(a: string, b: string, x: char, y: char)
    requires |a| == |b|
    ensures LexLess(a + [x], b + [y]) <==> LexLess(a, b) || (a == b && x < y)
  {
    if a != [] {
      assert (a + [x])[1..] == a[1..] + [x] && (b + [y])[1..] == b[1..] + [y];
      LexSnoc(a[1..], b[1..], x, y);
      assert a == [a[0]] + a[1..] && b == [b[0]] + b[1..];
      if a[0] == b[0] { assert a == b <==> a[1..] == b[1..]; }
    }
  }

  /** On digit strings of one width, lexicographic and numeric order coincide. */
  lemma {:induction false} EqualWidthOrder(a: string, b: string)
    requires AllDigits(a) && AllDigits(b) && |a| == |b|
    ensures LexLess(a, b) <==> Value(a) < Value(b)
    ensures a == b <==> Value(a) == Value(b)
  {
    if a != [] {
      var a', b' := a[..|a| - 1], b[..|b| - 1];
      var x, y := a[|a| - 1], b[|b| - 1];
      assert a == a' + [x] && b == b' + [y];
      EqualWidthOrder(a', b');
      LexSnoc(a', b', x, y);
    }
  }

  lemma PaddedOrder(m: nat, n: nat, w: nat)
    requires m < Pow10(w) && n < Pow10(w) && w > 0
    ensures |Padded(m, w)| == |Padded(n, w)| == w
    ensures LexLess(Padded(m, w), Padded(n, w)) <==> m < n
  {
    PaddedProperties(m, w);
    PaddedProperties(n, w);
    EqualWidthOrder(Padded(m, w), Padded(n, w));
  }

  // ----- splitting and joining on one separator -----

  lemma Regroup<T>(a: seq<T>, b: seq<T>, c: seq<T>)
    ensures a + b + c == a + (b + c)
  {
  }

  function Join(parts: seq<string>, sep: string): string {
    if parts == [] then ""
    else if |parts| == 1 then parts[0]
    else parts[0] + sep + Join(parts[1..], sep)
  }

  /** `str::split` on one character: always at least one piece. */
  function Split(s: string, c: char): (parts: seq<string>)
    ensures parts != []
  {
    if s == [] then [""]
    else
      var rest := Split(s[1..], c);
      if s[0] == c then [""] + rest else [[s[0]] + rest[0]] + rest[1..]
  }

  lemma {:induction false} SplitHead(a: string, rest: string, c: char)
    requires c !in a
    ensures Split(a, c) == [a]
    ensures Split(a + [c] + rest, c) == [a] + Split(rest, c)
  {
    var s := a + [c] + rest;
    if a == [] {
      assert s == [c] + rest && s[1..] == rest;
    } else {
      assert s[1..] == a[1..] + [c] + rest;
      SplitHead(a[1..], rest, c);
      assert a == [a[0]] + a[1..];
    }
  }

  lemma {:induction false} SplitJoin(parts: seq<string>, c: char)
    requires parts != [] && forall p :: p in parts ==> c !in p
    ensures Split(Join(parts, [c]), c) == parts
  {
    assert parts == [parts[0]] + parts[1..];
    if |parts| == 1 {
      SplitHead(parts[0], "", c);
    } else {
      assert forall p :: p in parts[1..] ==> p in parts;
      SplitJoin(parts[1..], c);
      SplitHead(parts[0], Join(parts[1..], [c]), c);
    }
  }

  lemma JoinPrepend(head: string, parts: seq<string>, sep: string)
    requires parts != []
    ensures Join([head] + parts, sep) == head + sep + Join(parts, sep)
  {
    assert ([head] + parts)[1..] == parts;
  }

  lemma JoinExtendHead(c: char, parts: seq<string>, sep: string)
    requires parts != []
    ensures Join([[c] + parts[0]] + parts[1..], sep) == [c] + Join(parts, sep)
  {
    var longer := [[c] + parts[0]] + parts[1..];
    assert longer[1..] == parts[1..];
    if |parts| > 1 {
      assert [c] + parts[0] + sep + Join(parts[1..], sep) == [c] + (parts[0] + sep + Join(parts[1..], sep));
    }
  }

  lemma {:induction false} JoinSplit(s: string, c: char)
    ensures Join(Split(s, c), [c]) == s
    ensures forall p :: p in Split(s, c) ==> c !in p
  {
    if s != [] {
      JoinSplit(s[1..], c);
      var rest := Split(s[1..], c);
      assert s == [s[0]] + s[1..];
      if s[0] == c {
        JoinPrepend("", rest, [c]);
      } else {
        JoinExtendHead(s[0], rest, [c]);
        assert rest[0] in rest;
        assert forall p :: p in rest[1..] ==> p in rest;
      }
    }
  }

  /** The first separator decides where a field ends. */
  lemma {:induction false} FirstCut(a: string, b: string, c: char, x: string, y: string)
    requires c !in a && c !in b
    requires a + [c] + x == b + [c] + y
    ensures a == b && x == y
  {
    var s, t := a + [c] + x, b + [c] + y;
    assert s[0] == if a == [] then c else a[0];
    assert t[0] == if b == [] then c else b[0];
    if a == [] || b == [] {
      assert x == s[1 + |a|..] && y == t[1 + |b|..];
    } else {
      assert s[0] == a[0] && t[0] == b[0];
      assert s[1..] == a[1..] + [c] + x && t[1..] == b[1..] + [c] + y;
      FirstCut(a[1..], b[1..], c, x, y);
      assert a == [a[0]] + a[1..] && b == [b[0]] + b[1..];
    }
  }
}
