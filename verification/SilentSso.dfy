// Signing in without a screen, and the guards that keep a refusal from being
// answered by another attempt (web/src/silentSso.ts, web/src/main.tsx).

module SilentSso {
  import opened Text
  import opened Wrappers

  const ATTEMPTED_KEY := "invenqor.sso.silentAttempted"
  const SIGNED_OUT_KEY := "invenqor.sso.signedOut"
  const NON_PAGE_PREFIXES := ["/api/", "/v1/", "/health", "/mcp", "/momento"]
  const START_URL := "/api/v1/auth/keycloak/start?prompt=none&return_to="
  const REFUSED_SEARCH := "?sso=none"

  // ----- addresses -----

  predicate IsHex(c: char) {
    '0' <= c <= '9' || 'a' <= c <= 'f' || 'A' <= c <= 'F'
  }

  function HexValue(c: char): (v: int)
    requires IsHex(c)
    ensures 0 <= v < 16
  {
    if c <= '9' then c as int - '0' as int
    else if c <= 'F' then c as int - 'A' as int + 10
    else c as int - 'a' as int + 10
  }

  /** Form decoding, byte by byte; a percent sign without two digits stands for itself. */
  function FormDecoded(s: string): string {
    if s == "" then ""
    else if s[0] == '+' then " " + FormDecoded(s[1..])
    else if s[0] == '%' && |s| > 2 && IsHex(s[1]) && IsHex(s[2]) then
      [(HexValue(s[1]) * 16 + HexValue(s[2])) as char] + FormDecoded(s[3..])
    else [s[0]] + FormDecoded(s[1..])
  }

  function ParameterName(piece: string): string {
    FormDecoded(Split(piece, '=')[0])
  }

  /** `URLSearchParams.has`: the pieces between ampersands, without the empty ones. */
  predicate HasParameter(search: string, name: string) {
    var query := if search != "" && search[0] == '?' then search[1..] else search;
    exists piece :: piece in Split(query, '&') && piece != "" && ParameterName(piece) == name
  }

  datatype Page = Page(autoLogin: bool, pathname: string, search: string)

  /** An address from which an attempt may start, if the storage allows it. */
  predicate OrdinaryPage(page: Page) {
    && page.autoLogin
    && !(exists i :: 0 <= i < |NON_PAGE_PREFIXES| && NON_PAGE_PREFIXES[i] <= page.pathname)
    && !HasParameter(page.search, "sso") && !HasParameter(page.search, "auth_error")
  }

  predicate SameOrigin(target: string) {
    "/" <= target && !("//" <= target) && '\\' !in target
  }

  /** Whatever was asked for, the browser comes back to this origin. */
  function SafeReturnTo(target: string): (r: string)
    ensures r != "" && r[0] == '/' && (|r| == 1 || r[1] != '/') && '\\' !in r
    ensures r == target || r == "/"
    ensures r == target <==>
      target != "" && target[0] == '/' && (|target| == 1 || target[1] != '/') && '\\' !in target
  {
    if SameOrigin(target) then target else "/"
  }

  // ----- the two flags -----

  type Values = map<string, string>

  /** `ok` is whether the browser let the storage be read. */
  function ReadFlag(values: Values, key: string, ok: bool): bool {
    ok ==> key in values && values[key] == "true"
  }

  function Written(values: Values, key: string, value: bool, ok: bool): Values {
    if !ok then values else if value then values[key := "true"] else values - {key}
  }

  /** One thing that happens in a tab, with what the storage let through. */
  datatype Action =
    | Visit(page: Page, readSignedOut: bool, readAttempted: bool, marked: bool)
    | SignOut(cleared: bool, markedSignedOut: bool, markedAttempted: bool)
    | Session(removedSignedOut: bool, removedAttempted: bool)
    | Wipe

  predicate Attempts(values: Values, a: Action)
    requires a.Visit?
  {
    && OrdinaryPage(a.page)
    && !ReadFlag(values, SIGNED_OUT_KEY, a.readSignedOut)
    && !ReadFlag(values, ATTEMPTED_KEY, a.readAttempted)
  }

  function Step(values: Values, a: Action): Values {
    match a
    case Visit(_, _, _, marked) =>
      if Attempts(values, a) then Written(values, ATTEMPTED_KEY, true, marked) else values
    case SignOut(cleared, first, second) =>
      if cleared then Written(Written(map[], SIGNED_OUT_KEY, true, first), ATTEMPTED_KEY, true, second) else values
    case Session(first, second) =>
      Written(Written(values, SIGNED_OUT_KEY, false, first), ATTEMPTED_KEY, false, second)
    case Wipe => map[]
  }

  /** The storage of a tab after everything that happened in it. */
  function Run(actions: seq<Action>): Values {
    if actions == [] then map[] else Step(Run(actions[..|actions| - 1]), actions[|actions| - 1])
  }

  class Tab {
    var values: Values
    ghost var history: seq<Action>

    ghost predicate Valid() reads this {
      values == Run(history)
    }

    constructor ()
      ensures Valid() && history == [] && values == map[]
    {
      values, history := map[], [];
    }

    method WriteFlag(key: string, value: bool, ok: bool)
      modifies this`values
      ensures values == Written(old(values), key, value, ok)
    {
      if ok {
        if value { values := values[key := "true"]; } else { values := values - {key}; }
      }
    }

    method ShouldAttempt(page: Page, readSignedOut: bool, readAttempted: bool) returns (go: bool)
      ensures forall marked :: go <==> Attempts(values, Visit(page, readSignedOut, readAttempted, marked))
    {
      if !page.autoLogin { return false; }
      if exists i :: 0 <= i < |NON_PAGE_PREFIXES| && NON_PAGE_PREFIXES[i] <= page.pathname { return false; }
      if HasParameter(page.search, "sso") || HasParameter(page.search, "auth_error") { return false; }
      if ReadFlag(values, SIGNED_OUT_KEY, readSignedOut) { return false; }
      if ReadFlag(values, ATTEMPTED_KEY, readAttempted) { return false; }
      return true;
    }

    method StartURL(returnTo: string, encode: string -> string, ok: bool) returns (url: string)
      modifies this`values
      ensures values == Written(old(values), ATTEMPTED_KEY, true, ok)
      ensures url == "/api/v1/auth/keycloak/start?prompt=none&return_to=" + encode(SafeReturnTo(returnTo))
    {
      WriteFlag(ATTEMPTED_KEY, true, ok);
      url := START_URL + encode(SafeReturnTo(returnTo));
    }

    /** A page that found no session decides whether to leave for the provider. */
    method Open(page: Page, returnTo: string, encode: string -> string, ghost a: Action, reads1: bool, reads2: bool,
                writes: bool)
      returns (url: Option<string>)
      requires Valid() && a == Visit(page, reads1, reads2, writes)
      modifies this
      ensures Valid() && history == old(history) + [a]
      ensures url == if !Attempts(old(values), a) then None
        else Some("/api/v1/auth/keycloak/start?prompt=none&return_to=" + encode(SafeReturnTo(returnTo)))
    {
      url := None;
      var go := ShouldAttempt(page, reads1, reads2);
      if go {
        var address := StartURL(returnTo, encode, writes);
        url := Some(address);
      }
      Record(a);
    }

    ghost method Record(a: Action)
      requires values == Step(Run(history), a)
      modifies this`history
      ensures Valid() && history == old(history) + [a]
    {
      assert (history + [a])[..|history|] == history;
      history := history + [a];
    }

    method MarkSignedOut(first: bool, second: bool)
      modifies this`values
      ensures values == Written(Written(old(values), SIGNED_OUT_KEY, true, first), ATTEMPTED_KEY, true, second)
    {
      WriteFlag(SIGNED_OUT_KEY, true, first);
      WriteFlag(ATTEMPTED_KEY, true, second);
    }

    method ClearSilentSsoState(first: bool, second: bool)
      requires Valid()
      modifies this
      ensures Valid() && history == old(history) + [Session(first, second)]
    {
      WriteFlag(SIGNED_OUT_KEY, false, first);
      WriteFlag(ATTEMPTED_KEY, false, second);
      Record(Session(first, second));
    }

    /** Clearing the storage comes first, and its failure ends the sign-out. */
    method Logout(cleared: bool, first: bool, second: bool)
      requires Valid()
      modifies this
      ensures Valid() && history == old(history) + [SignOut(cleared, first, second)]
    {
      if cleared {
        values := map[];
        MarkSignedOut(first, second);
      }
      Record(SignOut(cleared, first, second));
    }
  }

  // ----- which marks are there -----

  ghost predicate AttemptAt(actions: seq<Action>, i: int) {
    0 <= i < |actions| && actions[i].Visit? && Attempts(Run(actions[..i]), actions[i])
  }

  /** The action left this mark in the storage. */
  ghost predicate MarksAt(actions: seq<Action>, i: int, key: string)
    requires 0 <= i < |actions|
  {
    match actions[i]
    case Visit(_, _, _, marked) => AttemptAt(actions, i) && marked && key == ATTEMPTED_KEY
    case SignOut(cleared, first, second) =>
      cleared && ((first && key == SIGNED_OUT_KEY) || (second && key == ATTEMPTED_KEY))
    case Session(_, _) => false
    case Wipe => false
  }

  /** The action left the storage without this mark. */
  ghost predicate Unmarks(a: Action, key: string) {
    match a
    case Visit(_, _, _, _) => false
    case SignOut(cleared, first, second) =>
      cleared && (key == SIGNED_OUT_KEY ==> !first) && (key == ATTEMPTED_KEY ==> !second)
    case Session(first, second) => (key == SIGNED_OUT_KEY && first) || (key == ATTEMPTED_KEY && second)
    case Wipe => true
  }

  ghost predicate LiveSince(actions: seq<Action>, key: string, k: int, i: int) {
    && 0 <= k < i <= |actions| && MarksAt(actions, k, key)
    && forall l :: k < l < i ==> !Unmarks(actions[l], key)
  }

  /** Some action before `i` left the mark and none since took it away. */
  ghost predicate Live(actions: seq<Action>, key: string, i: int) {
    exists k :: LiveSince(actions, key, k, i)
  }

  lemma {:induction false} FlagIffLive(actions: seq<Action>, key: string, i: nat)
    requires i <= |actions| && key in [SIGNED_OUT_KEY, ATTEMPTED_KEY]
    ensures ReadFlag(Run(actions[..i]), key, true) <==> Live(actions, key, i)
  {
    if i > 0 {
      FlagIffLive(actions, key, i - 1);
      var before, a := Run(actions[..i - 1]), actions[i - 1];
      assert actions[..i][..i - 1] == actions[..i - 1];
      assert Run(actions[..i]) == Step(before, a);
      OneStep(before, a, key, MarksAt(actions, i - 1, key));
      if MarksAt(actions, i - 1, key) {
        assert LiveSince(actions, key, i - 1, i);
      } else if Live(actions, key, i) {
        var k :| LiveSince(actions, key, k, i);
        assert k < i - 1 && LiveSince(actions, key, k, i - 1);
      } else if Live(actions, key, i - 1) {
        var k :| LiveSince(actions, key, k, i - 1);
        assert Unmarks(a, key) || LiveSince(actions, key, k, i);
      }
    }
  }

  lemma OneStep(before: Values, a: Action, key: string, marks: bool)
    requires key in [SIGNED_OUT_KEY, ATTEMPTED_KEY]
    requires a.Visit? ==> (marks <==> Attempts(before, a) && a.marked && key == ATTEMPTED_KEY)
    requires a.SignOut? ==>
      (marks <==> a.cleared && (if key == SIGNED_OUT_KEY then a.markedSignedOut else a.markedAttempted))
    requires a.Session? || a.Wipe? ==> !marks
    ensures ReadFlag(Step(before, a), key, true) <==> marks || (ReadFlag(before, key, true) && !Unmarks(a, key))
  {
    KeysDiffer();
  }

  lemma KeysDiffer()
    ensures SIGNED_OUT_KEY != ATTEMPTED_KEY
  {
    assert |SIGNED_OUT_KEY| != |ATTEMPTED_KEY|;
  }

  // ----- every run -----

  /** The addresses from which no attempt could come back, one by one. */
  lemma OrdinaryPageMeans(page: Page)
    ensures OrdinaryPage(page) <==>
      && page.autoLogin
      && !("/api/" <= page.pathname) && !("/v1/" <= page.pathname) && !("/health" <= page.pathname)
      && !("/mcp" <= page.pathname) && !("/momento" <= page.pathname)
      && !HasParameter(page.search, "sso") && !HasParameter(page.search, "auth_error")
  {
    assert NON_PAGE_PREFIXES[0] == "/api/" && NON_PAGE_PREFIXES[1] == "/v1/" && NON_PAGE_PREFIXES[2] == "/health";
    assert NON_PAGE_PREFIXES[3] == "/mcp" && NON_PAGE_PREFIXES[4] == "/momento";
  }

  /** When a page attempts, for every run and every failure of the storage. */
  lemma AttemptsExactly(actions: seq<Action>, i: nat)
    requires i < |actions| && actions[i].Visit?
    ensures
      AttemptAt(actions, i) <==>
        && actions[i].page.autoLogin
        && !("/api/" <= actions[i].page.pathname) && !("/v1/" <= actions[i].page.pathname)
        && !("/health" <= actions[i].page.pathname) && !("/mcp" <= actions[i].page.pathname)
        && !("/momento" <= actions[i].page.pathname)
        && !HasParameter(actions[i].page.search, "sso") && !HasParameter(actions[i].page.search, "auth_error")
        && actions[i].readSignedOut && actions[i].readAttempted
        && !Live(actions, SIGNED_OUT_KEY, i) && !Live(actions, ATTEMPTED_KEY, i)
  {
    OrdinaryPageMeans(actions[i].page);
    FlagIffLive(actions, SIGNED_OUT_KEY, i);
    FlagIffLive(actions, ATTEMPTED_KEY, i);
  }

  /** Every access to the storage succeeded and nobody wiped it. */
  ghost predicate Working(a: Action) {
    match a
    case Visit(_, first, second, marked) => first && second && marked
    case SignOut(cleared, first, second) => cleared && first && second
    case Session(first, second) => first && second
    case Wipe => false
  }

  /** An attempt or a sign-out that no session has followed yet. */
  ghost predicate Pending(actions: seq<Action>, k: int, i: int) {
    && 0 <= k < i <= |actions| && (AttemptAt(actions, k) || actions[k].SignOut?)
    && forall l :: k < l < i ==> !actions[l].Session?
  }

  /** With working storage an ordinary page attempts exactly when a session followed the last
      attempt and the last sign-out. */
  lemma OneAttemptPerSession(actions: seq<Action>, i: nat)
    requires i < |actions| && actions[i].Visit? && forall l :: 0 <= l < |actions| ==> Working(actions[l])
    ensures AttemptAt(actions, i) <==> OrdinaryPage(actions[i].page) && !(exists k :: Pending(actions, k, i))
  {
    AttemptsExactly(actions, i);
    OrdinaryPageMeans(actions[i].page);
    assert Working(actions[i]);
    forall key, k | LiveSince(actions, key, k, i) && key in [SIGNED_OUT_KEY, ATTEMPTED_KEY]
      ensures Pending(actions, k, i)
    {
      forall l | k < l < i ensures !actions[l].Session? {
        assert Working(actions[l]) && !Unmarks(actions[l], key);
      }
    }
    forall k | Pending(actions, k, i) ensures LiveSince(actions, ATTEMPTED_KEY, k, i) {
      assert Working(actions[k]);
      forall l | k < l < i ensures !Unmarks(actions[l], ATTEMPTED_KEY) {
        assert Working(actions[l]);
      }
    }
  }

  /** Storage that cannot be read never starts an attempt, and neither does the address a refusal
      lands on, whatever was lost. */
  lemma NoAttempt(actions: seq<Action>, i: nat)
    requires i < |actions| && actions[i].Visit?
    requires !actions[i].readSignedOut || !actions[i].readAttempted || actions[i].page.search == REFUSED_SEARCH
    ensures !AttemptAt(actions, i)
  {
    RefusalNames();
  }

  lemma RefusalNames()
    ensures HasParameter(REFUSED_SEARCH, "sso")
  {
    ParametersOfQuery(["sso"], ["none"], "sso");
    assert "sso" + ['='] + "none" == "sso=none";
    assert Pieces(["sso"], ["none"]) == ["sso=none"];
    assert Join(["sso=none"], "&") == "sso=none";
  }

  /** Names and values as they may stand in an address without being encoded. */
  predicate Plain(name: string, value: string) {
    '&' !in name && '=' !in name && '+' !in name && '%' !in name && '&' !in value
  }

  function Pieces(names: seq<string>, values: seq<string>): (pieces: seq<string>)
    requires |names| == |values|
    ensures |pieces| == |names|
    ensures forall i :: 0 <= i < |names| ==> pieces[i] == names[i] + ['='] + values[i]
  {
    seq(|names|, i requires 0 <= i < |names| => names[i] + ['='] + values[i])
  }

  /** An address with parameters has exactly the parameters it was made of. */
  lemma ParametersOfQuery(names: seq<string>, values: seq<string>, name: string)
    requires |names| == |values| > 0 && forall i :: 0 <= i < |names| ==> Plain(names[i], values[i])
    ensures HasParameter("?" + Join(Pieces(names, values), "&"), name) <==> name in names
  {
    var pieces := Pieces(names, values);
    var query := Join(pieces, "&");
    assert ("?" + query)[1..] == query && "&" == ['&'];
    forall i | 0 <= i < |names|
      ensures '&' !in pieces[i] && pieces[i] != "" && ParameterName(pieces[i]) == names[i]
    {
      SplitHead(names[i], values[i], '=');
      Letters(names[i]);
    }
    forall p | p in pieces ensures '&' !in p {
      var i :| 0 <= i < |pieces| && pieces[i] == p;
    }
    SplitJoin(pieces, '&');
    if name in names {
      var i :| 0 <= i < |names| && names[i] == name;
      assert pieces[i] in Split(query, '&');
    }
  }

  /** Form encoding of any text of one-byte characters, every character as two digits. */
  function Encoded(s: string, upper: bool): string
    requires forall i :: 0 <= i < |s| ==> s[i] < 256 as char
  {
    if s == "" then "" else OneEncoded(s[0], upper) + Encoded(s[1..], upper)
  }

  function OneEncoded(c: char, upper: bool): string
    requires c < 256 as char
  {
    ['%', Digit(c as int / 16, upper), Digit(c as int % 16, upper)]
  }

  function Digit(n: nat, upper: bool): (c: char)
    requires n < 16
    ensures IsHex(c) && HexValue(c) == n
  {
    if upper then "0123456789ABCDEF"[n] else "0123456789abcdef"[n]
  }

  /** Form decoding undoes form encoding, with digits of either case. */
  lemma {:induction false} DecodesEncoded(s: string, upper: bool)
    requires forall i :: 0 <= i < |s| ==> s[i] < 256 as char
    ensures FormDecoded(Encoded(s, upper)) == s
  {
    if s != "" {
      DecodesEncoded(s[1..], upper);
      OneDecoded(s[0], upper, Encoded(s[1..], upper));
      assert s == [s[0]] + s[1..];
    }
  }

  lemma OneDecoded(c: char, upper: bool, rest: string)
    requires c < 256 as char
    ensures FormDecoded(OneEncoded(c, upper) + rest) == [c] + FormDecoded(rest)
  {
    var text := OneEncoded(c, upper) + rest;
    assert text[3..] == rest;
    assert HexValue(text[1]) * 16 + HexValue(text[2]) == c as int;
  }

  lemma {:induction false} Letters(s: string)
    requires '+' !in s && '%' !in s
    ensures FormDecoded(s) == s
  {
    if s != "" {
      Letters(s[1..]);
      assert [s[0]] + s[1..] == s;
    }
  }

  /** A mark that could not be written is lost: an ordinary page then attempts on each visit,
      without a session between. */
  lemma LostMarkTriesAgain()
    ensures
      var visit := Visit(Page(true, "/", ""), true, true, false);
      AttemptAt([visit, visit], 0) && AttemptAt([visit, visit], 1)
  {
    var visit := Visit(Page(true, "/", ""), true, true, false);
    var actions := [visit, visit];
    assert Split("", '&') == [""];
    assert actions[..0] == [] && actions[..1] == [visit] && [visit][..0] == [];
    assert OrdinaryPage(visit.page);
    assert Run([visit]) == map[];
  }
}
