// Release identity: canonical versions and their order, the signed manifest message, and the
// checks an offered release has to pass (src/updater.rs,
// scripts/sign-agent-update-manifest-v2.py).

module Release {
  import opened Machine
  import opened Wrappers
  import opened Text

  // ----- versions -----

  datatype Version = Version(major: nat, minor: nat, patch: nat)

  predicate InRange(v: Version) {
    v.major <= U64_MAX && v.minor <= U64_MAX && v.patch <= U64_MAX
  }

  function Print(v: Version): string {
    Join([Decimal(v.major), Decimal(v.minor), Decimal(v.patch)], ".")
  }

  predicate IsNumber(piece: string) {
    piece != [] && AllDigits(piece)
  }

  /** `parse_version`: three runs of ASCII digits, each a u64, printing back to the same text. */
  function ParseVersion(value: string): Option<Version> {
    var pieces := Split(value, '.');
    if |pieces| != 3 || !IsNumber(pieces[0]) || !IsNumber(pieces[1]) || !IsNumber(pieces[2]) then None
    else
      var v := Version(Value(pieces[0]), Value(pieces[1]), Value(pieces[2]));
      if InRange(v) && value == Print(v) then Some(v) else None
  }

  lemma DigitsHaveNoDot(s: string)
    requires AllDigits(s)
    ensures '.' !in s && '\n' !in s && '\r' !in s
  {
  }

  lemma SplitPrint(v: Version)
    ensures Split(Print(v), '.') == [Decimal(v.major), Decimal(v.minor), Decimal(v.patch)]
  {
    var parts := [Decimal(v.major), Decimal(v.minor), Decimal(v.patch)];
    DigitsHaveNoDot(parts[0]);
    DigitsHaveNoDot(parts[1]);
    DigitsHaveNoDot(parts[2]);
    SplitJoin(parts, '.');
  }

  /** Accepted are exactly the canonical prints of three u64 numbers. */
  lemma ParseVersionExact(value: string, v: Version)
    ensures ParseVersion(value) == Some(v) <==> InRange(v) && value == Print(v)
  {
    SplitPrint(v);
    ValueOfDecimal(v.major);
    ValueOfDecimal(v.minor);
    ValueOfDecimal(v.patch);
  }

  /** A number as the signer's pattern writes it: no leading zero. */
  predicate CanonicalNumber(piece: string) {
    IsNumber(piece) && (|piece| > 1 ==> piece[0] != '0')
  }

  predicate SignerAccepts(value: string) {
    var pieces := Split(value, '.');
    |pieces| == 3 && CanonicalNumber(pieces[0]) && CanonicalNumber(pieces[1]) && CanonicalNumber(pieces[2])
  }

  lemma {:induction false} DecimalIsCanonical(n: nat)
    ensures CanonicalNumber(Decimal(n)) && (n > 0 ==> Decimal(n)[0] != '0')
  {
    if n >= 10 {
      DecimalIsCanonical(n / 10);
    }
  }

  lemma {:induction false} CanonicalIsDecimal(piece: string)
    requires CanonicalNumber(piece)
    ensures piece == Decimal(Value(piece))
    decreases |piece|
  {
    var front, last := piece[..|piece| - 1], piece[|piece| - 1];
    assert piece == front + [last];
    if front == [] {
      assert Value(front) == 0;
    } else {
      CanonicalIsDecimal(front);
      CanonicalPositive(front);
      assert Value(piece) / 10 == Value(front) && Value(piece) % 10 == DigitValue(last);
    }
  }

  lemma {:induction false} CanonicalPositive(front: string)
    requires IsNumber(front) && front[0] != '0'
    ensures Value(front) > 0
  {
    if |front| > 1 {
      CanonicalPositive(front[..|front| - 1]);
    }
  }

  ghost predicate FitsU64(value: string) {
    forall p :: p in Split(value, '.') ==> AllDigits(p) && Value(p) <= U64_MAX
  }

  lemma AgentImpliesSigner(v: Version)
    requires InRange(v)
    ensures SignerAccepts(Print(v)) && FitsU64(Print(v))
  {
    SplitPrint(v);
    DecimalIsCanonical(v.major);
    DecimalIsCanonical(v.minor);
    DecimalIsCanonical(v.patch);
    ValueOfDecimal(v.major);
    ValueOfDecimal(v.minor);
    ValueOfDecimal(v.patch);
  }

  lemma SignerImpliesAgent(value: string)
    requires SignerAccepts(value) && FitsU64(value)
    ensures ParseVersion(value).Some?
  {
    var pieces := Split(value, '.');
    CanonicalIsDecimal(pieces[0]);
    CanonicalIsDecimal(pieces[1]);
    CanonicalIsDecimal(pieces[2]);
    assert pieces == [pieces[0], pieces[1], pieces[2]];
    JoinSplit(value, '.');
    assert "." == ['.'];
    var v := Version(Value(pieces[0]), Value(pieces[1]), Value(pieces[2]));
    assert pieces[0] in pieces && pieces[1] in pieces && pieces[2] in pieces;
    assert value == Print(v);
    ParseVersionExact(value, v);
  }

  /** Such texts exist: the signer accepts one more than the greatest 64-bit number. */
  lemma SignerGoesBeyondAgent()
    ensures var text := Print(Version(U64_MAX + 1, 0, 0)); SignerAccepts(text) && ParseVersion(text).None?
  {
    var v := Version(U64_MAX + 1, 0, 0);
    SplitPrint(v);
    DecimalIsCanonical(v.major);
    DecimalIsCanonical(0);
    ValueOfDecimal(v.major);
  }

  /** The agent accepts what the signer accepts, except numbers beyond 64 bits. */
  lemma SignerAndAgentAgree(value: string)
    ensures ParseVersion(value).Some? <==> SignerAccepts(value) && FitsU64(value)
  {
    if ParseVersion(value).Some? {
      ParseVersionExact(value, ParseVersion(value).value);
      AgentImpliesSigner(ParseVersion(value).value);
    }
    if SignerAccepts(value) && FitsU64(value) {
      SignerImpliesAgent(value);
    }
  }

  // ----- order -----

  predicate Less(v: Version, w: Version) {
    v.major < w.major
    || (v.major == w.major && (v.minor < w.minor || (v.minor == w.minor && v.patch < w.patch)))
  }

  /** The next version in order; past the last patch of 64 bits the minor number moves, then the major. */
  function Successor(v: Version): Version {
    if v.patch < U64_MAX then Version(v.major, v.minor, v.patch + 1)
    else if v.minor < U64_MAX then Version(v.major, v.minor + 1, 0)
    else Version(v.major + 1, 0, 0)
  }

  /** Nothing lies between a version and its successor. */
  lemma SuccessorIsNext(v: Version, w: Version)
    requires InRange(v) && InRange(w) && Less(v, w)
    ensures InRange(Successor(v)) && Less(v, Successor(v)) && (w == Successor(v) || Less(Successor(v), w))
  {
  }

  predicate IsNewer(current: string, candidate: string) {
    ParseVersion(current).Some? && ParseVersion(candidate).Some?
    && Less(ParseVersion(current).value, ParseVersion(candidate).value)
  }

  /** On accepted version texts, being newer is a strict total order. */
  lemma NewerIsStrictOrder(a: string, b: string, c: string)
    ensures !IsNewer(a, a)
    ensures IsNewer(a, b) && IsNewer(b, c) ==> IsNewer(a, c)
    ensures ParseVersion(a).Some? && ParseVersion(b).Some? ==> IsNewer(a, b) || a == b || IsNewer(b, a)
  {
    if ParseVersion(a).Some? && ParseVersion(b).Some? {
      ParseVersionExact(a, ParseVersion(a).value);
      ParseVersionExact(b, ParseVersion(b).value);
    }
  }

  // ----- manifests -----

  datatype Manifest = Manifest(
    version: string, channel: string, os: string, architecture: string, sha256: string,
    signature: string, manifestSignature: string, signatureScheme: string, signatureVersion: nat,
    downloadUrl: string, size: nat, allowDowngrade: bool)

  const ED25519: string := "ed25519"
  const LEGACY: nat := 1
  const V2: nat := 2
  const DOMAIN: string := "INVENQOR-AGENT-UPDATE-MANIFEST-V2"
  const MAX_ARTIFACT_BYTES: nat := 128 * 1024 * 1024

  predicate LowerHexDigit(c: char) {
    '0' <= c <= '9' || 'a' <= c <= 'f'
  }

  predicate LowerHex64(s: string) {
    |s| == 64 && forall i :: 0 <= i < |s| ==> LowerHexDigit(s[i])
  }

  predicate OneLine(s: string) {
    s != [] && '\r' !in s && '\n' !in s
  }

  function Flag(b: bool): string {
    if b then "true" else "false"
  }

  /** What `signature_message_v2` demands before it builds the message. */
  predicate Signable(m: Manifest) {
    && m.signatureScheme == ED25519 && m.signatureVersion == V2
    && m.size > 0 && LowerHex64(m.sha256)
    && OneLine(m.version) && OneLine(m.channel) && OneLine(m.os) && OneLine(m.architecture)
  }

  /** The message the agent verifies. */
  function SignatureMessage(m: Manifest): Option<string> {
    if !Signable(m) then None
    else Some(DOMAIN + "\nversion=" + m.version + "\nchannel=" + m.channel + "\nos=" + m.os
              + "\narchitecture=" + m.architecture + "\nsize=" + Decimal(m.size) + "\nsha256=" + m.sha256
              + "\nallow_downgrade=" + Flag(m.allowDowngrade) + "\n")
  }

  function SignedLines(m: Manifest): seq<string> {
    ["INVENQOR-AGENT-UPDATE-MANIFEST-V2", "version=" + m.version, "channel=" + m.channel, "os=" + m.os,
     "architecture=" + m.architecture, "size=" + Decimal(m.size), "sha256=" + m.sha256,
     "allow_downgrade=" + if m.allowDowngrade then "true" else "false"]
  }

  /** The message the offline signer signs. */
  function CanonicalMessage(m: Manifest): string {
    Join(SignedLines(m), "\n") + "\n"
  }

  lemma {:induction false} JoinSnoc(parts: seq<string>, x: string, sep: string)
    requires parts != []
    ensures Join(parts + [x], sep) == Join(parts, sep) + sep + x
  {
    var all := parts + [x];
    assert all[1..] == parts[1..] + [x];
    if |parts| == 1 {
      assert parts[1..] + [x] == [x];
    } else {
      JoinSnoc(parts[1..], x, sep);
      assert Join(all, sep) == parts[0] + sep + (Join(parts[1..], sep) + sep + x);
    }
  }

  lemma FiveJoined(head: string, a: string, b: string, c: string, d: string)
    ensures Join([head, a, b, c, d], "\n") == head + "\n" + a + "\n" + b + "\n" + c + "\n" + d
  {
    JoinSnoc([head], a, "\n");
    JoinSnoc([head] + [a], b, "\n");
    JoinSnoc([head] + [a] + [b], c, "\n");
    JoinSnoc([head] + [a] + [b] + [c], d, "\n");
    assert [head] + [a] + [b] + [c] + [d] == [head, a, b, c, d];
  }

  lemma EightJoined(head: string, a: string, b: string, c: string, d: string, e: string, f: string, g: string)
    ensures Join([head, a, b, c, d, e, f, g], "\n")
         == head + "\n" + a + "\n" + b + "\n" + c + "\n" + d + "\n" + e + "\n" + f + "\n" + g
  {
    var five := [head, a, b, c, d];
    FiveJoined(head, a, b, c, d);
    JoinSnoc(five, e, "\n");
    JoinSnoc(five + [e], f, "\n");
    JoinSnoc(five + [e] + [f], g, "\n");
    assert five + [e] + [f] + [g] == [head, a, b, c, d, e, f, g];
  }

  /** One line, as the format string and as the joined list write it. */
  lemma Lead(text: string, lead: string, key: string, value: string)
    requires lead == "\n" + key
    ensures text + lead + value == text + "\n" + (key + value)
  {
  }

  /** What the agent verifies is, character for character, what the signer signs. */
  lemma AgentVerifiesWhatSignerSigns(m: Manifest)
    ensures SignatureMessage(m) == if Signable(m) then Some(CanonicalMessage(m)) else None
  {
    var t1 := DOMAIN;
    Lead(t1, "\nversion=", "version=", m.version);
    var t2 := t1 + "\nversion=" + m.version;
    Lead(t2, "\nchannel=", "channel=", m.channel);
    var t3 := t2 + "\nchannel=" + m.channel;
    Lead(t3, "\nos=", "os=", m.os);
    var t4 := t3 + "\nos=" + m.os;
    Lead(t4, "\narchitecture=", "architecture=", m.architecture);
    var t5 := t4 + "\narchitecture=" + m.architecture;
    Lead(t5, "\nsize=", "size=", Decimal(m.size));
    var t6 := t5 + "\nsize=" + Decimal(m.size);
    Lead(t6, "\nsha256=", "sha256=", m.sha256);
    Lead(t6 + "\nsha256=" + m.sha256, "\nallow_downgrade=", "allow_downgrade=", Flag(m.allowDowngrade));
    EightJoined(DOMAIN, "version=" + m.version, "channel=" + m.channel, "os=" + m.os, "architecture=" + m.architecture,
                "size=" + Decimal(m.size), "sha256=" + m.sha256, "allow_downgrade=" + Flag(m.allowDowngrade));
  }

  lemma OneLinePair(key: string, value: string)
    requires '\n' !in key && '\n' !in value
    ensures '\n' !in key + value
  {
  }

  lemma EightLines(lines: seq<string>)
    requires |lines| == 8
    requires '\n' !in lines[0] && '\n' !in lines[1] && '\n' !in lines[2] && '\n' !in lines[3]
    requires '\n' !in lines[4] && '\n' !in lines[5] && '\n' !in lines[6] && '\n' !in lines[7]
    ensures forall p :: p in lines + [""] ==> '\n' !in p
  {
  }

  lemma HexHasNoBreak(s: string)
    requires LowerHex64(s)
    ensures '\n' !in s
  {
  }

  lemma LinesHaveNoBreak(m: Manifest)
    requires Signable(m)
    ensures forall p :: p in SignedLines(m) + [""] ==> '\n' !in p
  {
    DigitsHaveNoDot(Decimal(m.size));
    HexHasNoBreak(m.sha256);
    OneLinePair("version=", m.version);
    OneLinePair("channel=", m.channel);
    OneLinePair("os=", m.os);
    OneLinePair("architecture=", m.architecture);
    OneLinePair("size=", Decimal(m.size));
    OneLinePair("sha256=", m.sha256);
    OneLinePair("allow_downgrade=", Flag(m.allowDowngrade));
    EightLines(SignedLines(m));
  }

  /** Lines that end in a line feed are read back, with an empty piece after the last. */
  lemma SplitEndedLines(lines: seq<string>)
    requires lines != [] && forall p :: p in lines + [""] ==> '\n' !in p
    ensures Split(Join(lines, "\n") + "\n", '\n') == lines + [""]
  {
    JoinSnoc(lines, "", "\n");
    assert Join(lines, "\n") + "\n" + "" == Join(lines, "\n") + "\n";
    assert "\n" == ['\n'];
    SplitJoin(lines + [""], '\n');
  }

  lemma LinesOfMessage(m: Manifest)
    requires Signable(m)
    ensures Split(CanonicalMessage(m), '\n') == SignedLines(m) + [""]
  {
    LinesHaveNoBreak(m);
    SplitEndedLines(SignedLines(m));
  }

  lemma SamePrefix(key: string, x: string, y: string)
    requires key + x == key + y
    ensures x == y
  {
    assert (key + x)[|key|..] == x && (key + y)[|key|..] == y;
  }

  /** Everything the signature is meant to protect. */
  predicate SameRelease(m: Manifest, n: Manifest) {
    && m.version == n.version && m.channel == n.channel && m.os == n.os && m.architecture == n.architecture
    && m.size == n.size && m.sha256 == n.sha256 && m.allowDowngrade == n.allowDowngrade
  }

  /** Two manifests have the same signed message exactly when they agree on every protected field. */
  lemma MessageInjective(m: Manifest, n: Manifest)
    requires SignatureMessage(m).Some? && SignatureMessage(n).Some?
    ensures SignatureMessage(m) == SignatureMessage(n) <==> SameRelease(m, n)
  {
    if SignatureMessage(m) == SignatureMessage(n) {
      AgentVerifiesWhatSignerSigns(m);
      AgentVerifiesWhatSignerSigns(n);
      LinesOfMessage(m);
      LinesOfMessage(n);
      SameLines(m, n);
    }
  }

  lemma SameLines(m: Manifest, n: Manifest)
    requires SignedLines(m) + [""] == SignedLines(n) + [""]
    ensures SameRelease(m, n)
  {
    var k, l := SignedLines(m), SignedLines(n);
    assert k == (k + [""])[..8] && l == (l + [""])[..8];
    SamePrefix("version=", m.version, n.version);
    SamePrefix("channel=", m.channel, n.channel);
    SamePrefix("os=", m.os, n.os);
    SamePrefix("architecture=", m.architecture, n.architecture);
    SamePrefix("size=", Decimal(m.size), Decimal(n.size));
    DecimalInjective(m.size, n.size);
    SamePrefix("sha256=", m.sha256, n.sha256);
    SamePrefix("allow_downgrade=", Flag(m.allowDowngrade), Flag(n.allowDowngrade));
    assert Flag(true)[0] != Flag(false)[0];
  }

  // ----- the checks on an offered release -----

  /** `validate_manifest_offer`, for the running version `current`. */
  predicate ValidOffer(m: Manifest, channel: string, current: string, os: string, architecture: string) {
    && ParseVersion(m.version).Some?
    && m.signatureScheme == ED25519
    && (m.signatureVersion == LEGACY || m.signatureVersion == V2)
    && !(m.allowDowngrade && m.signatureVersion == LEGACY)
    && (IsNewer(current, m.version) || (m.allowDowngrade && m.version != current))
    && m.channel == channel && m.os == os && m.architecture == architecture
    && m.downloadUrl == "/v1/agent/updates/" + m.version + "-" + m.os + "-" + m.architecture + "/artifact"
    && 0 < m.size <= MAX_ARTIFACT_BYTES
  }

  /** Digest and signatures are arbitrary functions; a key or signature that does not decode
      verifies nothing. */
  datatype Crypto = Crypto(
    sha256: Bytes -> string,
    verifiesBytes: (string, Bytes, string) -> bool,
    verifiesText: (string, string, string) -> bool)

  function LowerCase(c: char): char {
    if 'A' <= c <= 'Z' then (c as int + 32) as char else c
  }

  function ToLower(s: string): string {
    if s == [] then [] else [LowerCase(s[0])] + ToLower(s[1..])
  }

  lemma {:induction false} ToLowerAt(s: string, i: nat)
    requires i < |s|
    ensures |ToLower(s)| == |s|
    ensures ToLower(s)[i] == if s[i] in "ABCDEFGHIJKLMNOPQRSTUVWXYZ" then (s[i] as int + 32) as char else s[i]
  {
    if |s| > 1 {
      ToLowerAt(s[1..], if i > 0 then i - 1 else 0);
    }
  }

  /** `verify_artifact`. */
  predicate VerifiedArtifact(crypto: Crypto, key: string, bytes: Bytes, m: Manifest) {
    && |bytes| == m.size
    && crypto.sha256(bytes) == ToLower(m.sha256)
    && m.signatureScheme == ED25519
    && if m.signatureVersion == LEGACY then !m.allowDowngrade && crypto.verifiesBytes(key, bytes, m.signature)
       else if m.signatureVersion == V2 then
         && crypto.verifiesBytes(key, bytes, m.signature)
         && SignatureMessage(m).Some?
         && crypto.verifiesText(key, SignatureMessage(m).value, m.manifestSignature)
       else false
  }

  /** An authorized rollback: the downgrade flag itself is under a v2 signature of the pinned key. */
  predicate AuthorizedRollback(crypto: Crypto, key: string, m: Manifest) {
    && m.allowDowngrade && m.signatureVersion == V2 && SignatureMessage(m).Some?
    && crypto.verifiesText(key, SignatureMessage(m).value, m.manifestSignature)
  }

  /** An offer that passes both checks is newer than the running version or an authorized rollback. */
  lemma AcceptedOfferIsNewer(crypto: Crypto, key: string, bytes: Bytes, m: Manifest,
                             channel: string, current: string, os: string, architecture: string)
    requires ValidOffer(m, channel, current, os, architecture) && VerifiedArtifact(crypto, key, bytes, m)
    ensures IsNewer(current, m.version) || AuthorizedRollback(crypto, key, m)
    ensures m.version != current
    ensures m.channel == channel && m.os == os && m.architecture == architecture
    ensures m.downloadUrl == "/v1/agent/updates/" + m.version + "-" + m.os + "-" + m.architecture + "/artifact"
    ensures 0 < |bytes| == m.size <= 134_217_728
  {
    NewerIsStrictOrder(current, current, current);
  }

  /** Whatever is verified has the digest of its manifest and a signature of the key over its
      bytes; a manifest that allows a downgrade, or is of version 2, is itself signed. */
  lemma OnlySignedIsVerified(crypto: Crypto, key: string, bytes: Bytes, m: Manifest)
    requires VerifiedArtifact(crypto, key, bytes, m)
    ensures |bytes| == m.size && crypto.sha256(bytes) == ToLower(m.sha256) && m.signatureScheme == "ed25519"
    ensures crypto.verifiesBytes(key, bytes, m.signature)
    ensures m.signatureVersion == 1 || m.signatureVersion == 2
    ensures m.signatureVersion == 2 || m.allowDowngrade ==>
      crypto.verifiesText(key, CanonicalMessage(m), m.manifestSignature)
  {
    AgentVerifiesWhatSignerSigns(m);
  }

  // ----- from the offline signer to the agent -----

  /** The two operations of the private key. */
  datatype Signer = Signer(signBytes: Bytes -> string, signText: string -> string)

  ghost predicate KeyMatches(crypto: Crypto, key: string, signer: Signer) {
    && (forall bytes :: crypto.verifiesBytes(key, bytes, signer.signBytes(bytes)))
    && (forall text :: crypto.verifiesText(key, text, signer.signText(text)))
    && (forall bytes :: |crypto.sha256(bytes)| == 64)
    && (forall bytes, i :: 0 <= i < |crypto.sha256(bytes)| ==> crypto.sha256(bytes)[i] in "0123456789abcdef")
  }

  /** What the signing script makes of an artifact, or nothing when it refuses its arguments. The
      download address is the server's. */
  function Signed(signer: Signer, crypto: Crypto, bytes: Bytes, version: string, channel: string, os: string,
                  architecture: string, allowDowngrade: bool): Option<Manifest>
  {
    if !SignerAccepts(version) || channel !in ["stable", "beta"] || os !in ["linux", "windows"]
       || architecture !in ["x86_64", "aarch64"] || (os == "windows" && architecture != "x86_64")
       || !(0 < |bytes| <= 128 * 1024 * 1024) then None
    else
      var url := "/v1/agent/updates/" + version + "-" + os + "-" + architecture + "/artifact";
      var unsigned := Manifest(version, channel, os, architecture, crypto.sha256(bytes), "", "", "ed25519", 2, url,
                               |bytes|, allowDowngrade);
      Some(unsigned.(signature := signer.signBytes(bytes),
                     manifestSignature := signer.signText(CanonicalMessage(unsigned))))
  }

  /** Whatever the script signs with the pinned key, the agent verifies; and it takes the offer
      exactly when the version is a newer one, or another one with the downgrade flag, in 64 bits. */
  lemma SignedIsAccepted(signer: Signer, crypto: Crypto, key: string, bytes: Bytes, version: string, channel: string,
                         os: string, architecture: string, allowDowngrade: bool, current: string)
    requires KeyMatches(crypto, key, signer)
    requires Signed(signer, crypto, bytes, version, channel, os, architecture, allowDowngrade).Some?
    ensures var m := Signed(signer, crypto, bytes, version, channel, os, architecture, allowDowngrade).value;
      && VerifiedArtifact(crypto, key, bytes, m)
      && (ValidOffer(m, channel, current, os, architecture) <==>
            FitsU64(version) && (IsNewer(current, version) || (allowDowngrade && version != current)))
  {
    var m := Signed(signer, crypto, bytes, version, channel, os, architecture, allowDowngrade).value;
    var unsigned := m.(signature := "", manifestSignature := "");
    AcceptedVersionIsOneLine(version);
    SameMessage(unsigned, m.signature, m.manifestSignature);
    TargetNames(channel, os, architecture);
    SignedVerifies(signer, crypto, key, bytes, m);
    OfferTaken(m, current);
  }

  lemma TargetNames(channel: string, os: string, architecture: string)
    requires channel in ["stable", "beta"] && os in ["linux", "windows"] && architecture in ["x86_64", "aarch64"]
    ensures OneLine(channel) && OneLine(os) && OneLine(architecture)
  {
  }

  lemma OfferTaken(m: Manifest, current: string)
    requires SignerAccepts(m.version) && Signable(m) && m.size <= 128 * 1024 * 1024
    requires m.downloadUrl == "/v1/agent/updates/" + m.version + "-" + m.os + "-" + m.architecture + "/artifact"
    ensures ValidOffer(m, m.channel, current, m.os, m.architecture) <==>
      FitsU64(m.version) && (IsNewer(current, m.version) || (m.allowDowngrade && m.version != current))
  {
    SignerAndAgentAgree(m.version);
  }

  /** If the pinned key verifies only messages of `released` manifests, then a version 2 manifest
      that is accepted agrees with a released one on every protected field. */
  lemma OnlyReleasedIsAccepted(crypto: Crypto, key: string, bytes: Bytes, m: Manifest, released: set<Manifest>)
    returns (n: Manifest)
    requires forall text, signature :: crypto.verifiesText(key, text, signature) ==>
      exists r :: r in released && Signable(r) && text == CanonicalMessage(r)
    requires VerifiedArtifact(crypto, key, bytes, m) && m.signatureVersion == V2
    ensures n in released && SameRelease(m, n) && n.size == |bytes| && n.sha256 == crypto.sha256(bytes)
  {
    AgentVerifiesWhatSignerSigns(m);
    assert crypto.verifiesText(key, CanonicalMessage(m), m.manifestSignature);
    n :| n in released && Signable(n) && CanonicalMessage(m) == CanonicalMessage(n);
    AgentVerifiesWhatSignerSigns(n);
    MessageInjective(m, n);
    HexIsLower(m.sha256);
  }

  lemma SameMessage(unsigned: Manifest, signature: string, manifestSignature: string)
    ensures CanonicalMessage(unsigned.(signature := signature, manifestSignature := manifestSignature))
         == CanonicalMessage(unsigned)
  {
  }

  lemma SignedVerifies(signer: Signer, crypto: Crypto, key: string, bytes: Bytes, m: Manifest)
    requires KeyMatches(crypto, key, signer) && Signable(m)
    requires m.size == |bytes| && m.sha256 == crypto.sha256(bytes) && m.signature == signer.signBytes(bytes)
    requires m.manifestSignature == signer.signText(CanonicalMessage(m))
    ensures VerifiedArtifact(crypto, key, bytes, m)
  {
    HexIsLower(m.sha256);
    AgentVerifiesWhatSignerSigns(m);
  }

  /** The script signs for three platforms and two channels. */
  lemma SignedFor(signer: Signer, crypto: Crypto, bytes: Bytes, version: string, channel: string, os: string,
                  architecture: string, allowDowngrade: bool)
    ensures Signed(signer, crypto, bytes, version, channel, os, architecture, allowDowngrade).Some? <==>
      && SignerAccepts(version) && (channel == "stable" || channel == "beta") && 0 < |bytes| <= 134_217_728
      && (os, architecture) in [("linux", "x86_64"), ("linux", "aarch64"), ("windows", "x86_64")]
  {
  }

  lemma {:induction false} HexIsLower(s: string)
    requires forall i :: 0 <= i < |s| ==> LowerHexDigit(s[i])
    ensures ToLower(s) == s
  {
    if s != [] {
      HexIsLower(s[1..]);
    }
  }

  lemma AcceptedVersionIsOneLine(version: string)
    requires SignerAccepts(version)
    ensures OneLine(version)
  {
    var pieces := Split(version, '.');
    JoinSplit(version, '.');
    assert pieces == [pieces[0], pieces[1], pieces[2]];
    DigitsHaveNoDot(pieces[0]);
    DigitsHaveNoDot(pieces[1]);
    DigitsHaveNoDot(pieces[2]);
    assert "." == ['.'];
    ThreeJoined(pieces[0], pieces[1], pieces[2]);
    NoBreakJoined(pieces[0], pieces[1]);
    NoBreakJoined(pieces[0] + "." + pieces[1], pieces[2]);
  }

  lemma ThreeJoined(a: string, b: string, c: string)
    ensures Join([a, b, c], ".") == (a + "." + b) + "." + c
  {
    JoinSnoc([a], b, ".");
    JoinSnoc([a] + [b], c, ".");
    assert [a] + [b] + [c] == [a, b, c];
  }

  lemma NoBreakJoined(a: string, b: string)
    requires '\n' !in a && '\r' !in a && '\n' !in b && '\r' !in b
    ensures '\n' !in a + "." + b && '\r' !in a + "." + b
  {
  }
}
