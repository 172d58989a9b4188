/** Human tokens. The MAC is ideal: a tag names the algorithm, the key and the payload it was made for.
    Times are nanoseconds since Go's zero time; a NumericDate keeps whole seconds. */
module Jwt {
  import opened Wrappers
  import opened Utf8
  import opened GoStrings
  import opened Principals

  type Instant = nat

  const SECOND: nat := 1_000_000_000
  /** HumanTokenTTL, in nanoseconds. */
  const TTL: nat := 3600 * SECOND
  const MINIMUM_SECRET := 32
  const HS256: Bytes := Ascii("HS256")

  /** jwt.NewNumericDate: the whole seconds of an instant. */
  function NumericDate(t: Instant): nat {
    t / SECOND
  }

  /** The payload as the JSON decoder reads it. */
  datatype Claims = Claims(actorKind: Bytes, role: Bytes, issuer: Bytes, subject: Bytes, audience: seq<Bytes>,
                           expiresAt: Option<nat>, notBefore: Option<nat>, issuedAt: Option<nat>)

  datatype Tag = Tag(alg: Bytes, secret: Bytes, payload: Claims)

  datatype Token = Malformed | Token(alg: Bytes, payload: Claims, tag: Tag)

  datatype Config = Config(secret: Bytes, issuer: Bytes, audience: Bytes)

  datatype ConfigError = SecretTooShort | IssuerRequired | AudienceRequired

  datatype ManagerFields = Manager(secret: Bytes, issuer: Bytes, audience: Bytes)

  /** What a manager's fields are like: a secret of 32 bytes or more that is not blank, an issuer and an
      audience that are not empty and have no space around them. */
  predicate Configured(m: ManagerFields) {
    && |m.secret| >= MINIMUM_SECRET && !Blank(m.secret)
    && m.issuer != [] && TrimSpace(m.issuer) == m.issuer
    && m.audience != [] && TrimSpace(m.audience) == m.audience
  }

  /** A manager that NewManager has made. */
  type Manager = m: ManagerFields | Configured(m) witness SmallestManager()

  function SmallestManager(): (m: ManagerFields)
    ensures Configured(m) && m.issuer == m.audience == [0x30]
  {
    var secret: Bytes := seq(MINIMUM_SECRET, i => 0x30);
    TrimKeeps(secret);
    TrimKeeps([0x30]);
    Manager(secret, [0x30], [0x30])
  }

  function NewManager(c: Config): Result<Manager, ConfigError> {
    TrimSpaceTwice(c.issuer);
    TrimSpaceTwice(c.audience);
    if |c.secret| < MINIMUM_SECRET || Blank(c.secret) then Err(SecretTooShort)
    else if Blank(c.issuer) then Err(IssuerRequired)
    else if Blank(c.audience) then Err(AudienceRequired)
    else Ok(Manager(c.secret, TrimSpace(c.issuer), TrimSpace(c.audience)))
  }

  /** The managers are exactly what NewManager can make: it succeeds exactly for a long, non-blank secret
      and non-blank names, space around the names is ignored, and configuring again with a manager's own
      fields gives the same manager. */
  lemma NewManagerMakesAll(c: Config, m: Manager)
    ensures NewManager(c).Ok? <==>
              |c.secret| >= 32 && !Blank(c.secret) && !Blank(c.issuer) && !Blank(c.audience)
    ensures NewManager(c).Ok? ==> NewManager(c).value == Manager(c.secret, TrimSpace(c.issuer), TrimSpace(c.audience))
    ensures NewManager(c.(issuer := TrimSpace(c.issuer), audience := TrimSpace(c.audience))) == NewManager(c)
    ensures NewManager(Config(m.secret, m.issuer, m.audience)) == Ok(m)
  {
    TrimSpaceTwice(c.issuer);
    TrimSpaceTwice(c.audience);
  }

  // ---- Issuing ----

  function SanitizeAll(ss: seq<Bytes>): seq<Bytes> {
    if ss == [] then [] else [Sanitize(ss[0])] + SanitizeAll(ss[1..])
  }

  /** What a verifier reads after the claims went through encoding/json. */
  function Wire(c: Claims): Claims {
    c.(actorKind := Sanitize(c.actorKind), role := Sanitize(c.role), issuer := Sanitize(c.issuer),
       subject := Sanitize(c.subject), audience := SanitizeAll(c.audience))
  }

  function Sign(m: Manager, c: Claims): Token {
    Token(HS256, Wire(c), Tag(HS256, m.secret, Wire(c)))
  }

  function Generate(m: Manager, subject: Bytes, role: Bytes, now: Instant): Result<Token, Invalid> {
    match NewHuman(subject, role)
    case Err(e) => Err(e)
    case Ok(p) =>
      Ok(Sign(m, Claims(p.kind, role, m.issuer, p.subject, [m.audience],
                        Some(NumericDate(now + TTL)), None, Some(NumericDate(now)))))
  }

  // ---- Accepting ----

  /** The registered claims as golang-jwt checks them for the options the manager passes. It would not look
      at the issuer if none were configured. */
  predicate RegisteredClaimsHold(m: Manager, c: Claims, now: Instant) {
    && c.expiresAt.Some? && now < c.expiresAt.value * SECOND
    && (c.notBefore.Some? ==> now >= c.notBefore.value * SECOND)
    && (c.issuedAt.Some? ==> now >= c.issuedAt.value * SECOND)
    && m.audience in c.audience
    && (m.issuer == [] || c.issuer == m.issuer)
  }

  datatype ClaimError = IssuedAtRequired | ActorKindNotHuman | NotAPrincipal(why: Invalid)

  /** Claims.Validate. */
  function ValidateClaims(c: Claims): Option<ClaimError> {
    if c.issuedAt == None then Some(IssuedAtRequired)
    else if c.actorKind != HUMAN then Some(ActorKindNotHuman)
    else
      match NewHuman(c.subject, c.role)
      case Err(e) => Some(NotAPrincipal(e))
      case Ok(_) => None
  }

  datatype ParseError = ValidationFailed | PrincipalRejected(why: Invalid)

  function Parse(m: Manager, t: Token, now: Instant): Result<Principal, ParseError> {
    if t.Malformed? then Err(ValidationFailed)
    else if t.alg != HS256 then Err(ValidationFailed)
    else if t.tag != Tag(t.alg, m.secret, t.payload) then Err(ValidationFailed)
    else if !RegisteredClaimsHold(m, t.payload, now) then Err(ValidationFailed)
    else if ValidateClaims(t.payload) != None then Err(ValidationFailed)
    else
      match NewHuman(t.payload.subject, t.payload.role)
      case Err(e) => Err(PrincipalRejected(e))
      case Ok(p) => Ok(p)
  }

  /** The human token contract of ADR 0001 and sections 4.1.1 to 4.1.6 of RFC 7519, all of it. */
  predicate MeetsContract(m: Manager, t: Token, now: Instant) {
    && t.Token?
    && t.alg == HS256
    && t.tag == Tag(HS256, m.secret, t.payload)
    && t.payload.issuer == m.issuer
    && m.audience in t.payload.audience
    && t.payload.expiresAt.Some? && now < t.payload.expiresAt.value * SECOND
    && t.payload.issuedAt.Some? && t.payload.issuedAt.value * SECOND <= now
    && (t.payload.notBefore.Some? ==> t.payload.notBefore.value * SECOND <= now)
    && t.payload.actorKind == HUMAN
    && TrimSpace(t.payload.subject) != []
    && t.payload.role in {ADMIN, VIEWER}
  }

  /** Parse accepts exactly the tokens that meet the contract, as the principal they name, and has one
      way to fail: once the claims are validated, building the principal cannot be refused. */
  lemma ParseIsExact(m: Manager, t: Token, now: Instant)
    ensures Parse(m, t, now).Ok? <==> MeetsContract(m, t, now)
    ensures HS256 == Ascii("HS256") && HUMAN == Ascii("human") && ADMIN == Ascii("admin") && VIEWER == Ascii("viewer")
    ensures Parse(m, t, now) ==
              if MeetsContract(m, t, now)
              then Ok(Principal(HUMAN, t.payload.subject, t.payload.role, NIL_UUID))
              else Err(ValidationFailed)
  {
  }

  // ---- A token over its lifetime ----

  lemma {:induction false} AsciiIsWellFormed(s: Bytes)
    requires forall i :: 0 <= i < |s| ==> s[i] < 0x80
    ensures WellFormed(s) && Sanitize(s) == s
  {
    if s != [] {
      AsciiIsWellFormed(s[1..]);
    }
    SanitizeKeepsExactlyWellFormed(s);
  }

  /** The instants at which a token issued at `n` is valid: from the second it was issued in, for an hour,
      expiry excluded. */
  predicate InWindow(n: Instant, at: Instant) {
    NumericDate(n) * SECOND <= at < NumericDate(n) * SECOND + TTL
  }

  lemma WindowOfDates(n: Instant, at: Instant)
    ensures InWindow(n, at) <==> NumericDate(n) * SECOND <= at && at < NumericDate(n + TTL) * SECOND
    ensures n <= at <= n + 3_599_000_000_000 ==> InWindow(n, at)
    ensures at >= n + 3_600_000_000_000 ==> !InWindow(n, at)
  {
    assert (n + 3600 * SECOND) / SECOND == n / SECOND + 3600;
    assert n == n / SECOND * SECOND + n % SECOND;
  }

  lemma NamesSurviveJson()
    ensures Sanitize(HUMAN) == HUMAN && Sanitize(ADMIN) == ADMIN && Sanitize(VIEWER) == VIEWER
  {
    hide Sanitize, WellFormed;
    AsciiIsWellFormed(HUMAN);
    AsciiIsWellFormed(ADMIN);
    AsciiIsWellFormed(VIEWER);
  }

  /** What a generated token carries. */
  lemma GeneratedToken(m: Manager, subject: Bytes, role: Bytes, n: Instant)
    requires Generate(m, subject, role, n).Ok?
    ensures
      var payload := Claims(HUMAN, role, Sanitize(m.issuer), Sanitize(subject), [Sanitize(m.audience)],
                            Some(NumericDate(n + TTL)), None, Some(NumericDate(n)));
      Generate(m, subject, role, n).value == Token(HS256, payload, Tag(HS256, m.secret, payload))
    ensures TrimSpace(Sanitize(subject)) != [] && (role == ADMIN || role == VIEWER)
  {
    hide Sanitize, TrimSpace, Ascii;
    SanitizeKeepsBlank(subject);
    NamesSurviveJson();
    assert SanitizeAll([m.audience]) == [Sanitize(m.audience)];
  }

  /** One manager issues, another parses. The token is accepted exactly if both have the same secret, the
      accepting side is configured with the issuer and audience as JSON carries them, and the clock is
      within the window. So managers that believe each other are the same manager exactly if the issuing
      side's names are well-formed UTF-8. */
  lemma ManagersAreSeparate(m: Manager, other: Manager, subject: Bytes, role: Bytes, n: Instant, at: Instant)
    requires Generate(other, subject, role, n).Ok?
    ensures
      var parsed := Parse(m, Generate(other, subject, role, n).value, at);
      && (parsed.Ok? <==> && m.secret == other.secret
                          && m.issuer == Sanitize(other.issuer) && m.audience == Sanitize(other.audience)
                          && InWindow(n, at))
      && (parsed.Ok? ==> parsed.value == Principal(HUMAN, Sanitize(subject), role, NIL_UUID))
      && (parsed.Ok? ==> (m == other <==> WellFormed(other.issuer) && WellFormed(other.audience)))
  {
    hide Sanitize, TrimSpace, WellFormed, Parse, Generate, InWindow;
    GeneratedToken(other, subject, role, n);
    ParseIsExact(m, Generate(other, subject, role, n).value, at);
    WindowOfDates(n, at);
    SanitizeKeepsExactlyWellFormed(other.issuer);
    SanitizeKeepsExactlyWellFormed(other.audience);
  }

  /** Different managers that believe each other: a bad byte in the issuing side's name reads like the
      replacement character that the accepting side has in its own. */
  lemma BadNamesMayMeet(subject: Bytes, role: Bytes, n: Instant) returns (m: Manager, other: Manager)
    requires TrimSpace(subject) != [] && role in {ADMIN, VIEWER}
    ensures m != other && m.secret == other.secret && m.audience == other.audience
    ensures Generate(other, subject, role, n).Ok? && Parse(m, Generate(other, subject, role, n).value, n).Ok?
  {
    hide Parse, Generate, TrimSpace, Sanitize, WellFormed;
    var base := SmallestManager();
    NamesThatMeet();
    other, m := base.(issuer := BAD_BYTE), base.(issuer := REPLACED);
    AsciiIsWellFormed(base.audience);
    GenerateRefuses(other, subject, role, n);
    WindowOfDates(n, n);
    ManagersAreSeparate(m, other, subject, role, n, n);
  }

  const BAD_BYTE: Bytes := [0x30, 0xFF, 0x30]
  const REPLACED: Bytes := [0x30, 0xEF, 0xBF, 0xBD, 0x30]

  lemma NamesThatMeet()
    ensures Sanitize(BAD_BYTE) == REPLACED != BAD_BYTE
    ensures TrimSpace(BAD_BYTE) == BAD_BYTE && TrimSpace(REPLACED) == REPLACED
  {
    hide TrimSpace;
    TrimKeeps(BAD_BYTE);
    TrimKeeps(REPLACED);
    assert BAD_BYTE[1..] == [0xFF, 0x30] && BAD_BYTE[1..][1..] == [0x30];
    assert Sanitize([0x30]) == [0x30];
    assert Sanitize([0xFF, 0x30]) == EncodeRune(RUNE_ERROR) + [0x30];
  }

  /** Issue, then parse. The token is accepted exactly if the configured issuer and audience survive JSON
      and the clock is within the window; the principal then has the role and the subject it was issued
      for, the subject as JSON carries it. */
  lemma ParseOfGenerate(m: Manager, subject: Bytes, role: Bytes, n: Instant, at: Instant)
    requires Generate(m, subject, role, n).Ok?
    ensures
      var parsed := Parse(m, Generate(m, subject, role, n).value, at);
      && (parsed.Ok? <==> WellFormed(m.issuer) && WellFormed(m.audience) && InWindow(n, at))
      && (parsed.Ok? ==> parsed.value == Principal(HUMAN, Sanitize(subject), role, NIL_UUID))
      && (parsed.Ok? ==> (parsed.value.subject == subject <==> WellFormed(subject)))
  {
    hide Sanitize, TrimSpace, WellFormed, Parse, Generate, InWindow;
    ManagersAreSeparate(m, m, subject, role, n, at);
    SanitizeKeepsExactlyWellFormed(m.issuer);
    SanitizeKeepsExactlyWellFormed(m.audience);
    SanitizeKeepsExactlyWellFormed(subject);
  }

  /** Generate refuses what cannot become a human principal, and nothing else. */
  lemma GenerateRefuses(m: Manager, subject: Bytes, role: Bytes, now: Instant)
    ensures Generate(m, subject, role, now).Ok? <==> TrimSpace(subject) != [] && role in {ADMIN, VIEWER}
  {
  }
}
