/** The users table, the user service, the login handler and the two authentication middlewares. bcrypt
    is a parameter: it hashes or refuses a password, and accepts what it hashed. */
module Users {
  import opened Wrappers
  import opened Utf8
  import opened GoStrings
  import opened Principals
  import opened Jwt

  /** A primary key in text form, as the login handler scans it. */
  type UserId = Bytes

  datatype User = User(username: Bytes, passwordHash: Bytes, role: Bytes, createdAt: Instant)

  /** `used` remembers every key ever handed out; gen_random_uuid() never repeats one. */
  datatype UserDb = UserDb(users: map<UserId, User>, used: set<UserId>, clock: Instant)

  datatype Bcrypt = Bcrypt(generate: (Bytes, nat) -> Option<Bytes>, matches: (Bytes, Bytes) -> bool)

  /** bcrypt.CompareHashAndPassword accepts what bcrypt.GenerateFromPassword made. */
  ghost predicate Sound(b: Bcrypt) {
    forall password, salt :: b.generate(password, salt).Some? ==>
      b.matches(b.generate(password, salt).value, password)
  }

  /** The text form of a UUID: 36 characters, hexadecimal digits and dashes. */
  predicate UuidText(id: UserId) {
    |id| == 36 && forall i :: 0 <= i < |id| ==> 0x30 <= id[i] <= 0x39 || 0x61 <= id[i] <= 0x66 || id[i] == 0x2D
  }

  predicate NameTaken(users: map<UserId, User>, username: Bytes) {
    exists id :: id in users && users[id].username == username
  }

  datatype CreateError = InvalidRole | HashFailed | InsertFailed

  /** INSERT INTO users. */
  function Insert(db: UserDb, newId: UserId, username: Bytes, hash: Bytes, role: Bytes, fault: bool)
    : Result<UserDb, CreateError>
  {
    if fault || !UuidText(newId) || newId in db.used || newId in db.users || NameTaken(db.users, username) then
      Err(InsertFailed)
    else Ok(db.(users := db.users[newId := User(username, hash, role, db.clock)], used := db.used + {newId}))
  }

  /** Service.Create: the role is checked and the password hashed before anything is stored. */
  function Create(db: UserDb, b: Bcrypt, username: Bytes, password: Bytes, role: Bytes,
                  salt: nat, newId: UserId, fault: bool): Result<UserDb, CreateError>
  {
    if role != ADMIN && role != VIEWER then Err(InvalidRole)
    else
      match b.generate(password, salt)
      case None => Err(HashFailed)
      case Some(hash) => Insert(db, newId, username, hash, role, fault)
  }

  function Delete(db: UserDb, id: UserId, fault: bool): UserDb {
    if fault then db else db.(users := db.users - {id})
  }

  /** Keys were handed out and are UUIDs, usernames are unique, roles are the two there are. */
  ghost predicate TableOk(db: UserDb) {
    && db.users.Keys <= db.used
    && (forall id :: id in db.users ==> UuidText(id) && db.users[id].role in {ADMIN, VIEWER})
    && (forall i, j :: i in db.users && j in db.users && db.users[i].username == db.users[j].username ==> i == j)
  }

  /** A row never changes, and a key that is gone stays gone. */
  ghost predicate RowsStand(before: UserDb, after: UserDb) {
    && before.used <= after.used && before.clock <= after.clock
    && forall id :: id in before.used && id in after.users ==> id in before.users && after.users[id] == before.users[id]
  }

  lemma CreateKeepsTable(db: UserDb, b: Bcrypt, username: Bytes, password: Bytes, role: Bytes,
                         salt: nat, newId: UserId, fault: bool)
    requires TableOk(db) && Create(db, b, username, password, role, salt, newId, fault).Ok?
    ensures var after := Create(db, b, username, password, role, salt, newId, fault).value;
            TableOk(after) && RowsStand(db, after)
  {
  }

  /** What the lookup by username may answer: the row of that name, or no row (or a driver error, which
      Login treats alike). */
  predicate Finds(db: UserDb, username: Bytes, found: Option<UserId>, fault: bool) {
    match found
    case Some(id) => !fault && id in db.users && db.users[id].username == username
    case None => fault || !NameTaken(db.users, username)
  }

  // ---- The middlewares ----

  const BEARER: Bytes := Ascii("Bearer ")

  /** How the text after "Bearer " reads as a token. */
  type Decoder = Bytes -> Token

  predicate HasPrefix(s: Bytes, prefix: Bytes) {
    |prefix| <= |s| && s[..|prefix|] == prefix
  }

  /** auth.Middleware: the principal put into the request's context, or 401. */
  function Authenticate(m: Manager, decode: Decoder, header: Bytes, now: Instant): Option<Principal> {
    if header == [] || !HasPrefix(header, BEARER) then None
    else
      match Parse(m, decode(TrimPrefix(header, BEARER)), now)
      case Ok(p) => Some(p)
      case Err(_) => None
  }

  /** PrincipalFromContext: the (principal, ok) pair for a context that may hold a principal. */
  function FromContext(ctx: Option<Principal>): (Principal, bool) {
    if ctx.None? || Validate(ctx.value).Some? then (ZERO, false) else (ctx.value, true)
  }

  /** RequireHumanRole: whether the next handler is called. */
  predicate Allows(ctx: Option<Principal>, role: Bytes) {
    var (principal, ok) := FromContext(ctx);
    var (principalRole, isHuman) := HumanRole(principal);
    ok && isHuman && principalRole == role
  }

  /** The admin gate of the users routes lets a request through exactly if its bearer token meets the
      whole contract and names the role admin. */
  lemma AdminGateIsExact(m: Manager, decode: Decoder, header: Bytes, now: Instant)
    ensures BEARER == Ascii("Bearer ")
    ensures
      var ctx := Authenticate(m, decode, header, now);
      && (ctx.Some? <==> HasPrefix(header, BEARER) && MeetsContract(m, decode(TrimPrefix(header, BEARER)), now))
      && (ctx.Some? ==> FromContext(ctx) == (ctx.value, true))
      && (Allows(ctx, ADMIN) <==> ctx.Some? && decode(TrimPrefix(header, BEARER)).payload.role == ADMIN)
  {
    assert |BEARER| == 7;
    if HasPrefix(header, BEARER) {
      ParseIsExact(m, decode(TrimPrefix(header, BEARER)), now);
    }
  }

  // ---- The handlers as methods on the shared table ----

  datatype LoginResponse = InvalidCredentials | TokenError | LoggedIn(token: Token, expiresIn: nat)

  /** What other connections do to the table while a handler is at work. */
  datatype Change =
    | Created(username: Bytes, password: Bytes, role: Bytes, salt: nat, newId: UserId)
    | Deleted(id: UserId)
    | Elapsed(d: nat)

  function Happen(db: UserDb, b: Bcrypt, c: Change): UserDb {
    match c
    case Created(username, password, role, salt, newId) =>
      (match Create(db, b, username, password, role, salt, newId, false)
       case Ok(after) => after
       case Err(_) => db)
    case Deleted(id) => Delete(db, id, false)
    case Elapsed(d) => db.(clock := db.clock + d)
  }

  function HappenAll(db: UserDb, b: Bcrypt, cs: seq<Change>): UserDb {
    if cs == [] then db else Happen(HappenAll(db, b, cs[..|cs|-1]), b, cs[|cs|-1])
  }

  /** user.Service over its repository. */
  class UserService {
    var db: UserDb
    const bcrypt: Bcrypt

    constructor (db: UserDb, bcrypt: Bcrypt)
      ensures this.db == db && this.bcrypt == bcrypt
    {
      this.db, this.bcrypt := db, bcrypt;
    }

    method CreateUser(username: Bytes, password: Bytes, role: Bytes, salt: nat, newId: UserId, fault: bool)
      returns (err: Option<CreateError>)
      requires TableOk(db)
      modifies `db
      ensures TableOk(db) && RowsStand(old(db), db)
      ensures err.Some? ==> db == old(db)
      ensures err.None? <==>
                && (role == Ascii("admin") || role == Ascii("viewer")) && bcrypt.generate(password, salt).Some?
                && !fault && UuidText(newId) && newId !in old(db.used)
                && forall id :: id in old(db.users) ==> old(db.users)[id].username != username
      ensures err.None? ==>
                var hash := bcrypt.generate(password, salt).value;
                && db.users == old(db.users)[newId := User(username, hash, role, old(db.clock))]
                && db.used == old(db.used) + {newId} && db.clock == old(db.clock)
      ensures err == Some(InvalidRole) <==> role !in {ADMIN, VIEWER}
      ensures err == Some(HashFailed) <==> role in {ADMIN, VIEWER} && bcrypt.generate(password, salt).None?
    {
      if role != ADMIN && role != VIEWER {
        return Some(InvalidRole);
      }
      var hash := bcrypt.generate(password, salt);
      if hash.None? {
        return Some(HashFailed);
      }
      var inserted := Insert(db, newId, username, hash.value, role, fault);
      if inserted.Err? {
        return Some(inserted.error);
      }
      CreateKeepsTable(db, bcrypt, username, password, role, salt, newId, fault);
      db := inserted.value;
      return None;
    }

    method DeleteUser(id: UserId, fault: bool) returns (err: bool)
      requires TableOk(db)
      modifies `db
      ensures TableOk(db) && RowsStand(old(db), db)
      ensures err == fault && db.users == if fault then old(db.users) else old(db.users) - {id}
      ensures db.used == old(db.used) && db.clock == old(db.clock)
    {
      db := Delete(db, id, fault);
      return fault;
    }

    /** What happens elsewhere while bcrypt compares. */
    method Yield(others: seq<Change>)
      modifies `db
      ensures db == HappenAll(old(db), bcrypt, others)
    {
      for i := 0 to |others|
        invariant db == HappenAll(old(db), bcrypt, others[..i])
      {
        db := Happen(db, bcrypt, others[i]);
        assert others[..i+1][..i] == others[..i];
      }
      assert others[..|others|] == others;
    }
  }

  /** auth.Handler: the same table, and the manager that signs. */
  class LoginHandler {
    const users: UserService
    const tokens: Manager

    constructor (users: UserService, tokens: Manager)
      ensures this.users == users && this.tokens == tokens
    {
      this.users, this.tokens := users, tokens;
    }

    /** Whoever is handed a token had, when the row was read, that username, a password that matches the
        stored hash, and the role the token names. A row deleted in the meantime makes no difference. */
    method Login(username: Bytes, password: Bytes, found: Option<UserId>, fault: bool, others: seq<Change>)
      returns (response: LoginResponse)
      requires TableOk(users.db) && Finds(users.db, username, found, fault)
      modifies users`db
      ensures
        var row := if found.Some? then Some(old(users.db).users[found.value]) else None;
        var welcome := row.Some? && users.bcrypt.matches(row.value.passwordHash, password);
        && (welcome <==> response.LoggedIn?)
        && (!welcome ==> response == InvalidCredentials && users.db == old(users.db))
        && (welcome ==> users.db == HappenAll(old(users.db), users.bcrypt, others))
        && (welcome ==> Generate(tokens, found.value, row.value.role, users.db.clock) == Ok(response.token))
        && (welcome ==> response.expiresIn == 3600)
    {
      if found.None? {
        return InvalidCredentials;
      }
      var row := users.db.users[found.value];
      if !users.bcrypt.matches(row.passwordHash, password) {
        return InvalidCredentials;
      }
      users.Yield(others);
      UuidIsNotBlank(found.value);
      var token := Generate(tokens, found.value, row.role, users.db.clock);
      if token.Err? {
        return TokenError;
      }
      return LoggedIn(token.value, TTL / SECOND);
    }
  }

  /** A UUID survives JSON and is no blank subject. */
  lemma UuidIsNotBlank(id: UserId)
    requires UuidText(id)
    ensures TrimSpace(id) != [] && WellFormed(id) && Sanitize(id) == id
  {
    hide Sanitize, WellFormed;
    AsciiIsWellFormed(id);
    TrimKeeps(id);
  }
}
