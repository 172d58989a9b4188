/** Runs of the API's identity side: logins that read a row, compare the password and later issue a token,
    requests that any role may make, requests to the users routes that pass the admin gate and later act,
    and time. Clients may present any token they like; that nobody but the server makes its tags is the one
    assumption about the MAC. */
module AuthRuns {
  import opened Wrappers
  import opened Utf8
  import opened GoStrings
  import opened Principals
  import opened Jwt
  import opened Users

  type TaskId = nat

  /** A login between reading the row and issuing the token; `readStep` and `readAt` say when it read. */
  datatype Login = Login(id: UserId, role: Bytes, readStep: nat, readAt: Instant)

  datatype Event =
    | Issued(login: Login, at: Instant, token: Token)
    | Served(principal: Principal, at: Instant)
    | Admitted(principal: Principal, at: Instant)

  datatype State = State(db: UserDb, logins: map<TaskId, Login>, admins: set<TaskId>, log: seq<Event>, steps: nat)

  /** What does not change during a run. */
  datatype Server = Server(manager: Manager, bcrypt: Bcrypt, decode: Decoder)

  datatype Step =
    | Elapse(d: nat)
    | ReadRow(task: TaskId, username: Bytes, password: Bytes, found: Option<UserId>, fault: bool)
    | Issue(task: TaskId)
    | Request(header: Bytes)
    | AdminRequest(task: TaskId, header: Bytes)
    | CreateUser(task: TaskId, username: Bytes, password: Bytes, role: Bytes, salt: nat, newId: UserId, fault: bool)
    | DeleteUser(task: TaskId, id: UserId, fault: bool)

  /** The tags the server has made so far are on the tokens in its log. */
  predicate WasMade(log: seq<Event>, tag: Tag) {
    exists k :: 0 <= k < |log| && log[k].Issued? && log[k].token.Token? && log[k].token.tag == tag
  }

  /** The ideal MAC: whatever a client sends, a tag under the server's key is one the server made. */
  predicate Presentable(server: Server, log: seq<Event>, t: Token) {
    t.Token? && t.tag.secret == server.manager.secret ==> WasMade(log, t.tag)
  }

  predicate Enabled(server: Server, s: State, step: Step) {
    match step
    case Elapse(_) => true
    case ReadRow(task, username, _, found, fault) => task !in s.logins && Finds(s.db, username, found, fault)
    case Issue(task) => task in s.logins
    case Request(header) => Presentable(server, s.log, server.decode(TrimPrefix(header, BEARER)))
    case AdminRequest(task, header) =>
      task !in s.admins && Presentable(server, s.log, server.decode(TrimPrefix(header, BEARER)))
    case CreateUser(task, _, _, _, _, _, _) => task in s.admins
    case DeleteUser(task, _, _) => task in s.admins
  }

  function Apply(server: Server, s: State, step: Step): State
    requires Enabled(server, s, step)
  {
    var now := s.db.clock;
    var next := s.(steps := s.steps + 1);
    match step
    case Elapse(d) => next.(db := s.db.(clock := now + d))
    case ReadRow(task, _, password, found, _) =>
      if found.Some? && server.bcrypt.matches(s.db.users[found.value].passwordHash, password) then
        next.(logins := s.logins[task := Login(found.value, s.db.users[found.value].role, s.steps, now)])
      else next
    case Issue(task) =>
      var login := s.logins[task];
      var done := next.(logins := s.logins - {task});
      (match Generate(server.manager, login.id, login.role, now)
       case Ok(token) => done.(log := s.log + [Issued(login, now, token)])
       case Err(_) => done)
    case Request(header) =>
      var ctx := Authenticate(server.manager, server.decode, header, now);
      if ctx.Some? then next.(log := s.log + [Served(FromContext(ctx).0, now)]) else next
    case AdminRequest(task, header) =>
      var ctx := Authenticate(server.manager, server.decode, header, now);
      if Allows(ctx, ADMIN) then
        next.(admins := s.admins + {task}, log := s.log + [Admitted(FromContext(ctx).0, now)])
      else next
    case CreateUser(task, username, password, role, salt, newId, fault) =>
      var done := next.(admins := s.admins - {task});
      (match Create(s.db, server.bcrypt, username, password, role, salt, newId, fault)
       case Ok(db) => done.(db := db)
       case Err(_) => done)
    case DeleteUser(task, id, fault) =>
      next.(admins := s.admins - {task}, db := Delete(s.db, id, fault))
  }

  predicate Runs(server: Server, s: State, ss: seq<Step>)
    decreases |ss|, 0
  {
    ss == [] || (Runs(server, s, ss[..|ss|-1]) && Enabled(server, Final(server, s, ss[..|ss|-1]), ss[|ss|-1]))
  }

  function Final(server: Server, s: State, ss: seq<Step>): State
    requires Runs(server, s, ss)
    decreases |ss|, 1
  {
    if ss == [] then s else Apply(server, Final(server, s, ss[..|ss|-1]), ss[|ss|-1])
  }

  /** The server has just started on some users table: no login or request in flight, no token made. */
  ghost predicate Started(s: State) {
    TableOk(s.db) && s.logins == map[] && s.admins == {} && s.log == [] && s.steps == 0
  }

  // ---- The table over runs ----

  /** Only users who passed the gate write to the table. */
  lemma StepDb(server: Server, s: State, step: Step)
    requires Enabled(server, s, step)
    ensures var after := Apply(server, s, step).db;
            match step
            case Elapse(d) => after == s.db.(clock := s.db.clock + d)
            case CreateUser(task, username, password, role, salt, newId, fault) =>
              var created := Create(s.db, server.bcrypt, username, password, role, salt, newId, fault);
              task in s.admins && after == if created.Ok? then created.value else s.db
            case DeleteUser(task, id, fault) => task in s.admins && after == Delete(s.db, id, fault)
            case _ => after == s.db
    ensures Apply(server, s, step).admins <= s.admins || PassesGate(server, s, step)
    ensures Apply(server, s, step).steps == s.steps + 1
  {
    hide Generate, Authenticate, Allows, FromContext, Presentable, Create, Delete, Finds;
  }

  lemma StepKeepsTable(server: Server, s: State, step: Step)
    requires TableOk(s.db) && Enabled(server, s, step)
    ensures TableOk(Apply(server, s, step).db) && RowsStand(s.db, Apply(server, s, step).db)
    ensures s.log <= Apply(server, s, step).log && Apply(server, s, step).steps == s.steps + 1
  {
    hide Apply, Enabled, Create;
    StepDb(server, s, step);
    StepLog(server, s, step);
    if step.CreateUser? {
      var r := Create(s.db, server.bcrypt, step.username, step.password, step.role, step.salt, step.newId, step.fault);
      if r.Ok? {
        CreateKeepsTable(s.db, server.bcrypt, step.username, step.password, step.role, step.salt, step.newId, step.fault);
      }
    }
  }

  /** The login carries a stored row's role. */
  predicate Reads(db: UserDb, login: Login) {
    login.id in db.users && db.users[login.id].role == login.role
  }

  /** A login appears only by its own ReadRow, and goes only by its own Issue. */
  lemma StepLogins(server: Server, s: State, step: Step)
    requires Enabled(server, s, step)
    ensures var after := Apply(server, s, step).logins;
            && (forall task :: task in after ==>
                  || (task in s.logins && after[task] == s.logins[task])
                  || (step.ReadRow? && step.task == task && Reads(s.db, after[task])))
            && (forall task :: task in s.logins && step != Issue(task) ==>
                  task in after && after[task] == s.logins[task])
    ensures s.db.clock <= Apply(server, s, step).db.clock
  {
    hide Generate, Authenticate, Allows, FromContext, Presentable, NameTaken;
  }

  /** The middleware makes this principal of a header now. */
  predicate IsPrincipal(server: Server, s: State, header: Bytes, p: Principal) {
    var ctx := Authenticate(server.manager, server.decode, header, s.db.clock);
    ctx.Some? && FromContext(ctx).0 == p
  }

  /** What a step may log. */
  predicate Logs(server: Server, s: State, step: Step, e: Event) {
    && e.at == s.db.clock
    && match e
       case Issued(login, _, token) =>
         step.Issue? && step.task in s.logins && login == s.logins[step.task] &&
         Generate(server.manager, login.id, login.role, s.db.clock) == Ok(token)
       case Served(p, _) =>
         step.Request? && IsPrincipal(server, s, step.header, p)
       case Admitted(p, _) =>
         step.AdminRequest? && IsPrincipal(server, s, step.header, p) &&
         Allows(Authenticate(server.manager, server.decode, step.header, s.db.clock), ADMIN)
  }

  lemma StepLog(server: Server, s: State, step: Step)
    requires Enabled(server, s, step)
    ensures var after := Apply(server, s, step).log;
            after == s.log || (after != [] && after == s.log + [after[|after|-1]] && Logs(server, s, step, after[|after|-1]))
    ensures step.Request? || step.AdminRequest? ==>
              Presentable(server, s.log, server.decode(TrimPrefix(step.header, BEARER)))
  {
    hide Generate, Authenticate, Allows, FromContext, Presentable, Create, Finds;
    if step.AdminRequest? {
      NoPrincipalNoPass(server, step.header, s.db.clock);
    }
  }

  /** In every run the stored roles are admin and viewer, usernames are unique, and a stored row stays as
      it was inserted until it is deleted. */
  lemma {:induction false} RunKeepsTable(server: Server, s: State, ss: seq<Step>)
    requires TableOk(s.db) && Runs(server, s, ss)
    ensures TableOk(Final(server, s, ss).db) && RowsStand(s.db, Final(server, s, ss).db)
    ensures Final(server, s, ss).steps == s.steps + |ss|
  {
    if ss != [] {
      RunKeepsTable(server, s, ss[..|ss|-1]);
      StepKeepsTable(server, Final(server, s, ss[..|ss|-1]), ss[|ss|-1]);
    }
  }

  // ---- Where authority comes from ----

  /** At step `login.readStep` of the run the user was stored, with the role that the login took along. */
  ghost predicate ReadFrom(server: Server, s: State, ss: seq<Step>, login: Login) {
    && login.readStep < |ss|
    && Runs(server, s, ss[..login.readStep])
    && var past := Final(server, s, ss[..login.readStep]);
    && past.db.clock == login.readAt
    && login.id in past.db.users && past.db.users[login.id].role == login.role
    && UuidText(login.id)
  }

  /** An issued token is what the manager makes for its login. */
  predicate IssuedFor(server: Server, e: Event)
    requires e.Issued?
  {
    && Generate(server.manager, e.login.id, e.login.role, e.at) == Ok(e.token)
    && e.login.readAt <= e.at
  }

  /** The login at `j` accounts for the request at `k`, which an admission needs to be an admin's. */
  predicate Backs(log: seq<Event>, j: int, k: int)
    requires 0 <= k < |log| && !log[k].Issued?
  {
    && 0 <= j < k && log[j].Issued?
    && log[k].principal == Principal(HUMAN, log[j].login.id, log[j].login.role, NIL_UUID)
    && (log[k].Admitted? ==> log[j].login.role == ADMIN)
    && log[j].at <= log[k].at < log[j].at + TTL
  }

  ghost predicate LogInv(server: Server, s: State, ss: seq<Step>, log: seq<Event>, now: Instant) {
    && (forall k :: 0 <= k < |log| && log[k].Issued? ==>
          ReadFrom(server, s, ss, log[k].login) && IssuedFor(server, log[k]) && log[k].at <= now)
    && (forall k :: 0 <= k < |log| && !log[k].Issued? ==> exists j :: Backs(log, j, k))
  }

  ghost predicate LoginsInv(server: Server, s: State, ss: seq<Step>, t: State) {
    forall task :: task in t.logins ==>
      ReadFrom(server, s, ss, t.logins[task]) && t.logins[task].readAt <= t.db.clock
  }

  lemma {:induction false} PrefixRuns(server: Server, s: State, ss: seq<Step>, n: nat)
    requires Runs(server, s, ss) && n <= |ss|
    ensures Runs(server, s, ss[..n])
    decreases |ss|
  {
    if n == |ss| {
      assert ss[..n] == ss;
    } else {
      PrefixRuns(server, s, ss[..|ss|-1], n);
      assert ss[..|ss|-1][..n] == ss[..n];
    }
  }

  lemma ReadFromLonger(server: Server, s: State, ss: seq<Step>, login: Login)
    requires |ss| > 0 && ReadFrom(server, s, ss[..|ss|-1], login)
    ensures ReadFrom(server, s, ss, login)
  {
    assert ss[..|ss|-1][..login.readStep] == ss[..login.readStep];
  }

  /** A request that is authenticated carries a token the server issued, to the user and role of the
      principal, within the hour. */
  lemma RequestNeedsIssuedToken(server: Server, log: seq<Event>, header: Bytes, now: Instant) returns (j: nat)
    requires forall k :: 0 <= k < |log| && log[k].Issued? ==>
               IssuedFor(server, log[k]) && UuidText(log[k].login.id) && log[k].at <= now
    requires Presentable(server, log, server.decode(TrimPrefix(header, BEARER)))
    requires Authenticate(server.manager, server.decode, header, now).Some?
    ensures j < |log| && log[j].Issued?
    ensures var ctx := Authenticate(server.manager, server.decode, header, now);
            && FromContext(ctx).0 == Principal(HUMAN, log[j].login.id, log[j].login.role, NIL_UUID)
            && (Allows(ctx, ADMIN) ==> log[j].login.role == ADMIN)
    ensures log[j].at <= now < log[j].at + TTL
  {
    hide Sanitize, WellFormed, TrimSpace, TrimPrefix, Parse, Generate;
    var token := server.decode(TrimPrefix(header, BEARER));
    AdminGateIsExact(server.manager, server.decode, header, now);
    ParseIsExact(server.manager, token, now);
    var k :| 0 <= k < |log| && log[k].Issued? && log[k].token.Token? && log[k].token.tag == token.tag;
    j := k;
    var login := log[k].login;
    GeneratedToken(server.manager, login.id, login.role, log[k].at);
    assert log[k].token == token;
    ParseOfGenerate(server.manager, login.id, login.role, log[k].at, now);
    WindowOfDates(log[k].at, now);
    UuidIsNotBlank(login.id);
  }

  lemma {:induction false} RunKeepsLog(server: Server, s: State, ss: seq<Step>)
    requires Started(s) && Runs(server, s, ss)
    ensures LogInv(server, s, ss, Final(server, s, ss).log, Final(server, s, ss).db.clock)
    ensures LoginsInv(server, s, ss, Final(server, s, ss))
  {
    if ss != [] {
      var init, step := ss[..|ss|-1], ss[|ss|-1];
      RunKeepsLog(server, s, init);
      RunKeepsTable(server, s, init);
      StepKeepsLog(server, s, ss);
    }
  }

  /** A login that the last step began has read the table as it was before that step. */
  lemma ReadNow(server: Server, s: State, ss: seq<Step>)
    requires Started(s) && |ss| > 0 && Runs(server, s, ss)
    requires ss[|ss|-1].ReadRow? && ss[|ss|-1].task in Final(server, s, ss).logins
    ensures var login := Final(server, s, ss).logins[ss[|ss|-1].task];
            ReadFrom(server, s, ss, login) && login.readAt <= Final(server, s, ss).db.clock
  {
    RunKeepsTable(server, s, ss[..|ss|-1]);
    assert ss[..|ss|-1] == ss[..Final(server, s, ss[..|ss|-1]).steps];
  }

  lemma LoginsStand(server: Server, s: State, ss: seq<Step>)
    requires Started(s) && |ss| > 0 && Runs(server, s, ss)
    requires LoginsInv(server, s, ss[..|ss|-1], Final(server, s, ss[..|ss|-1]))
    ensures LoginsInv(server, s, ss, Final(server, s, ss))
  {
    hide Apply, Enabled, ReadFrom, TableOk;
    var init := ss[..|ss|-1];
    var before, after := Final(server, s, init), Final(server, s, ss);
    StepLogins(server, before, ss[|ss|-1]);
    forall task | task in after.logins
      ensures ReadFrom(server, s, ss, after.logins[task]) && after.logins[task].readAt <= after.db.clock
    {
      if task in before.logins && after.logins[task] == before.logins[task] {
        ReadFromLonger(server, s, ss, after.logins[task]);
      } else {
        ReadNow(server, s, ss);
      }
    }
  }

  /** What holds of the log still holds when the run gets longer. */
  lemma LogStands(server: Server, s: State, ss: seq<Step>, log: seq<Event>, now: Instant, later: Instant)
    requires |ss| > 0 && LogInv(server, s, ss[..|ss|-1], log, now) && now <= later
    ensures LogInv(server, s, ss, log, later)
  {
    hide ReadFrom, IssuedFor, Backs;
    forall k | 0 <= k < |log| && log[k].Issued? ensures ReadFrom(server, s, ss, log[k].login) {
      ReadFromLonger(server, s, ss, log[k].login);
    }
  }

  /** An event that a step logs is accounted for by the log and the logins before it. */
  lemma NewEventStands(server: Server, s: State, ss: seq<Step>, t: State, step: Step, e: Event)
    requires LogInv(server, s, ss, t.log, t.db.clock) && LoginsInv(server, s, ss, t) && Logs(server, t, step, e)
    requires step.Request? || step.AdminRequest? ==>
               Presentable(server, t.log, server.decode(TrimPrefix(step.header, BEARER)))
    ensures LogInv(server, s, ss, t.log + [e], t.db.clock)
  {
    hide Generate, Authenticate, Allows, FromContext, ReadFrom, Presentable;
    var log := t.log + [e];
    forall k | 0 <= k < |log| && !log[k].Issued? ensures exists j :: Backs(log, j, k) {
      if k < |t.log| {
        var j :| Backs(t.log, j, k);
        assert Backs(log, j, k);
      } else {
        IssuedIdsAreUuids(server, s, ss, t.log);
        var j := RequestNeedsIssuedToken(server, t.log, step.header, t.db.clock);
        assert Backs(log, j, k);
      }
    }
  }

  lemma StepKeepsLog(server: Server, s: State, ss: seq<Step>)
    requires Started(s) && |ss| > 0 && Runs(server, s, ss)
    requires LoginsInv(server, s, ss[..|ss|-1], Final(server, s, ss[..|ss|-1]))
    requires LogInv(server, s, ss[..|ss|-1], Final(server, s, ss[..|ss|-1]).log, Final(server, s, ss[..|ss|-1]).db.clock)
    ensures LogInv(server, s, ss, Final(server, s, ss).log, Final(server, s, ss).db.clock)
    ensures LoginsInv(server, s, ss, Final(server, s, ss))
  {
    hide Apply, Enabled, LogInv, LoginsInv, Logs, Presentable, Started;
    var init, step := ss[..|ss|-1], ss[|ss|-1];
    var before, after := Final(server, s, init), Final(server, s, ss);
    StepLogins(server, before, step);
    StepLog(server, before, step);
    LoginsStand(server, s, ss);
    if after.log != before.log {
      NewEventStands(server, s, init, before, step, after.log[|after.log|-1]);
    }
    LogStands(server, s, ss, after.log, before.db.clock, after.db.clock);
  }

  lemma NoPrincipalNoPass(server: Server, header: Bytes, now: Instant)
    ensures Allows(Authenticate(server.manager, server.decode, header, now), ADMIN) ==>
              Authenticate(server.manager, server.decode, header, now).Some?
  {
    hide Authenticate;
  }

  lemma IssuedIdsAreUuids(server: Server, s: State, ss: seq<Step>, log: seq<Event>)
    requires forall k :: 0 <= k < |log| && log[k].Issued? ==> ReadFrom(server, s, ss, log[k].login)
    ensures forall k :: 0 <= k < |log| && log[k].Issued? ==> UuidText(log[k].login.id)
  {
  }

  /** The state after the first `n` steps of a run. */
  ghost function At(server: Server, s: State, ss: seq<Step>, n: nat): State
    requires Runs(server, s, ss) && n <= |ss|
  {
    PrefixRuns(server, s, ss, n);
    Final(server, s, ss[..n])
  }

  lemma NextStep(server: Server, s: State, ss: seq<Step>, n: nat)
    requires Runs(server, s, ss) && n < |ss|
    ensures Enabled(server, At(server, s, ss, n), ss[n])
    ensures At(server, s, ss, n + 1) == Apply(server, At(server, s, ss, n), ss[n])
  {
    hide Apply, Enabled;
    PrefixRuns(server, s, ss, n + 1);
    assert ss[..n+1][..n] == ss[..n];
  }

  lemma AtIsOk(server: Server, s: State, ss: seq<Step>, n: nat)
    requires Started(s) && Runs(server, s, ss) && n <= |ss|
    ensures TableOk(At(server, s, ss, n).db) && At(server, s, ss, n).db.users.Keys <= At(server, s, ss, n).db.used
  {
    PrefixRuns(server, s, ss, n);
    RunKeepsTable(server, s, ss[..n]);
  }

  predicate Removes(step: Step, id: UserId) {
    step.DeleteUser? && step.id == id && !step.fault
  }

  lemma StepRemoves(server: Server, s: State, step: Step, id: UserId)
    requires TableOk(s.db) && Enabled(server, s, step) && id in s.db.used
    ensures var after := Apply(server, s, step).db;
            && id in after.used
            && (id in after.users <==> id in s.db.users && !Removes(step, id))
            && (id in after.users ==> after.users[id] == s.db.users[id])
  {
    hide Apply, Enabled;
    StepKeepsTable(server, s, step);
    StepDb(server, s, step);
  }

  /** A row that is stored after `n` steps of a run is stored after `m` exactly if no step in between
      removed it, and then is the same row. */
  lemma {:induction false} RowStandsUntilRemoved(server: Server, s: State, ss: seq<Step>, n: nat, m: nat, id: UserId)
    requires Started(s) && Runs(server, s, ss) && n <= m <= |ss| && id in At(server, s, ss, n).db.users
    ensures var past, now := At(server, s, ss, n).db.users, At(server, s, ss, m).db;
            && id in now.used
            && (id in now.users <==> forall k :: n <= k < m ==> !Removes(ss[k], id))
            && (id in now.users ==> now.users[id] == past[id])
    decreases m - n
  {
    hide Apply, Enabled, TableOk, At, Started, Runs;
    AtIsOk(server, s, ss, n);
    if n < m {
      RowStandsUntilRemoved(server, s, ss, n, m - 1, id);
      NextStep(server, s, ss, m - 1);
      AtIsOk(server, s, ss, m - 1);
      StepRemoves(server, At(server, s, ss, m - 1), ss[m-1], id);
    }
  }

  /** How long issued authority is also stored authority: after a run, the user of an issued token is in
      the table exactly if no step since the login read the row has removed it, and then with the role the
      token carries. Taken at the step that issues, this says when a token is stale from the start. */
  lemma IssuedMeansStored(server: Server, s: State, ss: seq<Step>, k: nat)
    requires Started(s) && Runs(server, s, ss)
    requires k < |Final(server, s, ss).log| && Final(server, s, ss).log[k].Issued?
    ensures
      var login, now := Final(server, s, ss).log[k].login, Final(server, s, ss).db.users;
      && (login.id in now <==> forall i :: login.readStep <= i < |ss| ==> !Removes(ss[i], login.id))
      && (login.id in now ==> now[login.id].role == login.role)
  {
    RunKeepsLog(server, s, ss);
    var login := Final(server, s, ss).log[k].login;
    assert ReadFrom(server, s, ss, login);
    RowStandsUntilRemoved(server, s, ss, login.readStep, |ss|, login.id);
    assert ss[..|ss|] == ss;
  }

  /** Provenance of authority. In every run, a request that was authenticated was preceded by a login,
      less than 3600 s before, that issued a token to the very user and role the principal names, admin if
      the request passed the gate; and that user was stored with that role when the login read the table.
      By the end of the run the row is gone, which takes a successful deletion since, or still has that
      role. */
  lemma RequestsComeFromLogins(server: Server, s: State, ss: seq<Step>, k: nat) returns (j: nat)
    requires Started(s) && Runs(server, s, ss)
    requires k < |Final(server, s, ss).log| && !Final(server, s, ss).log[k].Issued?
    ensures j < k && Final(server, s, ss).log[j].Issued?
    ensures
      var request, issue := Final(server, s, ss).log[k], Final(server, s, ss).log[j];
      var login := issue.login;
      && request.principal == Principal(HUMAN, login.id, login.role, NIL_UUID)
      && (request.Admitted? ==> login.role == ADMIN)
      && issue.at <= request.at < issue.at + 3600 * SECOND
      && login.readAt <= issue.at
      && login.readStep < |ss|
      && var past, now := At(server, s, ss, login.readStep).db, Final(server, s, ss).db;
      && past.clock == login.readAt && login.id in past.users && past.users[login.id].role == login.role
      && (login.id in now.users <==> forall i :: login.readStep <= i < |ss| ==> !Removes(ss[i], login.id))
      && (login.id in now.users ==> now.users[login.id].role == login.role)
  {
    RunKeepsLog(server, s, ss);
    var log := Final(server, s, ss).log;
    var i :| Backs(log, i, k);
    j := i;
    assert ReadFrom(server, s, ss, log[j].login) && IssuedFor(server, log[j]);
    IssuedMeansStored(server, s, ss, j);
  }

  // ---- What requests leave on record ----

  /** A request's bearer token meets the whole contract at this moment. */
  predicate Accepted(server: Server, header: Bytes, now: Instant) {
    HasPrefix(header, BEARER) && MeetsContract(server.manager, server.decode(TrimPrefix(header, BEARER)), now)
  }

  /** Every request is logged exactly if it is let in: any request whose token meets the contract is served
      as the user and role the token names; and one to the users routes is admitted exactly if that role is
      admin, and then may make one write. Requests do not touch the table. */
  lemma RequestsAreOnRecord(server: Server, s: State, ss: seq<Step>, i: nat)
    requires Runs(server, s, ss) && i < |ss| && (ss[i].Request? || ss[i].AdminRequest?)
    ensures
      var before, after := At(server, s, ss, i), At(server, s, ss, i + 1);
      var accepted := Accepted(server, ss[i].header, before.db.clock);
      && after.db == before.db && after.logins == before.logins
      && (ss[i].Request? ==>
            && after.admins == before.admins
            && after.log == before.log +
                 if accepted then
                   var claims := server.decode(TrimPrefix(ss[i].header, BEARER)).payload;
                   [Served(Principal(HUMAN, claims.subject, claims.role, NIL_UUID), before.db.clock)]
                 else [])
      && (ss[i].AdminRequest? ==>
            var admitted := accepted && server.decode(TrimPrefix(ss[i].header, BEARER)).payload.role == ADMIN;
            && after.admins == before.admins + (if admitted then {ss[i].task} else {})
            && after.log == before.log +
                 if admitted then
                   var claims := server.decode(TrimPrefix(ss[i].header, BEARER)).payload;
                   [Admitted(Principal(HUMAN, claims.subject, ADMIN, NIL_UUID), before.db.clock)]
                 else [])
  {
    hide At, Runs, MeetsContract, Parse, Presentable;
    var before, header := At(server, s, ss, i), ss[i].header;
    NextStep(server, s, ss, i);
    hide Enabled, HasPrefix;
    AdminGateIsExact(server.manager, server.decode, header, before.db.clock);
    Authenticated(server, header, before.db.clock);
    ParseIsExact(server.manager, server.decode(TrimPrefix(header, BEARER)), before.db.clock);
    hide Authenticate, FromContext, Allows;
  }

  predicate Writes(step: Step) {
    step.CreateUser? || step.DeleteUser?
  }

  function WriteCount(ss: seq<Step>): nat {
    if ss == [] then 0 else WriteCount(ss[..|ss|-1]) + if Writes(ss[|ss|-1]) then 1 else 0
  }

  function AdmissionCount(log: seq<Event>): nat {
    if log == [] then 0 else AdmissionCount(log[..|log|-1]) + if log[|log|-1].Admitted? then 1 else 0
  }

  /** Admissions are gained by being logged and lost by writing. */
  lemma StepAdmins(server: Server, s: State, step: Step)
    requires Enabled(server, s, step)
    ensures var after := Apply(server, s, step);
            && (Writes(step) ==> step.task in s.admins && after.admins == s.admins - {step.task} && after.log == s.log)
            && (!Writes(step) ==>
                  || (after.admins == s.admins && after.log == s.log)
                  || (&& after.log != [] && after.log == s.log + [after.log[|after.log|-1]]
                      && if after.log[|after.log|-1].Admitted? then
                           step.AdminRequest? && step.task !in s.admins && after.admins == s.admins + {step.task}
                         else after.admins == s.admins))
  {
    hide Authenticate, FromContext, Allows, Generate, Presentable, Create, Delete, Finds;
  }

  lemma StepUsesAdmission(server: Server, s: State, step: Step)
    requires Enabled(server, s, step)
    ensures |Apply(server, s, step).admins| + (if Writes(step) then 1 else 0)
            == |s.admins| + AdmissionCount(Apply(server, s, step).log) - AdmissionCount(s.log)
  {
    hide Apply, Enabled, AdmissionCount;
    StepAdmins(server, s, step);
    var after := Apply(server, s, step);
    if Writes(step) {
      OneFewer(s.admins, step.task);
    } else if after.log != s.log {
      CountOneMore(s.log, after.log[|after.log|-1]);
    }
  }

  lemma CountOneMore(log: seq<Event>, e: Event)
    ensures AdmissionCount(log + [e]) == AdmissionCount(log) + if e.Admitted? then 1 else 0
  {
    assert (log + [e])[..|log|] == log;
  }

  lemma OneFewer(tasks: set<TaskId>, task: TaskId)
    requires task in tasks
    ensures |tasks - {task}| == |tasks| - 1
  {
    assert tasks == (tasks - {task}) + {task};
  }

  /** Each admission pays for one write. In every run, the attempts to create or delete a user, and the
      admitted requests that have not acted yet, are together exactly the admissions in the log. */
  lemma {:induction false} EveryWriteWasAdmitted(server: Server, s: State, ss: seq<Step>)
    requires Started(s) && Runs(server, s, ss)
    ensures WriteCount(ss) + |Final(server, s, ss).admins| == AdmissionCount(Final(server, s, ss).log)
  {
    if ss != [] {
      hide Apply, Enabled;
      EveryWriteWasAdmitted(server, s, ss[..|ss|-1]);
      StepUsesAdmission(server, Final(server, s, ss[..|ss|-1]), ss[|ss|-1]);
    }
  }

  // ---- A login that outlives its row ----

  lemma Extend(server: Server, s: State, ss: seq<Step>, step: Step)
    requires Runs(server, s, ss) && Enabled(server, Final(server, s, ss), step)
    ensures Runs(server, s, ss + [step])
    ensures Final(server, s, ss + [step]) == Apply(server, Final(server, s, ss), step)
  {
    assert (ss + [step])[..|ss|] == ss;
  }

  /** An admin who can log in, and a header that carries the token of that login. */
  ghost predicate AdminCanLogIn(server: Server, s: State, admin: UserId, password: Bytes, header: Bytes) {
    && WellFormed(server.manager.issuer) && WellFormed(server.manager.audience)
    && admin in s.db.users && s.db.users[admin].role == ADMIN
    && server.bcrypt.matches(s.db.users[admin].passwordHash, password)
    && HasPrefix(header, BEARER)
    && Generate(server.manager, admin, ADMIN, s.db.clock) == Ok(server.decode(TrimPrefix(header, BEARER)))
  }

  /** A user reads the row and is issued a token, undisturbed. */
  lemma LogsIn(server: Server, s: State, id: UserId, password: Bytes, token: Token) returns (ss: seq<Step>)
    requires Started(s) && id in s.db.users && server.bcrypt.matches(s.db.users[id].passwordHash, password)
    requires Generate(server.manager, id, s.db.users[id].role, s.db.clock) == Ok(token)
    ensures Runs(server, s, ss)
    ensures Final(server, s, ss) ==
            s.(steps := 2, log := [Issued(Login(id, s.db.users[id].role, 0, s.db.clock), s.db.clock, token)])
  {
    hide Generate, Presentable, Authenticate, Allows, FromContext, Create, TableOk;
    var read := ReadRow(0, s.db.users[id].username, password, Some(id), false);
    Extend(server, s, [], read);
    assert [] + [read] == [read];
    Extend(server, s, [read], Issue(0));
    ss := [read] + [Issue(0)];
  }

  /** A request with a token that was just issued to an admin passes the gate. */
  lemma GateOpens(server: Server, s: State, header: Bytes, login: Login)
    requires WellFormed(server.manager.issuer) && WellFormed(server.manager.audience) && UuidText(login.id)
    requires HasPrefix(header, BEARER)
    requires Generate(server.manager, login.id, ADMIN, s.db.clock) == Ok(server.decode(TrimPrefix(header, BEARER)))
    requires s.log == [Issued(login, s.db.clock, server.decode(TrimPrefix(header, BEARER)))] && s.admins == {}
    ensures Enabled(server, s, AdminRequest(0, header))
    ensures var t := Apply(server, s, AdminRequest(0, header));
            && t.db == s.db && t.logins == s.logins && 0 in t.admins
            && Presentable(server, t.log, server.decode(TrimPrefix(header, BEARER)))
  {
    hide Generate, Authenticate, Allows, FromContext, WellFormed, Sanitize, TrimPrefix, HasPrefix, Create, UuidText, InWindow;
    TokenIsServed(server, login.id, ADMIN, s.db.clock, header, s.db.clock);
    WindowNow(s.db.clock);
    GeneratedToken(server.manager, login.id, ADMIN, s.db.clock);
    assert s.log[0].token.tag == server.decode(TrimPrefix(header, BEARER)).tag;
    assert Apply(server, s, AdminRequest(0, header)).log[0] == s.log[0];
  }

  lemma WindowNow(n: Instant)
    ensures InWindow(n, n)
  {
    WindowOfDates(n, n);
  }

  /** The admin logs in and passes the gate. */
  lemma AdminPasses(server: Server, s: State, admin: UserId, password: Bytes, header: Bytes) returns (ss: seq<Step>)
    requires Started(s) && AdminCanLogIn(server, s, admin, password, header)
    ensures Runs(server, s, ss)
    ensures var t := Final(server, s, ss);
            && t.db == s.db && t.logins == map[] && 0 in t.admins
            && Presentable(server, t.log, server.decode(TrimPrefix(header, BEARER)))
  {
    hide Runs, Final, Apply, Enabled, Generate, WellFormed, TrimPrefix, HasPrefix;
    var token := server.decode(TrimPrefix(header, BEARER));
    StoredIdsAreUuids(s.db, admin);
    ss := LogsIn(server, s, admin, password, token);
    GateOpens(server, Final(server, s, ss), header, Login(admin, ADMIN, 0, s.db.clock));
    Extend(server, s, ss, AdminRequest(0, header));
    ss := ss + [AdminRequest(0, header)];
  }

  /** An admin at work: logs in, passes the gate, creates a user, and is served elsewhere with the same
      token. Nothing but a taken name, a used key or a refused password can stop that. */
  lemma AdminCanCreate(server: Server, s: State, admin: UserId, password: Bytes, header: Bytes, user: Step)
    returns (ss: seq<Step>)
    requires Started(s) && AdminCanLogIn(server, s, admin, password, header)
    requires user.CreateUser? && user.task == 0 && Creates(server, s.db, user)
    ensures Runs(server, s, ss)
    ensures
      var t := Final(server, s, ss);
      && user.newId in t.db.users && t.db.users == s.db.users[user.newId := InsertedBy(server, s.db, user)]
      && t.log != [] && t.log[|t.log|-1] == Served(Principal(HUMAN, admin, ADMIN, NIL_UUID), s.db.clock)
  {
    hide Runs, Final, Authenticate, FromContext, Allows, Generate, WellFormed, TrimPrefix, HasPrefix, TableOk, InWindow;
    ss := AdminPasses(server, s, admin, password, header);
    Extend(server, s, ss, user);
    ss := ss + [user];
    StoredIdsAreUuids(s.db, admin);
    TokenIsServed(server, admin, ADMIN, s.db.clock, header, s.db.clock);
    WindowNow(s.db.clock);
    Extend(server, s, ss, Request(header));
    ss := ss + [Request(header)];
  }

  /** A stale login. Wherever an admin can log in, every stored user who knows a password can be issued a
      token after the row was deleted: the login reads the row, the admin deletes it, the login issues. The
      token is good at once, for a user who is not in the table any more. */
  lemma StaleLogin(server: Server, s: State, admin: UserId, adminPassword: Bytes, header: Bytes,
                   id: UserId, password: Bytes) returns (ss: seq<Step>)
    requires Started(s) && AdminCanLogIn(server, s, admin, adminPassword, header)
    requires id in s.db.users && server.bcrypt.matches(s.db.users[id].passwordHash, password)
    ensures Runs(server, s, ss)
    ensures
      var t := Final(server, s, ss);
      && t.db.users == s.db.users - {id}
      && t.log != [] && t.log[|t.log|-1].Issued?
      && var issued := t.log[|t.log|-1];
      && issued.login.id == id && issued.login.role == s.db.users[id].role
      && Parse(server.manager, issued.token, t.db.clock) == Ok(Principal(HUMAN, id, s.db.users[id].role, NIL_UUID))
  {
    hide Authenticate, Allows, FromContext, Generate, Parse, Sanitize, WellFormed, HasPrefix, TableOk, Runs, Final, InWindow,
         Create;
    var row := s.db.users[id];
    StoredIdsAreUuids(s.db, id);
    ss := AdminPasses(server, s, admin, adminPassword, header);
    Extend(server, s, ss, ReadRow(1, row.username, password, Some(id), false));
    ss := ss + [ReadRow(1, row.username, password, Some(id), false)];
    Extend(server, s, ss, DeleteUser(0, id, false));
    ss := ss + [DeleteUser(0, id, false)];
    IssuedIsGood(server, id, row.role, s.db.clock);
    Extend(server, s, ss, Issue(1));
    ss := ss + [Issue(1)];
  }

  lemma IssuedIsGood(server: Server, id: UserId, role: Bytes, n: Instant)
    requires WellFormed(server.manager.issuer) && WellFormed(server.manager.audience)
    requires UuidText(id) && role in {ADMIN, VIEWER}
    ensures var token := Generate(server.manager, id, role, n);
            token.Ok? && Parse(server.manager, token.value, n) == Ok(Principal(HUMAN, id, role, NIL_UUID))
  {
    hide Generate, Parse, WellFormed, Sanitize, TrimSpace, InWindow, UuidText;
    UuidIsNotBlank(id);
    GenerateRefuses(server.manager, id, role, n);
    ParseOfGenerate(server.manager, id, role, n, n);
    WindowNow(n);
  }

  lemma StoredIdsAreUuids(db: UserDb, id: UserId)
    requires TableOk(db) && id in db.users
    ensures UuidText(id) && db.users[id].role in {ADMIN, VIEWER}
  {
  }

  /** Such a run from nothing but a table with one admin, who deletes their own row between the two
      steps of a second login. */
  lemma StaleLoginHappens() returns (server: Server, s: State, ss: seq<Step>)
    ensures Started(s) && Runs(server, s, ss)
    ensures
      var log := Final(server, s, ss).log;
      && log != [] && log[|log|-1].Issued?
      && log[|log|-1].login.role == ADMIN && Final(server, s, ss).db.users == map[]
  {
    hide Sanitize, WellFormed, TrimSpace, Generate, Runs, Final;
    var id: UserId := seq(36, i => 0x30);
    assert UuidText(id);
    var manager := SmallestManager();
    s := State(UserDb(map[id := User([], [], ADMIN, 0)], {id}, 0), map[], {}, [], 0);
    UuidIsNotBlank(id);
    GenerateRefuses(manager, id, ADMIN, 0);
    var token := Generate(manager, id, ADMIN, 0).value;
    server := Server(manager, Bcrypt((password, salt) => Some(password), (hash, password) => true), text => token);
    AsciiIsWellFormed(manager.issuer);
    assert AdminCanLogIn(server, s, id, [], BEARER);
    ss := StaleLogin(server, s, id, [], BEARER, id, []);
    assert Final(server, s, ss).db.users == map[];
  }

  // ---- Nobody becomes an admin without an admin ----

  /** Without an admin to begin with, nothing in flight or issued carries that role. */
  ghost predicate NoAdmin(s: State) {
    && (forall id :: id in s.db.users ==> s.db.users[id].role != ADMIN)
    && (forall task :: task in s.logins ==> s.logins[task].role != ADMIN)
    && (forall k :: 0 <= k < |s.log| && s.log[k].Issued? ==> s.log[k].login.role != ADMIN)
    && s.admins == {}
  }

  predicate PassesGate(server: Server, s: State, step: Step) {
    step.AdminRequest? && Allows(Authenticate(server.manager, server.decode, step.header, s.db.clock), ADMIN)
  }

  lemma NoAdminStays(server: Server, s: State, step: Step)
    requires NoAdmin(s) && Enabled(server, s, step) && !PassesGate(server, s, step)
    ensures NoAdmin(Apply(server, s, step)) && Apply(server, s, step).db.users == s.db.users
    ensures forall e :: e in Apply(server, s, step).log && e.Admitted? ==> e in s.log
  {
    hide Apply, Enabled, Create, Delete, Generate, Authenticate, Allows, FromContext;
    StepDb(server, s, step);
    StepLogins(server, s, step);
    StepLog(server, s, step);
  }

  lemma NoAdminNoPass(server: Server, s: State, ss: seq<Step>, step: Step)
    requires Started(s) && Runs(server, s, ss) && NoAdmin(Final(server, s, ss))
    requires Enabled(server, Final(server, s, ss), step)
    ensures !PassesGate(server, Final(server, s, ss), step)
  {
    hide Generate, Authenticate, Allows, FromContext;
    var now := Final(server, s, ss);
    if PassesGate(server, now, step) {
      RunKeepsLog(server, s, ss);
      IssuedIdsAreUuids(server, s, ss, now.log);
      NoPrincipalNoPass(server, step.header, now.db.clock);
      var j := RequestNeedsIssuedToken(server, now.log, step.header, now.db.clock);
      assert false;
    }
  }

  /** A table without an admin is frozen: whatever clients send, no request ever passes the admin gate and
      no user is ever created or deleted. */
  lemma {:induction false} WithoutAdminNothingChanges(server: Server, s: State, ss: seq<Step>)
    requires Started(s) && Runs(server, s, ss)
    requires forall id :: id in s.db.users ==> s.db.users[id].role != ADMIN
    ensures NoAdmin(Final(server, s, ss)) && Final(server, s, ss).db.users == s.db.users
    ensures forall e :: e in Final(server, s, ss).log ==> !e.Admitted?
  {
    if ss != [] {
      hide NoAdmin, PassesGate, Apply;
      var init, step := ss[..|ss|-1], ss[|ss|-1];
      WithoutAdminNothingChanges(server, s, init);
      NoAdminNoPass(server, s, init, step);
      NoAdminStays(server, Final(server, s, init), step);
    }
  }

  // ---- From an account to a principal ----

  /** The row that a successful creation at step `n` has inserted. */
  function InsertedBy(server: Server, db: UserDb, c: Step): User
    requires c.CreateUser? && server.bcrypt.generate(c.password, c.salt).Some?
  {
    User(c.username, server.bcrypt.generate(c.password, c.salt).value, c.role, db.clock)
  }

  ghost predicate Creates(server: Server, db: UserDb, c: Step) {
    c.CreateUser? && Create(db, server.bcrypt, c.username, c.password, c.role, c.salt, c.newId, c.fault).Ok?
  }

  /** A created account is stored as it was created for as long as nothing removes it. */
  lemma AccountStands(server: Server, s: State, ss: seq<Step>, n: nat, m: nat)
    requires Started(s) && Runs(server, s, ss) && n < m <= |ss| && Creates(server, At(server, s, ss, n).db, ss[n])
    requires forall k :: n < k < m ==> !Removes(ss[k], ss[n].newId)
    ensures var c, users := ss[n], At(server, s, ss, m).db.users;
            && server.bcrypt.generate(c.password, c.salt).Some?
            && c.newId in users && users[c.newId] == InsertedBy(server, At(server, s, ss, n).db, c)
  {
    hide At, Started, Runs;
    NextStep(server, s, ss, n);
    RowStandsUntilRemoved(server, s, ss, n + 1, m, ss[n].newId);
  }

  /** A login waits until its token is issued. */
  lemma {:induction false} LoginWaits(server: Server, s: State, ss: seq<Step>, n: nat, m: nat, task: TaskId)
    requires Runs(server, s, ss) && n <= m <= |ss| && task in At(server, s, ss, n).logins
    requires forall k :: n <= k < m ==> ss[k] != Issue(task)
    ensures task in At(server, s, ss, m).logins
    ensures At(server, s, ss, m).logins[task] == At(server, s, ss, n).logins[task]
    decreases m - n
  {
    if n < m {
      hide At, Runs, Apply, Enabled;
      LoginWaits(server, s, ss, n, m - 1, task);
      NextStep(server, s, ss, m - 1);
      StepLogins(server, At(server, s, ss, m - 1), ss[m-1]);
    }
  }

  /** An account that is created at step `n`, and not removed before its owner presents the password at
      step `r`, is issued a token at step `i`; and a request that carries it at step `q` is served, as the
      user and role created, if and only if the clock is then in the window of the issue, whatever else
      the run does. */
  lemma AccountLeadsToPrincipal(server: Server, s: State, ss: seq<Step>, n: nat, r: nat, i: nat, q: nat)
    requires Sound(server.bcrypt) && WellFormed(server.manager.issuer) && WellFormed(server.manager.audience)
    requires Started(s) && Runs(server, s, ss) && n < r < i < q < |ss|
    requires Creates(server, At(server, s, ss, n).db, ss[n])
    requires forall k :: n < k < r ==> !Removes(ss[k], ss[n].newId)
    requires ss[r].ReadRow? && ss[r].username == ss[n].username && ss[r].password == ss[n].password && !ss[r].fault
    requires ss[i] == Issue(ss[r].task) && forall k :: r < k < i ==> ss[k] != Issue(ss[r].task)
    requires ss[q].Request? && HasPrefix(ss[q].header, BEARER)
    requires Generate(server.manager, ss[n].newId, ss[n].role, At(server, s, ss, i).db.clock)
             == Ok(server.decode(TrimPrefix(ss[q].header, BEARER)))
    ensures
      var c, token := ss[n], server.decode(TrimPrefix(ss[q].header, BEARER));
      var readAt, issuedAt, at := At(server, s, ss, r).db.clock, At(server, s, ss, i).db.clock, At(server, s, ss, q).db.clock;
      && ss[r].found == Some(c.newId)
      && At(server, s, ss, i+1).log == At(server, s, ss, i).log + [Issued(Login(c.newId, c.role, r, readAt), issuedAt, token)]
      && At(server, s, ss, q+1).log == At(server, s, ss, q).log +
           if InWindow(issuedAt, at) then [Served(Principal(HUMAN, c.newId, c.role, NIL_UUID), at)] else []
  {
    hide At, Runs, Generate, Authenticate, Allows, FromContext, InWindow, Create, TableOk, WellFormed, Presentable, Started;
    ReadByOwner(server, s, ss, n, r);
    LoginWaits(server, s, ss, r + 1, i, ss[r].task);
    NextStep(server, s, ss, i);
    IssueExactly(server, At(server, s, ss, i), ss[r].task, server.decode(TrimPrefix(ss[q].header, BEARER)));
    NextStep(server, s, ss, q);
    TokenIsServed(server, ss[n].newId, ss[n].role, At(server, s, ss, i).db.clock, ss[q].header, At(server, s, ss, q).db.clock);
  }

  lemma ReadByOwner(server: Server, s: State, ss: seq<Step>, n: nat, r: nat)
    requires Sound(server.bcrypt) && Started(s) && Runs(server, s, ss) && n < r < |ss|
    requires Creates(server, At(server, s, ss, n).db, ss[n])
    requires forall k :: n < k < r ==> !Removes(ss[k], ss[n].newId)
    requires ss[r].ReadRow? && ss[r].username == ss[n].username && ss[r].password == ss[n].password && !ss[r].fault
    ensures ss[r].found == Some(ss[n].newId) && UuidText(ss[n].newId) && ss[r].task in At(server, s, ss, r+1).logins
    ensures At(server, s, ss, r+1).logins[ss[r].task] ==
            Login(ss[n].newId, ss[n].role, r, At(server, s, ss, r).db.clock)
  {
    hide At, Runs;
    AccountStands(server, s, ss, n, r);
    AtIsOk(server, s, ss, r);
    NextStep(server, s, ss, r);
    StepsCount(server, s, ss, r);
    assert ss[n].newId in At(server, s, ss, r).db.users;
  }

  lemma StepsCount(server: Server, s: State, ss: seq<Step>, n: nat)
    requires Started(s) && Runs(server, s, ss) && n <= |ss|
    ensures At(server, s, ss, n).steps == n
  {
    PrefixRuns(server, s, ss, n);
    RunKeepsTable(server, s, ss[..n]);
  }

  /** The middleware and an issued token of a stored user. */
  lemma TokenIsServed(server: Server, id: UserId, role: Bytes, n: Instant, header: Bytes, at: Instant)
    requires WellFormed(server.manager.issuer) && WellFormed(server.manager.audience) && UuidText(id)
    requires HasPrefix(header, BEARER)
    requires Generate(server.manager, id, role, n) == Ok(server.decode(TrimPrefix(header, BEARER)))
    ensures var ctx := Authenticate(server.manager, server.decode, header, at);
            && (ctx.Some? <==> InWindow(n, at))
            && (ctx.Some? ==> FromContext(ctx) == (Principal(HUMAN, id, role, NIL_UUID), true))
            && (Allows(ctx, ADMIN) <==> ctx.Some? && role == ADMIN)
  {
    hide Sanitize, WellFormed, TrimSpace, Parse, Generate, InWindow, Authenticate, FromContext;
    UuidIsNotBlank(id);
    GeneratedToken(server.manager, id, role, n);
    ParseOfGenerate(server.manager, id, role, n, at);
    AdminGateIsExact(server.manager, server.decode, header, at);
    Authenticated(server, header, at);
  }

  lemma Authenticated(server: Server, header: Bytes, at: Instant)
    ensures var ctx := Authenticate(server.manager, server.decode, header, at);
            ctx.Some? ==> Parse(server.manager, server.decode(TrimPrefix(header, BEARER)), at) == Ok(ctx.value)
    ensures HasPrefix(header, BEARER) && Parse(server.manager, server.decode(TrimPrefix(header, BEARER)), at).Ok? ==>
              Authenticate(server.manager, server.decode, header, at).Some?
  {
    hide Parse;
    assert |BEARER| == 7;
  }

  // ---- The methods and the steps ----

  /** What steps do to the table, as changes that other connections could have made. */
  function AsChanges(step: Step): seq<Change> {
    match step
    case Elapse(d) => [Elapsed(d)]
    case CreateUser(_, username, password, role, salt, newId, false) => [Created(username, password, role, salt, newId)]
    case DeleteUser(_, id, false) => [Deleted(id)]
    case _ => []
  }

  function Changes(ss: seq<Step>): seq<Change> {
    if ss == [] then [] else Changes(ss[..|ss|-1]) + AsChanges(ss[|ss|-1])
  }

  lemma StepIsChange(server: Server, s: State, step: Step, before: UserDb, cs: seq<Change>)
    requires Enabled(server, s, step) && s.db == HappenAll(before, server.bcrypt, cs)
    ensures Apply(server, s, step).db == HappenAll(before, server.bcrypt, cs + AsChanges(step))
  {
    hide Apply, Enabled;
    StepDb(server, s, step);
    var more := AsChanges(step);
    if more == [] {
      assert cs + more == cs;
    } else {
      assert (cs + more)[..|cs|] == cs;
    }
  }

  lemma {:induction false} ChangesAreExact(server: Server, s: State, ss: seq<Step>, n: nat, m: nat)
    requires Runs(server, s, ss) && n <= m <= |ss|
    ensures At(server, s, ss, m).db == HappenAll(At(server, s, ss, n).db, server.bcrypt, Changes(ss[n..m]))
    decreases m - n
  {
    if n < m {
      hide At, Runs, Apply, Enabled, HappenAll, Changes, AsChanges;
      ChangesAreExact(server, s, ss, n, m - 1);
      NextStep(server, s, ss, m - 1);
      StepIsChange(server, At(server, s, ss, m - 1), ss[m-1], At(server, s, ss, n).db, Changes(ss[n..m-1]));
      LastChange(ss, n, m);
    } else {
      assert Changes(ss[n..m]) == [];
    }
  }

  lemma LastChange(ss: seq<Step>, n: nat, m: nat)
    requires n < m <= |ss|
    ensures Changes(ss[n..m]) == Changes(ss[n..m-1]) + AsChanges(ss[m-1])
  {
    assert ss[n..m][..m-n-1] == ss[n..m-1];
  }

  /** Login is what ReadRow and Issue say, in every run and with any steps in between: it refuses exactly if
      ReadRow starts no login, and otherwise leaves the table and hands out the token of Issue. */
  method LoginInRun(server: Server, s: State, ss: seq<Step>, r: nat, i: nat, handler: LoginHandler)
    returns (response: LoginResponse)
    requires Started(s) && Runs(server, s, ss) && r < i <= |ss| && ss[r].ReadRow?
    requires forall k :: r < k < i ==> ss[k] != Issue(ss[r].task)
    requires handler.tokens == server.manager && handler.users.bcrypt == server.bcrypt
    requires handler.users.db == At(server, s, ss, r).db
    modifies handler.users`db
    ensures
      var task, read, last := ss[r].task, At(server, s, ss, r+1), At(server, s, ss, i);
      && (response.LoggedIn? <==> task in read.logins)
      && (!response.LoggedIn? ==> response == InvalidCredentials && handler.users.db == read.db)
      && (response.LoggedIn? ==>
            && Enabled(server, last, Issue(task))
            && var after := Apply(server, last, Issue(task));
            && handler.users.db == after.db
            && after.log == last.log + [Issued(read.logins[task], last.db.clock, response.token)])
  {
    hide At, Runs, TableOk, Generate, Apply, Enabled, HappenAll, Changes;
    var step := ss[r];
    NextStep(server, s, ss, r);
    AtIsOk(server, s, ss, r);
    ReadRowExactly(server, At(server, s, ss, r), step);
    ChangesAreExact(server, s, ss, r + 1, i);
    response := handler.Login(step.username, step.password, step.found, step.fault, Changes(ss[r+1..i]));
    if response.LoggedIn? {
      LoginWaits(server, s, ss, r + 1, i, step.task);
      IssueExactly(server, At(server, s, ss, i), step.task, response.token);
    }
  }

  lemma ReadRowExactly(server: Server, s: State, step: Step)
    requires Enabled(server, s, step) && step.ReadRow?
    ensures Finds(s.db, step.username, step.found, step.fault)
    ensures var read := Apply(server, s, step);
            && read.db == s.db
            && (step.task in read.logins <==>
                  step.found.Some? && server.bcrypt.matches(s.db.users[step.found.value].passwordHash, step.password))
            && (step.task in read.logins ==>
                  read.logins[step.task] ==
                  Login(step.found.value, s.db.users[step.found.value].role, s.steps, s.db.clock))
  {
    hide NameTaken;
  }

  lemma IssueExactly(server: Server, s: State, task: TaskId, token: Token)
    requires task in s.logins && Generate(server.manager, s.logins[task].id, s.logins[task].role, s.db.clock) == Ok(token)
    ensures Enabled(server, s, Issue(task))
    ensures var after := Apply(server, s, Issue(task));
            after.db == s.db && after.log == s.log + [Issued(s.logins[task], s.db.clock, token)]
  {
    hide Generate;
  }

  /** CreateUser and DeleteUser of the service are the steps of those names. */
  method ActInRun(server: Server, s: State, ss: seq<Step>, step: Step, service: UserService) returns (failed: bool)
    requires Started(s) && Runs(server, s, ss) && Enabled(server, Final(server, s, ss), step)
    requires step.CreateUser? || step.DeleteUser?
    requires service.bcrypt == server.bcrypt && service.db == Final(server, s, ss).db
    modifies service`db
    ensures service.db == Apply(server, Final(server, s, ss), step).db
    ensures step.CreateUser? ==> (failed <==> !Creates(server, Final(server, s, ss).db, step))
    ensures step.DeleteUser? ==> failed == step.fault
  {
    hide Runs, Final, TableOk;
    RunKeepsTable(server, s, ss);
    if step.CreateUser? {
      var err := service.CreateUser(step.username, step.password, step.role, step.salt, step.newId, step.fault);
      failed := err.Some?;
    } else {
      failed := service.DeleteUser(step.id, step.fault);
    }
  }
}
