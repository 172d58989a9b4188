/** A call of satellite.Service as a program counter over SQL statements, and what the same call means
    when nothing can run in between. */
module SatelliteCalls {
  import opened Wrappers
  import opened SatelliteTable

  datatype Call =
    | Create(name: string, region: string)
    | Get(id: Id)
    | Update(id: Id, region: string, fromOperator: bool)
    | Delete(id: Id, fromOperator: bool)
    | Heartbeat(id: Id)

  /** `Deleted` is a nil error from Delete: the row was removed, or there was none. */
  datatype Response = DbError | NotFound | Forbidden | Returned(id: Id, row: Row) | Deleted

  /** `Checked` holds the row that GetByID returned and that passed the ownership guard. */
  datatype Pc =
    | Invoked(call: Call)
    | Checked(call: Call, seen: Row)
    | Answered(call: Call, response: Response)
    | Finished(call: Call, response: Response)

  /** What the outside decides about one statement: the generated key, and whether it fails. */
  datatype Choice = Choice(newId: Id, fault: bool)

  predicate Guarded(call: Call) {
    call.Update? || call.Delete?
  }

  predicate Active(pc: Pc) {
    pc.Invoked? || (pc.Checked? && Guarded(pc.call))
  }

  /** service.go 42 and 56: the rule that keeps manual callers away from operator-owned rows. */
  predicate Refused(call: Call, row: Row)
    requires Guarded(call)
  {
    row.managedBy == OPERATOR && !call.fromOperator
  }

  function NextStatement(pc: Pc, newId: Id): Statement
    requires Active(pc)
  {
    match pc.call
    case Create(name, region) => Insert(newId, name, region, PENDING, MANUAL)
    case Get(id) => SelectById(id)
    case Update(id, region, _) => if pc.Invoked? then SelectById(id) else UpdateRegion(id, region)
    case Delete(id, _) => if pc.Invoked? then SelectById(id) else DeleteById(id)
    case Heartbeat(id) => UpdateHeartbeat(id)
  }

  function Answer(call: Call, reply: Reply): Response {
    match reply
    case Failed => DbError
    case NoRows => if call.Delete? then Deleted else NotFound
    case OneRow(id, row) => Returned(id, row)
    case Executed => Deleted
  }

  function Resume(pc: Pc, reply: Reply): Pc
    requires Active(pc)
  {
    if pc.Invoked? && Guarded(pc.call) && reply.OneRow? then
      if Refused(pc.call, reply.row) then Answered(pc.call, Forbidden) else Checked(pc.call, reply.row)
    else Answered(pc.call, Answer(pc.call, reply))
  }

  /** The next statement of a call, executed. */
  function Advance(db: Db, pc: Pc, c: Choice): (Db, Pc)
    requires Active(pc)
  {
    var (after, reply) := Exec(db, NextStatement(pc, c.newId), c.fault);
    (after, Resume(pc, reply))
  }

  /** The meaning of a whole call when it runs alone: the guard and the write see the same row. */
  function Atomic(db: Db, call: Call, c: Choice): (Db, Response) {
    if c.fault then (db, DbError)
    else match call
      case Create(name, region) =>
        if c.newId in db.used || c.newId in db.table || NameTaken(db.table, name) then (db, DbError)
        else
          var row := Row(name, region, PENDING, MANUAL, None, db.clock);
          (Db(db.table[c.newId := row], db.used + {c.newId}, db.clock), Returned(c.newId, row))
      case Get(id) =>
        (db, if id in db.table then Returned(id, db.table[id]) else NotFound)
      case Update(id, region, fromOperator) =>
        if id !in db.table then (db, NotFound)
        else if db.table[id].managedBy == OPERATOR && !fromOperator then (db, Forbidden)
        else
          var row := db.table[id].(region := region);
          (db.(table := db.table[id := row]), Returned(id, row))
      case Delete(id, fromOperator) =>
        if id !in db.table then (db, Deleted)
        else if db.table[id].managedBy == OPERATOR && !fromOperator then (db, Forbidden)
        else (db.(table := db.table - {id}), Deleted)
      case Heartbeat(id) =>
        if id !in db.table then (db, NotFound)
        else
          var row := db.table[id].(status := READY, lastSeenAt := Some(db.clock));
          (db.(table := db.table[id := row]), Returned(id, row))
  }

  /** What a call that passed the guard may still count on: its row is gone for good, or is still
      owned by whoever owned it when the guard looked. */
  ghost predicate GuardStable(db: Db, pc: Pc) {
    pc.Checked? ==>
      && Guarded(pc.call)
      && pc.call.id in db.used
      && !Refused(pc.call, pc.seen)
      && (pc.call.id in db.table ==> db.table[pc.call.id].managedBy == pc.seen.managedBy)
  }

  lemma GuardStaysStable(before: Db, after: Db, pc: Pc)
    requires Evolves(before, after) && GuardStable(before, pc)
    ensures GuardStable(after, pc)
  {
  }

  /** One statement of a call either leaves the database alone and reaches the guarded point, or
      answers, and then the statement did exactly what the whole call does atomically at that moment.
      The second case covers early returns, a row deleted between check and write, and errors. */
  lemma AdvanceIsAtomicOrSilent(db: Db, pc: Pc, c: Choice)
    requires WellFormed(db) && Active(pc) && GuardStable(db, pc)
    ensures
      var (after, next) := Advance(db, pc, c);
      && next.call == pc.call
      && WellFormed(after) && Evolves(db, after) && GuardStable(after, next)
      && (next.Checked? ==> pc.Invoked? && after == db)
      && (!next.Checked? ==> next.Answered? && (after, next.response) == Atomic(db, pc.call, c))
  {
    ExecEvolves(db, NextStatement(pc, c.newId), c.fault);
    var (after, next) := Advance(db, pc, c);
    if !next.Checked? && pc.call.Delete? && pc.Checked? && !c.fault && pc.call.id !in db.table {
      assert db.table - {pc.call.id} == db.table;
    }
  }

  /** Whoever creates a satellite may change it: no guard stands between a created row and a caller who is
      not the operator. */
  lemma CreatedRowsAreEditable(db: Db, name: string, region: string, c: Choice, newRegion: string, d: Choice)
    requires Atomic(db, Create(name, region), c).1.Returned? && !d.fault
    ensures
      var (created, response) := Atomic(db, Create(name, region), c);
      var (updated, answer) := Atomic(created, Update(response.id, newRegion, false), d);
      var (gone, done) := Atomic(updated, Delete(response.id, false), d);
      && response.row.managedBy == "manual"
      && answer == Returned(response.id, response.row.(region := newRegion))
      && done == Deleted && response.id !in gone.table
  {
  }
}
