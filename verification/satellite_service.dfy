/** repository.go and service.go as objects: statements change the shared database in place, rows are
    scanned into fresh structs, and other connections run between the two statements of a guarded call. */
module SatelliteService {
  import opened Wrappers
  import opened SatelliteTable
  import opened SatelliteCalls

  class Satellite {
    var id: Id
    var name: string
    var region: string
    var status: string
    var managedBy: string
    var lastSeenAt: Option<Instant>
    var createdAt: Instant

    constructor (id: Id, row: Row)
      ensures this.id == id && this.name == row.name && this.region == row.region && this.status == row.status
      ensures this.managedBy == row.managedBy && this.lastSeenAt == row.lastSeenAt && this.createdAt == row.createdAt
    {
      this.id, name, region := id, row.name, row.region;
      status, managedBy := row.status, row.managedBy;
      lastSeenAt, createdAt := row.lastSeenAt, row.createdAt;
    }

    /** The struct has the columns of a row. */
    predicate Holds(id: Id, row: Row)
      reads this
    {
      && this.id == id && name == row.name && region == row.region && status == row.status
      && managedBy == row.managedBy && lastSeenAt == row.lastSeenAt && createdAt == row.createdAt
    }
  }

  /** The (out, err) pair of a repository method says the same as the driver's reply. */
  ghost predicate Scanned(out: Satellite?, err: bool, reply: Reply)
    reads out
  {
    match reply
    case Failed => err && out == null
    case NoRows => !err && out == null
    case OneRow(id, row) => !err && out != null && out.Holds(id, row)
    case Executed => !err && out == null
  }

  /** The row of `id` is not stored any more, every other row is as it was, and no id is free again. */
  ghost predicate RowGone(before: Db, after: Db, id: Id) {
    && id !in after.table
    && (forall other :: other in before.table && other != id ==> other in after.table && after.table[other] == before.table[other])
    && (forall other :: other in after.table ==> other in before.table)
    && after.used == before.used && after.clock == before.clock
  }

  lemma RemovalIsExact(before: Db, after: Db, id: Id)
    ensures RowGone(before, after, id) <==> after == Exec(before, DeleteById(id), false).0
  {
    if RowGone(before, after, id) {
      assert after.table == before.table - {id};
    }
  }

  class PostgresRepository {
    var db: Db

    constructor (db: Db)
      ensures this.db == db
    {
      this.db := db;
    }

    method Query(s: Statement, fault: bool) returns (out: Satellite?, err: bool)
      requires !s.DeleteById?
      modifies `db
      ensures db == Exec(old(db), s, fault).0
      ensures out != null ==> fresh(out)
      ensures Scanned(out, err, Exec(old(db), s, fault).1)
      ensures out != null ==>
                && out.id in db.table
                && var row := db.table[out.id];
                && out.name == row.name && out.region == row.region && out.status == row.status
                && out.managedBy == row.managedBy && out.lastSeenAt == row.lastSeenAt && out.createdAt == row.createdAt
    {
      var (after, reply) := Exec(db, s, fault);
      db, out, err := after, null, reply.Failed?;
      if reply.OneRow? {
        out := new Satellite(reply.id, reply.row);
      }
    }

    method Create(s: Satellite, newId: Id, fault: bool) returns (out: Satellite?, err: bool)
      modifies `db
      ensures var statement := Insert(newId, s.name, s.region, s.status, s.managedBy);
              db == Exec(old(db), statement, fault).0 && Scanned(out, err, Exec(old(db), statement, fault).1)
      ensures out != null ==> fresh(out)
    {
      out, err := Query(Insert(newId, s.name, s.region, s.status, s.managedBy), fault);
    }

    method GetByID(id: Id, fault: bool) returns (out: Satellite?, err: bool)
      modifies `db
      ensures db == old(db) && Scanned(out, err, Exec(db, SelectById(id), fault).1)
      ensures out != null ==> fresh(out)
    {
      out, err := Query(SelectById(id), fault);
    }

    method Update(id: Id, region: string, fault: bool) returns (out: Satellite?, err: bool)
      modifies `db
      ensures db == Exec(old(db), UpdateRegion(id, region), fault).0
      ensures Scanned(out, err, Exec(old(db), UpdateRegion(id, region), fault).1)
      ensures out != null ==> fresh(out)
    {
      out, err := Query(UpdateRegion(id, region), fault);
    }

    /** Unless it fails, the row of that id is gone and no other row is touched, whether or not there was
        one; deleting what is not there is no error. */
    method Delete(id: Id, fault: bool) returns (err: bool)
      modifies `db
      ensures err <==> fault
      ensures err ==> db == old(db)
      ensures !err ==> RowGone(old(db), db, id)
      ensures old(WellFormed(db)) ==> WellFormed(db)
    {
      RemovalIsExact(db, Exec(db, DeleteById(id), fault).0, id);
      var (after, reply) := Exec(db, DeleteById(id), fault);
      db, err := after, reply.Failed?;
    }

    method UpdateHeartbeat(id: Id, fault: bool) returns (out: Satellite?, err: bool)
      modifies `db
      ensures db == Exec(old(db), SatelliteTable.UpdateHeartbeat(id), fault).0
      ensures Scanned(out, err, Exec(old(db), SatelliteTable.UpdateHeartbeat(id), fault).1)
      ensures out != null ==> fresh(out)
    {
      out, err := Query(SatelliteTable.UpdateHeartbeat(id), fault);
    }

    /** The statements that other connections complete before this one continues. */
    method Yield(others: seq<Event>)
      modifies `db
      ensures db == HappenAll(old(db), others)
    {
      for i := 0 to |others|
        invariant db == HappenAll(old(db), others[..i])
      {
        db := Happen(db, others[i]);
        assert others[..i+1][..i] == others[..i];
      }
      assert others[..|others|] == others;
    }
  }

  datatype ServiceError = NoError | ManagedByOperator | Other

  /** The (out, err) pair of a service method says the same as a response of the protocol model. */
  ghost predicate Responds(out: Satellite?, err: ServiceError, response: Response)
    reads out
  {
    match response
    case DbError => err == Other && out == null
    case Forbidden => err == ManagedByOperator && out == null
    case NotFound => err == NoError && out == null
    case Deleted => err == NoError && out == null
    case Returned(id, row) => err == NoError && out != null && out.Holds(id, row)
  }

  class Service {
    const repo: PostgresRepository

    constructor (repo: PostgresRepository)
      ensures this.repo == repo
    {
      this.repo := repo;
    }

    /** Overwrites the caller's status and owner before the insert, so neither can be chosen. It succeeds
        exactly if the statement works and the id and the name are free. */
    method Create(sat: Satellite, c: Choice) returns (out: Satellite?, err: ServiceError)
      modifies sat`status, sat`managedBy, repo`db
      ensures sat.status == "Pending" && sat.managedBy == "manual"
      ensures var (after, response) := Atomic(old(repo.db), Call.Create(sat.name, sat.region), c);
              repo.db == after && Responds(out, err, response)
      ensures err == NoError <==>
                && !c.fault && c.newId !in old(repo.db.used) && c.newId !in old(repo.db.table)
                && forall id :: id in old(repo.db.table) ==> old(repo.db.table)[id].name != sat.name
      ensures err == NoError <==> out != null
      ensures out != null ==>
                && fresh(out) && out.id == c.newId && out.name == sat.name && out.region == sat.region
                && out.status == "Pending" && out.managedBy == "manual"
                && out.lastSeenAt == None && out.createdAt == old(repo.db.clock)
    {
      sat.status := PENDING;
      sat.managedBy := MANUAL;
      var failed: bool;
      out, failed := repo.Create(sat, c.newId, c.fault);
      err := if failed then Other else NoError;
    }

    /** The struct has the stored row's columns, each under its own name. */
    method GetByID(id: Id, c: Choice) returns (out: Satellite?, err: ServiceError)
      modifies repo`db
      ensures var (after, response) := Atomic(old(repo.db), Get(id), c);
              repo.db == after && Responds(out, err, response)
      ensures repo.db == old(repo.db) && (err != NoError <==> c.fault)
      ensures out != null <==> !c.fault && id in repo.db.table
      ensures out != null ==>
                && fresh(out) && out.id == id
                && var row := repo.db.table[id];
                && out.name == row.name && out.region == row.region && out.status == row.status
                && out.managedBy == row.managedBy && out.lastSeenAt == row.lastSeenAt && out.createdAt == row.createdAt
    {
      var failed: bool;
      out, failed := repo.GetByID(id, c.fault);
      err := if failed then Other else NoError;
    }

    /** Whatever other connections did between the check and the write, the outcome is that of the
        whole call executed alone, at the check if it returned early and at the write otherwise. */
    method Update(id: Id, region: string, fromOperator: bool,
                  check: Choice, others: seq<Event>, write: Choice)
      returns (out: Satellite?, err: ServiceError)
      requires WellFormed(repo.db)
      modifies repo`db
      ensures
        var call := Call.Update(id, region, fromOperator);
        var (seen, pc) := Advance(old(repo.db), Invoked(call), check);
        var (start, c) := if pc.Answered? then (old(repo.db), check) else (HappenAll(old(repo.db), others), write);
        var (after, response) := Atomic(start, call, c);
        repo.db == after && Responds(out, err, response)
      ensures out != null ==>
                && fresh(out) && out.id == id && out.region == region && id in repo.db.table
                && var row := repo.db.table[id];
                && row.region == region && out.name == row.name && out.status == row.status
                && out.managedBy == row.managedBy && out.lastSeenAt == row.lastSeenAt && out.createdAt == row.createdAt
                && (out.managedBy == "operator" ==> fromOperator)
    {
      ghost var call := Call.Update(id, region, fromOperator);
      ghost var (_, pc) := Advance(repo.db, Invoked(call), check);
      AdvanceIsAtomicOrSilent(repo.db, Invoked(call), check);
      var sat, failed := repo.GetByID(id, check.fault);
      if failed {
        return null, Other;
      }
      if sat == null {
        return null, NoError;
      }
      if sat.managedBy == OPERATOR && !fromOperator {
        return null, ManagedByOperator;
      }
      HappenAllEvolves(repo.db, others);
      GuardStaysStable(repo.db, HappenAll(repo.db, others), pc);
      repo.Yield(others);
      AdvanceIsAtomicOrSilent(repo.db, pc, write);
      out, failed := repo.Update(id, region, write.fault);
      err := if failed then Other else NoError;
    }

    method Delete(id: Id, fromOperator: bool, check: Choice, others: seq<Event>, write: Choice)
      returns (err: ServiceError)
      requires WellFormed(repo.db)
      modifies repo`db
      ensures
        var call := Call.Delete(id, fromOperator);
        var (seen, pc) := Advance(old(repo.db), Invoked(call), check);
        var (start, c) := if pc.Answered? then (old(repo.db), check) else (HappenAll(old(repo.db), others), write);
        var (after, response) := Atomic(start, call, c);
        repo.db == after && Responds(null, err, response)
    {
      hide WellFormed, Evolves, GuardStable, HappenAll, Atomic, RowGone;
      ghost var call := Call.Delete(id, fromOperator);
      ghost var (_, pc) := Advance(repo.db, Invoked(call), check);
      AdvanceIsAtomicOrSilent(repo.db, Invoked(call), check);
      var sat, failed := repo.GetByID(id, check.fault);
      if failed {
        return Other;
      }
      if sat == null {
        return NoError;
      }
      if sat.managedBy == OPERATOR && !fromOperator {
        return ManagedByOperator;
      }
      HappenAllEvolves(repo.db, others);
      GuardStaysStable(repo.db, HappenAll(repo.db, others), pc);
      repo.Yield(others);
      AdvanceIsAtomicOrSilent(repo.db, pc, write);
      ghost var before := repo.db;
      failed := repo.Delete(id, write.fault);
      RemovalIsExact(before, repo.db, id);
      err := if failed then Other else NoError;
    }

    method Heartbeat(id: Id, c: Choice) returns (out: Satellite?, err: ServiceError)
      modifies repo`db
      ensures var (after, response) := Atomic(old(repo.db), Call.Heartbeat(id), c);
              repo.db == after && Responds(out, err, response)
      ensures out != null <==> !c.fault && id in old(repo.db.table)
      ensures out != null ==>
                && fresh(out) && out.id == id && id in repo.db.table
                && var row := repo.db.table[id];
                && out.status == row.status == "Ready" && out.lastSeenAt == row.lastSeenAt == Some(repo.db.clock)
                && out.name == row.name && out.region == row.region
                && out.managedBy == row.managedBy && out.createdAt == row.createdAt
    {
      var failed: bool;
      out, failed := repo.UpdateHeartbeat(id, c.fault);
      err := if failed then Other else NoError;
    }
  }
}
