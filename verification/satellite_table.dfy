/** The `satellites` table and the SQL statements of PostgresRepository, one atomic step each.
    The table is a map from primary key to row; `used` remembers every key ever handed out, because
    gen_random_uuid() never repeats one; `clock` is what NOW() returns. */
module SatelliteTable {
  import opened Wrappers

  type Id = nat
  type Instant = nat

  const PENDING := "Pending"
  const READY := "Ready"
  const MANUAL := "manual"
  const OPERATOR := "operator"

  datatype Row = Row(name: string, region: string, status: string, managedBy: string,
                     lastSeenAt: Option<Instant>, createdAt: Instant)

  datatype Db = Db(table: map<Id, Row>, used: set<Id>, clock: Instant)

  datatype Statement =
    | Insert(newId: Id, name: string, region: string, status: string, managedBy: string)
    | SelectById(id: Id)
    | UpdateRegion(id: Id, region: string)
    | DeleteById(id: Id)
    | UpdateHeartbeat(id: Id)

  /** What the driver hands back: an error, pgx.ErrNoRows, one scanned row, or a command tag. */
  datatype Reply = Failed | NoRows | OneRow(id: Id, row: Row) | Executed

  /** Something that happens at the database: a statement of some connection, or time passing. */
  datatype Event = Sql(statement: Statement) | Elapse(d: nat)

  predicate NameTaken(table: map<Id, Row>, name: string) {
    exists id :: id in table && table[id].name == name
  }

  /** One statement. A failing statement (`fault`, or a violated constraint) changes nothing. */
  function Exec(db: Db, s: Statement, fault: bool): (Db, Reply) {
    if fault then (db, Failed)
    else match s
      case Insert(id, name, region, status, managedBy) =>
        if id in db.used || id in db.table || NameTaken(db.table, name) then (db, Failed)
        else
          var row := Row(name, region, status, managedBy, None, db.clock);
          (db.(table := db.table[id := row], used := db.used + {id}), OneRow(id, row))
      case SelectById(id) =>
        (db, if id in db.table then OneRow(id, db.table[id]) else NoRows)
      case UpdateRegion(id, region) =>
        if id !in db.table then (db, NoRows)
        else
          var row := db.table[id].(region := region);
          (db.(table := db.table[id := row]), OneRow(id, row))
      case DeleteById(id) =>
        (db.(table := db.table - {id}), Executed)
      case UpdateHeartbeat(id) =>
        if id !in db.table then (db, NoRows)
        else
          var row := db.table[id].(status := READY, lastSeenAt := Some(db.clock));
          (db.(table := db.table[id := row]), OneRow(id, row))
  }

  function Happen(db: Db, e: Event): Db {
    match e
    case Sql(s) => Exec(db, s, false).0
    case Elapse(d) => db.(clock := db.clock + d)
  }

  function HappenAll(db: Db, es: seq<Event>): Db {
    if es == [] then db else Happen(HappenAll(db, es[..|es|-1]), es[|es|-1])
  }

  /** Every stored key was handed out, and names are unique (the two constraints of the schema). */
  ghost predicate WellFormed(db: Db) {
    && db.table.Keys <= db.used
    && forall i, j :: i in db.table && j in db.table && db.table[i].name == db.table[j].name ==> i == j
  }

  /** What one connection may rely on while others work: the clock and the set of used keys only grow,
      and a key that was handed out keeps its name, owner and creation time for as long as it is stored,
      and never comes back once it is gone. */
  ghost predicate Evolves(before: Db, after: Db) {
    && before.used <= after.used
    && before.clock <= after.clock
    && forall id :: id in before.used && id in after.table ==>
         id in before.table && SameIdentity(before.table[id], after.table[id])
  }

  predicate SameIdentity(a: Row, b: Row) {
    a.name == b.name && a.managedBy == b.managedBy && a.createdAt == b.createdAt
  }

  lemma ExecEvolves(db: Db, s: Statement, fault: bool)
    requires WellFormed(db)
    ensures WellFormed(Exec(db, s, fault).0) && Evolves(db, Exec(db, s, fault).0)
  {
  }

  lemma {:induction false} HappenAllEvolves(db: Db, es: seq<Event>)
    requires WellFormed(db)
    ensures WellFormed(HappenAll(db, es)) && Evolves(db, HappenAll(db, es))
  {
    if es != [] {
      var mid := HappenAll(db, es[..|es|-1]);
      HappenAllEvolves(db, es[..|es|-1]);
      match es[|es|-1]
      case Sql(s) => ExecEvolves(mid, s, false);
      case Elapse(_) =>
    }
  }

  /** No statement can undo another's write to a different column: a region update and a heartbeat,
      on the same row or on different rows, leave the same database in either order. */
  lemma UpdateAndHeartbeatCommute(db: Db, i: Id, region: string, j: Id)
    ensures
      var updateFirst := Exec(Exec(db, UpdateRegion(i, region), false).0, UpdateHeartbeat(j), false).0;
      var heartbeatFirst := Exec(Exec(db, UpdateHeartbeat(j), false).0, UpdateRegion(i, region), false).0;
      updateFirst == heartbeatFirst
  {
    var a := Exec(Exec(db, UpdateRegion(i, region), false).0, UpdateHeartbeat(j), false).0;
    var b := Exec(Exec(db, UpdateHeartbeat(j), false).0, UpdateRegion(i, region), false).0;
    assert a.table == b.table;
  }
}
