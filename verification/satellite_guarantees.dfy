/** What the linearization buys: facts about whole interleaved runs, proved on the equivalent sequential
    history and carried back to the run. */
module SatelliteGuarantees {
  import opened Wrappers
  import opened SatelliteTable
  import opened SatelliteCalls
  import opened SatelliteProtocol

  // ---- Ownership ----

  predicate ActsAsOperatorOn(call: Call, id: Id) {
    Guarded(call) && call.id == id && call.fromOperator
  }

  /** Everything in the history was asked for: an effect belongs to a call that was made in the run. */
  lemma {:induction false} EffectsWereInvoked(s: State, ls: seq<Label>)
    requires s.calls == map[] && Runs(s, ls)
    ensures forall tid :: tid in Final(s, ls).calls ==> Invoke(tid, Final(s, ls).calls[tid].call) in ls
    ensures forall e :: e in History(s, ls) && e.Effect? ==> Invoke(e.tid, e.call) in ls
  {
    if ls != [] {
      var before, l := ls[..|ls|-1], ls[|ls|-1];
      EffectsWereInvoked(s, before);
      assert ls == before + [l];
      assert forall x :: x in before ==> x in ls;
      assert forall tid :: tid in Final(s, ls).calls ==>
        (tid in Final(s, before).calls && Final(s, ls).calls[tid].call == Final(s, before).calls[tid].call)
        || l == Invoke(tid, Final(s, ls).calls[tid].call);
      forall e | e in History(s, ls) && e.Effect? ensures Invoke(e.tid, e.call) in ls {
        if e !in History(s, before) {
          assert e in Effects(Final(s, before), l);
          assert e.call == Final(s, before).calls[e.tid].call;
        }
      }
    }
  }

  /** Whether a call can do harm to an operator-owned row with this id and region: it claims to be the
      operator's, and deletes the row or gives it another region. */
  predicate CanHarm(call: Call, id: Id, region: string) {
    ActsAsOperatorOn(call, id) && !(call.Update? && call.region == region)
  }

  lemma {:induction false} OwnedRowKept(db: Db, h: seq<Entry>, id: Id)
    requires id in db.table && db.table[id].managedBy == OPERATOR && db.table.Keys <= db.used
    requires forall e :: e in h && e.Effect? ==> !CanHarm(e.call, id, db.table[id].region)
    ensures id in Replay(db, h).table && id in Replay(db, h).used
    ensures SameIdentity(db.table[id], Replay(db, h).table[id])
    ensures Replay(db, h).table[id].region == db.table[id].region
  {
    if h != [] {
      assert h[|h|-1] in h && forall e :: e in h[..|h|-1] ==> e in h;
      OwnedRowKept(db, h[..|h|-1], id);
    }
  }

  /** The row is still there at the end of the run, with its region, name, owner and creation time. */
  ghost predicate RowSurvives(s: State, ls: seq<Label>, id: Id)
    requires id in s.db.table && Runs(s, ls)
  {
    var final := Final(s, ls).db.table;
    id in final && SameIdentity(s.db.table[id], final[id]) && final[id].region == s.db.table[id].region
  }

  /** The ownership rule over whole runs. Start from any table and interleave any calls: an
      operator-owned row survives every run in which no call can harm it, although check and write are
      separate statements. */
  lemma OperatorRowsAreSafe(s: State, ls: seq<Label>, id: Id)
    requires AtRest(s) && Runs(s, ls)
    requires id in s.db.table && s.db.table[id].managedBy == OPERATOR
    requires forall l :: l in ls && l.Invoke? ==> !CanHarm(l.call, id, s.db.table[id].region)
    ensures RowSurvives(s, ls, id)
  {
    Linearizable(s, ls);
    EffectsWereInvoked(s, ls);
    OwnedRowKept(s.db, History(s, ls), id);
  }

  /** Nothing weaker will do: a call that can harm the row does so when it runs alone. */
  lemma HarmfulCallHarms(s: State, id: Id, call: Call) returns (ls: seq<Label>)
    requires AtRest(s) && id in s.db.table && s.db.table[id].managedBy == OPERATOR
    requires CanHarm(call, id, s.db.table[id].region)
    ensures Runs(s, ls) && ls == [Invoke(0, call), Statement(0, Choice(0, false)), Statement(0, Choice(0, false))]
    ensures !RowSurvives(s, ls, id)
  {
    var a, b := Invoke(0, call), Statement(0, Choice(0, false));
    RunSnoc(s, [], a);
    RunSnoc(s, [a], b);
    RunSnoc(s, [a, b], b);
    assert [] + [a] == [a] && [a] + [b] == [a, b] && [a, b] + [b] == [a, b, b];
    ls := [a, b, b];
  }

  ghost predicate InvokesOnly(ls: seq<Label>, calls: iset<Call>) {
    forall l :: l in ls && l.Invoke? ==> l.call in calls
  }

  /** When the documented promise holds: for an operator-owned row and any set of calls that clients may
      make, the row survives every interleaving of every number of such calls if and only if none of them
      claims to be the operator's, short of an update to the region the row has already. */
  lemma OwnershipHoldsExactly(s: State, id: Id, calls: iset<Call>)
    requires AtRest(s) && id in s.db.table && s.db.table[id].managedBy == OPERATOR
    ensures (forall ls :: Runs(s, ls) && InvokesOnly(ls, calls) ==> RowSurvives(s, ls, id)) <==>
            (forall call :: call in calls && ActsAsOperatorOn(call, id) ==>
               call.Update? && call.region == s.db.table[id].region)
  {
    if harmful :| harmful in calls && CanHarm(harmful, id, s.db.table[id].region) {
      var ls := HarmfulCallHarms(s, id, harmful);
      assert InvokesOnly(ls, calls);
    } else {
      forall ls | Runs(s, ls) && InvokesOnly(ls, calls) ensures RowSurvives(s, ls, id) {
        OperatorRowsAreSafe(s, ls, id);
      }
      assert forall call :: call in calls ==> !CanHarm(call, id, s.db.table[id].region);
    }
  }

  lemma RunSnoc(s: State, ls: seq<Label>, l: Label)
    requires Runs(s, ls) && Enabled(Final(s, ls), l)
    ensures Runs(s, ls + [l]) && Final(s, ls + [l]) == Apply(Final(s, ls), l)
  {
    assert (ls + [l])[..|ls|] == ls;
  }

  // ---- Refusals ----

  lemma {:induction false} LegalAt(db: Db, h: seq<Entry>, p: nat)
    requires Legal(db, h) && p < |h| && h[p].Effect?
    ensures h[p].response == Atomic(Replay(db, h[..p]), h[p].call, h[p].choice).1
    decreases |h|
  {
    if p < |h| - 1 {
      LegalAt(db, h[..|h|-1], p);
      assert h[..|h|-1][..p] == h[..p];
    }
  }

  /** No call makes a row the operator's. */
  lemma {:induction false} OperatorRowsAreOld(db: Db, h: seq<Entry>, id: Id)
    requires id in Replay(db, h).table && Replay(db, h).table[id].managedBy == "operator"
    ensures id in db.table && db.table[id].managedBy == "operator"
  {
    if h != [] {
      OperatorRowsAreOld(db, h[..|h|-1], id);
    }
  }

  /** When a call is refused. In the history of every run, an update or delete is refused exactly if it
      does not claim to be the operator's and the row it finds is operator-owned; such a row was there,
      and was the operator's, when the run began. */
  lemma RefusalsAreExact(s: State, ls: seq<Label>, p: nat)
    requires AtRest(s) && Runs(s, ls) && p < |History(s, ls)| && History(s, ls)[p].Effect?
    ensures
      var e, before := History(s, ls)[p], Replay(s.db, History(s, ls)[..p]).table;
      && (e.response == Forbidden <==>
            && !e.choice.fault && (e.call.Update? || e.call.Delete?) && !e.call.fromOperator
            && e.call.id in before && before[e.call.id].managedBy == "operator")
      && (e.response == Forbidden ==> e.call.id in s.db.table && s.db.table[e.call.id].managedBy == "operator")
  {
    Linearizable(s, ls);
    var h := History(s, ls);
    LegalAt(s.db, h, p);
    if h[p].response == Forbidden {
      OperatorRowsAreOld(s.db, h[..p], h[p].call.id);
    }
  }

  lemma {:induction false} EffectsAreEntries(h: seq<Entry>, tid: CallId)
    ensures forall e :: e in EffectsOf(h, tid) ==> e in h && e.Effect? && e.tid == tid
  {
    if h != [] {
      EffectsAreEntries(h[..|h|-1], tid);
      assert forall e :: e in h[..|h|-1] ==> e in h;
    }
  }

  /** A satellite that was created in a run, by anyone, never makes a call come back refused. */
  lemma CreatedRowsNeverRefuse(s: State, ls: seq<Label>, tid: CallId)
    requires AtRest(s) && Runs(s, ls) && HasAnswer(Final(s, ls), tid)
    requires Final(s, ls).calls[tid].response == Forbidden
    ensures
      var call := Final(s, ls).calls[tid].call;
      && (call.Update? || call.Delete?) && !call.fromOperator
      && call.id in s.db.table && s.db.table[call.id].managedBy == "operator"
  {
    hide Legal, Replay, EffectsOf;
    Linearizable(s, ls);
    var h := History(s, ls);
    assert Accounted(Final(s, ls), h, tid);
    var e := EffectsOf(h, tid)[0];
    EffectsAreEntries(h, tid);
    assert e in EffectsOf(h, tid);
    var p :| 0 <= p < |h| && h[p] == e;
    RefusalsAreExact(s, ls, p);
  }

  // ---- Each column belongs to its last writer ----

  predicate Creates(e: Entry, id: Id) {
    e.Effect? && e.call.Create? && e.response.Returned? && e.response.id == id
  }

  predicate Removes(e: Entry, id: Id) {
    e.Effect? && e.call.Delete? && e.call.id == id && e.response == Deleted
  }

  predicate Regions(e: Entry, id: Id) {
    e.Effect? && e.call.Update? && e.call.id == id && e.response.Returned?
  }

  predicate Beats(e: Entry, id: Id) {
    e.Effect? && e.call.Heartbeat? && e.call.id == id && e.response.Returned?
  }

  function ClockAfter(start: Instant, h: seq<Entry>): Instant {
    if h == [] then start
    else ClockAfter(start, h[..|h|-1]) + (if h[|h|-1].Tick? then h[|h|-1].d else 0)
  }

  predicate Stored(db: Db, h: seq<Entry>, id: Id) {
    if h == [] then id in db.table
    else if Creates(h[|h|-1], id) then true
    else if Removes(h[|h|-1], id) then false
    else Stored(db, h[..|h|-1], id)
  }

  /** The region given by the last successful Update, or else by the Create, or else the initial one. */
  function LastRegion(db: Db, h: seq<Entry>, id: Id): string
    requires Stored(db, h, id)
  {
    if h == [] then db.table[id].region
    else if Creates(h[|h|-1], id) || Regions(h[|h|-1], id) then h[|h|-1].call.region
    else LastRegion(db, h[..|h|-1], id)
  }

  /** Status and last_seen_at given by the last successful heartbeat, or the values of a new row. */
  function LastLiveness(db: Db, h: seq<Entry>, id: Id): (string, Option<Instant>)
    requires Stored(db, h, id)
  {
    if h == [] then (db.table[id].status, db.table[id].lastSeenAt)
    else if Creates(h[|h|-1], id) then (PENDING, None)
    else if Beats(h[|h|-1], id) then (READY, Some(ClockAfter(db.clock, h)))
    else LastLiveness(db, h[..|h|-1], id)
  }

  /** Name, owner and creation time, which only the insert writes. */
  function Birth(db: Db, h: seq<Entry>, id: Id): (string, string, Instant)
    requires Stored(db, h, id)
  {
    if h == [] then (db.table[id].name, db.table[id].managedBy, db.table[id].createdAt)
    else if Creates(h[|h|-1], id) then (h[|h|-1].call.name, MANUAL, ClockAfter(db.clock, h))
    else Birth(db, h[..|h|-1], id)
  }

  lemma {:induction false} ReplayIsLastWriter(db: Db, h: seq<Entry>, id: Id)
    requires Legal(db, h)
    ensures Replay(db, h).clock == ClockAfter(db.clock, h)
    ensures id in Replay(db, h).table <==> Stored(db, h, id)
    ensures Stored(db, h, id) ==>
              var row := Replay(db, h).table[id];
              && row.region == LastRegion(db, h, id)
              && (row.status, row.lastSeenAt) == LastLiveness(db, h, id)
              && (row.name, row.managedBy, row.createdAt) == Birth(db, h, id)
  {
    if h != [] {
      ReplayIsLastWriter(db, h[..|h|-1], id);
    }
  }

  /** No lost updates. After any interleaving, a row is stored exactly if it was created (or there from
      the start) and not removed since, and each of its columns is what its last writer gave it: region
      by Update alone, status and last_seen_at by Heartbeat alone, the rest by the insert alone. */
  lemma LastWriterWins(s: State, ls: seq<Label>, id: Id)
    requires AtRest(s) && Runs(s, ls)
    ensures
      var h, final := History(s, ls), Final(s, ls).db;
      && (id in final.table <==> Stored(s.db, h, id))
      && (id in final.table ==>
            && final.table[id].region == LastRegion(s.db, h, id)
            && (final.table[id].status, final.table[id].lastSeenAt) == LastLiveness(s.db, h, id)
            && (final.table[id].name, final.table[id].managedBy, final.table[id].createdAt) == Birth(s.db, h, id))
  {
    Linearizable(s, ls);
    ReplayIsLastWriter(s.db, History(s, ls), id);
  }

  // ---- The table invariant ----

  /** Pending exactly until the first heartbeat, Ready ever after, and times in order. */
  predicate RowConsistent(row: Row, clock: Instant) {
    && row.createdAt <= clock
    && (row.status == PENDING <==> row.lastSeenAt == None)
    && (row.status == READY <==> row.lastSeenAt.Some?)
    && (row.lastSeenAt.Some? ==> row.createdAt <= row.lastSeenAt.value <= clock)
  }

  ghost predicate Consistent(db: Db) {
    WellFormed(db) && forall id :: id in db.table ==> RowConsistent(db.table[id], db.clock)
  }

  /** A row that is Ready and still stored later is still Ready then. */
  ghost predicate NeverPendingAgain(before: Db, after: Db) {
    && before.table.Keys <= before.used <= after.used
    && forall id :: id in before.used && id in after.table ==>
         id in before.table && (before.table[id].status == READY ==> after.table[id].status == READY)
  }

  lemma AtomicKeepsRows(db: Db, call: Call, c: Choice)
    requires Consistent(db)
    ensures forall id :: id in Atomic(db, call, c).0.table ==>
              RowConsistent(Atomic(db, call, c).0.table[id], Atomic(db, call, c).0.clock)
  {
    hide WellFormed;
    var after := Atomic(db, call, c).0;
    forall id | id in after.table ensures RowConsistent(after.table[id], after.clock) {
      if id in db.table {
        assert RowConsistent(db.table[id], db.clock);
      }
    }
  }

  lemma AtomicKeepsReady(db: Db, call: Call, c: Choice)
    requires db.table.Keys <= db.used
    ensures NeverPendingAgain(db, Atomic(db, call, c).0)
  {
  }

  lemma AtomicKeepsWellFormed(db: Db, call: Call, c: Choice)
    requires WellFormed(db)
    ensures WellFormed(Atomic(db, call, c).0)
  {
  }

  lemma AtomicKeepsConsistent(db: Db, call: Call, c: Choice)
    requires Consistent(db)
    ensures Consistent(Atomic(db, call, c).0) && NeverPendingAgain(db, Atomic(db, call, c).0)
  {
    hide Atomic, RowConsistent, NeverPendingAgain;
    AtomicKeepsRows(db, call, c);
    AtomicKeepsWellFormed(db, call, c);
    AtomicKeepsReady(db, call, c);
  }

  lemma {:induction false} ReplayKeepsConsistent(db: Db, h: seq<Entry>)
    requires Consistent(db)
    ensures Consistent(Replay(db, h)) && NeverPendingAgain(db, Replay(db, h))
  {
    if h != [] {
      ReplayKeepsConsistent(db, h[..|h|-1]);
      var mid, e := Replay(db, h[..|h|-1]), h[|h|-1];
      match e
      case Effect(_, call, choice, _) => AtomicKeepsConsistent(mid, call, choice);
      case Tick(_) =>
        assert forall id :: id in mid.table ==> RowConsistent(mid.table[id], mid.clock);
    }
  }

  /** In every run, ids and names stay unique, a row is Pending exactly while last_seen_at is null and
      Ready otherwise, created_at <= last_seen_at <= now, and no row ever goes back to Pending. The
      empty table is one possible start. */
  lemma TableStaysConsistent(s: State, ls: seq<Label>)
    requires s.calls == map[] && Consistent(s.db) && Runs(s, ls)
    ensures Consistent(Final(s, ls).db)
    ensures NeverPendingAgain(s.db, Final(s, ls).db)
  {
    Linearizable(s, ls);
    ReplayKeepsConsistent(s.db, History(s, ls));
  }
}
