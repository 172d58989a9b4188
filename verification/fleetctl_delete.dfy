/** `fleetctl satellite delete` over the server: a GET through the API, a guard in the client, then a
    DELETE through the API, interleaved with any other calls and with other fleetctl processes. */
module FleetctlDelete {
  import opened Wrappers
  import opened SatelliteTable
  import opened SatelliteCalls
  import opened SatelliteProtocol
  import opened SatelliteGuarantees

  type CliId = nat

  datatype Outcome = ApiError | ManagedByOperator | SatelliteDeleted

  /** `get` and `del` are the server calls behind the two requests; a process that has exited keeps the
      second one in `sent`, if it made it. */
  datatype Cli =
    | Getting(id: Id, get: CallId)
    | Deleting(id: Id, get: CallId, seen: Row, del: CallId)
    | Exited(id: Id, get: CallId, sent: Option<CallId>, outcome: Outcome)

  datatype Fleet = Fleet(server: State, clis: map<CliId, Cli>)

  datatype Step =
    | Server(move: Label)
    | Start(cli: CliId, id: Id, get: CallId)
    | Check(cli: CliId, del: CallId)
    | End(cli: CliId)

  predicate Ready(f: Fleet, cli: CliId, tid: CallId) {
    tid in f.server.calls && f.server.calls[tid].Finished?
  }

  predicate CanStep(f: Fleet, step: Step) {
    match step
    case Server(l) => Enabled(f.server, l)
    case Start(cli, _, get) => cli !in f.clis && get !in f.server.calls
    case Check(cli, del) =>
      cli in f.clis && f.clis[cli].Getting? && Ready(f, cli, f.clis[cli].get) && del !in f.server.calls
    case End(cli) => cli in f.clis && f.clis[cli].Deleting? && Ready(f, cli, f.clis[cli].del)
  }

  /** The server call a step makes, if any. */
  function Request(f: Fleet, step: Step): seq<Label>
    requires CanStep(f, step)
  {
    match step
    case Server(l) => [l]
    case Start(_, id, get) => [Invoke(get, Get(id))]
    case Check(cli, del) =>
      var response := f.server.calls[f.clis[cli].get].response;
      if response.Returned? && response.row.managedBy != OPERATOR then [Invoke(del, Delete(f.clis[cli].id, false))]
      else []
    case End(_) => []
  }

  function Move(f: Fleet, step: Step): Fleet
    requires CanStep(f, step)
  {
    var request := Request(f, step);
    var server := if request == [] then f.server else Apply(f.server, request[0]);
    match step
    case Server(_) => f.(server := server)
    case Start(cli, id, get) => Fleet(server, f.clis[cli := Getting(id, get)])
    case Check(cli, del) =>
      var response := f.server.calls[f.clis[cli].get].response;
      var next :=
        if !response.Returned? then Exited(f.clis[cli].id, f.clis[cli].get, None, ApiError)
        else if response.row.managedBy == OPERATOR then Exited(f.clis[cli].id, f.clis[cli].get, None, ManagedByOperator)
        else Deleting(f.clis[cli].id, f.clis[cli].get, response.row, del);
      Fleet(server, f.clis[cli := next])
    case End(cli) =>
      var response := f.server.calls[f.clis[cli].del].response;
      var outcome := if response == Deleted then SatelliteDeleted else ApiError;
      Fleet(server, f.clis[cli := Exited(f.clis[cli].id, f.clis[cli].get, Some(f.clis[cli].del), outcome)])
  }

  predicate FleetRuns(f: Fleet, steps: seq<Step>)
    decreases |steps|, 0
  {
    steps == [] || (FleetRuns(f, steps[..|steps|-1]) && CanStep(FleetFinal(f, steps[..|steps|-1]), steps[|steps|-1]))
  }

  function FleetFinal(f: Fleet, steps: seq<Step>): Fleet
    requires FleetRuns(f, steps)
    decreases |steps|, 1
  {
    if steps == [] then f else Move(FleetFinal(f, steps[..|steps|-1]), steps[|steps|-1])
  }

  /** The row a client once saw under this id is gone for good, or still has the owner it had. */
  ghost predicate OwnerStands(db: Db, id: Id, owner: string) {
    id in db.used && (id in db.table ==> db.table[id].managedBy == owner)
  }

  ghost predicate CliInv(server: State, cli: Cli) {
    match cli
    case Getting(id, get) =>
      && get in server.calls
      && server.calls[get].call == Get(id)
      && !server.calls[get].Checked?
      && (HasAnswer(server, get) && server.calls[get].response.Returned? ==>
            server.calls[get].response.id == id && OwnerStands(server.db, id, server.calls[get].response.row.managedBy))
    case Deleting(id, get, seen, del) =>
      && Got(server, id, get) && server.calls[get].response == Returned(id, seen)
      && del in server.calls
      && server.calls[del].call == Delete(id, false)
      && seen.managedBy != OPERATOR
      && OwnerStands(server.db, id, seen.managedBy)
      && (HasAnswer(server, del) ==> server.calls[del].response != Forbidden)
      && (HasAnswer(server, del) && server.calls[del].response == Deleted ==> id !in server.db.table)
    case Exited(id, get, None, outcome) =>
      && Got(server, id, get)
      && var response := server.calls[get].response;
      && (outcome == ManagedByOperator <==> response.Returned? && response.row.managedBy == "operator")
      && (outcome == ApiError <==> !response.Returned?)
    case Exited(id, get, Some(del), outcome) =>
      && Got(server, id, get)
      && var response := server.calls[get].response;
      && response.Returned? && response.row.managedBy != "operator"
      && del in server.calls && server.calls[del].call == Delete(id, false) && server.calls[del].Finished?
      && (outcome == SatelliteDeleted <==> server.calls[del].response == Deleted)
      && (outcome == ApiError <==> server.calls[del].response != Deleted)
      && (outcome == SatelliteDeleted ==> id in server.db.used && id !in server.db.table)
  }

  /** The answer to the GET has arrived. */
  predicate Got(server: State, id: Id, get: CallId) {
    get in server.calls && server.calls[get].call == Get(id) && server.calls[get].Finished?
  }

  ghost predicate FleetInv(f: Fleet) {
    Inv(f.server) && forall cli :: cli in f.clis ==> CliInv(f.server, f.clis[cli])
  }

  lemma ServerKeepsCli(s: State, l: Label, cli: Cli)
    requires Inv(s) && Enabled(s, l) && CliInv(s, cli)
    ensures CliInv(Apply(s, l), cli)
  {
    StepKeepsInv(s, l);
    var next := Apply(s, l);
    match cli
    case Exited(_, _, _, _) =>
    case Getting(id, get) => {
      if l.Statement? && l.tid == get {
        assert next.calls[get] == Advance(s.db, s.calls[get], l.choice).1;
      }
    }
    case Deleting(id, _, seen, del) => {
      if l.Statement? && l.tid == del {
        assert next.calls[del] == Advance(s.db, s.calls[del], l.choice).1;
      }
    }
  }

  lemma MoveKeepsInv(f: Fleet, step: Step)
    requires FleetInv(f) && CanStep(f, step)
    ensures FleetInv(Move(f, step))
  {
    var request := Request(f, step);
    if request != [] {
      StepKeepsInv(f.server, request[0]);
      forall cli | cli in f.clis ensures CliInv(Move(f, step).server, f.clis[cli]) {
        ServerKeepsCli(f.server, request[0], f.clis[cli]);
      }
    }
  }

  /** The server's side of one step. */
  lemma ServerStep(s: State, init: seq<Label>, f: Fleet, step: Step) returns (ls: seq<Label>)
    requires Runs(s, init) && Final(s, init) == f.server && CanStep(f, step)
    ensures Runs(s, ls) && Final(s, ls) == Move(f, step).server
    ensures forall l :: l in ls ==> l in init || step == Server(l) || Unprivileged(l)
  {
    var request := Request(f, step);
    ls := init + request;
    if request == [] {
      assert ls == init;
    } else {
      assert ls[..|ls|-1] == init && ls[|ls|-1] == request[0];
    }
  }

  /** A call that does not claim to be the operator's. */
  predicate Unprivileged(l: Label) {
    l.Invoke? && !(Guarded(l.call) && l.call.fromOperator)
  }

  /** The server's side of a fleet run is a run of the server. */
  lemma {:induction false} ServerRun(f: Fleet, steps: seq<Step>) returns (ls: seq<Label>)
    requires FleetRuns(f, steps)
    ensures Runs(f.server, ls) && Final(f.server, ls) == FleetFinal(f, steps).server
    ensures forall l :: l in ls ==> Server(l) in steps || Unprivileged(l)
  {
    hide Move, Request, CanStep, Runs, Final, Unprivileged;
    if steps == [] {
      ls := [];
      EmptyRun(f.server);
    } else {
      var before, step := steps[..|steps|-1], steps[|steps|-1];
      var init := ServerRun(f, before);
      ls := ServerStep(f.server, init, FleetFinal(f, before), step);
      assert steps == before + [step];
    }
  }

  lemma EmptyRun(s: State)
    ensures Runs(s, []) && Final(s, []) == s
  {
  }

  lemma {:induction false} FleetRunKeepsInv(f: Fleet, steps: seq<Step>)
    requires AtRest(f.server) && f.clis == map[] && FleetRuns(f, steps)
    ensures FleetInv(FleetFinal(f, steps))
  {
    if steps != [] {
      FleetRunKeepsInv(f, steps[..|steps|-1]);
      MoveKeepsInv(FleetFinal(f, steps[..|steps|-1]), steps[|steps|-1]);
    }
  }

  /** The two guards agree. Whenever fleetctl is past its own check, the row it is about to delete is
      not operator-owned in the database either, and the server never answers the DELETE with
      "managed by operator". */
  lemma ClientAndServerGuardsAgree(f: Fleet, steps: seq<Step>, cli: CliId)
    requires AtRest(f.server) && f.clis == map[] && FleetRuns(f, steps)
    requires cli in FleetFinal(f, steps).clis && FleetFinal(f, steps).clis[cli].Deleting?
    ensures
      var now := FleetFinal(f, steps);
      var id, del := now.clis[cli].id, now.clis[cli].del;
      && (id in now.server.db.table ==> now.server.db.table[id].managedBy != OPERATOR)
      && (HasAnswer(now.server, del) ==> now.server.calls[del].response != Forbidden)
  {
    FleetRunKeepsInv(f, steps);
  }

  /** What fleetctl reports is what happened. In every run, and for as long as it goes on after the process
      has exited: "deleted" means that its DELETE was answered so and that the satellite is gone for good;
      "managed by the Operator" means that the GET returned an operator-owned row and no DELETE was sent;
      and an error means that one of the two requests was not answered with success. */
  lemma ExitTellsOutcome(f: Fleet, steps: seq<Step>, cli: CliId)
    requires AtRest(f.server) && f.clis == map[] && FleetRuns(f, steps)
    requires cli in FleetFinal(f, steps).clis && FleetFinal(f, steps).clis[cli].Exited?
    ensures
      var server, exit := FleetFinal(f, steps).server, FleetFinal(f, steps).clis[cli];
      && exit.get in server.calls && server.calls[exit.get].call == Get(exit.id) && server.calls[exit.get].Finished?
      && (exit.sent.Some? ==>
            && exit.sent.value in server.calls && server.calls[exit.sent.value].call == Delete(exit.id, false)
            && server.calls[exit.sent.value].Finished?)
      && var seen := server.calls[exit.get].response;
      && var deleted := exit.sent.Some? && server.calls[exit.sent.value].response == Deleted;
      && (exit.outcome == SatelliteDeleted <==> deleted)
      && (deleted ==> exit.id !in server.db.table)
      && (exit.outcome == ManagedByOperator <==> seen.Returned? && seen.row.managedBy == "operator")
      && (exit.sent.Some? <==> seen.Returned? && seen.row.managedBy != "operator")
  {
    FleetRunKeepsInv(f, steps);
  }

  /** The server calls that a process has made. */
  predicate Made(cli: Cli, tid: CallId) {
    || cli.get == tid
    || (cli.Deleting? && cli.del == tid)
    || (cli.Exited? && cli.sent == Some(tid))
  }

  /** No request goes unreported: every call at the server was made by another client or is one of the two
      that a process has on record. So a process that reports an operator-owned row has sent no DELETE. */
  lemma {:induction false} EveryCallIsOnRecord(f: Fleet, steps: seq<Step>, tid: CallId)
    requires AtRest(f.server) && f.clis == map[] && FleetRuns(f, steps)
    requires tid in FleetFinal(f, steps).server.calls
    ensures
      || Server(Invoke(tid, FleetFinal(f, steps).server.calls[tid].call)) in steps
      || exists cli :: cli in FleetFinal(f, steps).clis && Made(FleetFinal(f, steps).clis[cli], tid)
  {
    if steps != [] {
      var init, step := steps[..|steps|-1], steps[|steps|-1];
      var before, after := FleetFinal(f, init), FleetFinal(f, steps);
      assert steps == init + [step];
      FleetRunKeepsInv(f, init);
      if tid in before.server.calls {
        EveryCallIsOnRecord(f, init, tid);
        CallsKeep(before, step, tid);
        if cli :| cli in before.clis && Made(before.clis[cli], tid) {
          assert cli in after.clis && Made(after.clis[cli], tid);
        }
      } else {
        NewCallIsMade(before, step, tid);
      }
    }
  }

  lemma CallsKeep(f: Fleet, step: Step, tid: CallId)
    requires FleetInv(f) && CanStep(f, step) && tid in f.server.calls
    ensures tid in Move(f, step).server.calls && Move(f, step).server.calls[tid].call == f.server.calls[tid].call
    ensures forall cli :: cli in f.clis && Made(f.clis[cli], tid) ==>
              cli in Move(f, step).clis && Made(Move(f, step).clis[cli], tid)
  {
    var request := Request(f, step);
    if request != [] && request[0].Statement? {
      AdvanceIsAtomicOrSilent(f.server.db, f.server.calls[request[0].tid], request[0].choice);
    }
  }

  lemma NewCallIsMade(f: Fleet, step: Step, tid: CallId)
    requires CanStep(f, step) && tid !in f.server.calls && tid in Move(f, step).server.calls
    ensures
      || step == Server(Invoke(tid, Move(f, step).server.calls[tid].call))
      || exists cli :: cli in Move(f, step).clis && Made(Move(f, step).clis[cli], tid)
  {
    if step.Start? || step.Check? {
      assert step.cli in Move(f, step).clis && Made(Move(f, step).clis[step.cli], tid);
    }
  }

  /** No fleetctl process removes or changes an operator-owned row: whatever fleetctl does, such a row
      survives every run in which no other caller makes a call that can harm it. */
  lemma CliCannotRemoveOperatorRows(f: Fleet, steps: seq<Step>, id: Id)
    requires AtRest(f.server) && f.clis == map[] && FleetRuns(f, steps)
    requires id in f.server.db.table && f.server.db.table[id].managedBy == OPERATOR
    requires forall l :: Server(l) in steps && l.Invoke? ==> !CanHarm(l.call, id, f.server.db.table[id].region)
    ensures id in FleetFinal(f, steps).server.db.table
    ensures SameIdentity(f.server.db.table[id], FleetFinal(f, steps).server.db.table[id])
    ensures FleetFinal(f, steps).server.db.table[id].region == f.server.db.table[id].region
  {
    var ls := ServerRun(f, steps);
    forall l | l in ls && l.Invoke? ensures !CanHarm(l.call, id, f.server.db.table[id].region) {
      assert Server(l) in steps || Unprivileged(l);
    }
    OperatorRowsAreSafe(f.server, ls, id);
  }

  // ---- The command at work ----

  lemma FleetSnoc(f: Fleet, steps: seq<Step>, step: Step)
    requires FleetRuns(f, steps) && CanStep(FleetFinal(f, steps), step)
    ensures FleetRuns(f, steps + [step]) && FleetFinal(f, steps + [step]) == Move(FleetFinal(f, steps), step)
  {
    assert (steps + [step])[..|steps|] == steps;
  }

  /** The GET of a process that nobody disturbs returns the stored row. */
  lemma GetReturns(f: Fleet, id: Id) returns (steps: seq<Step>)
    requires AtRest(f.server) && f.clis == map[] && id in f.server.db.table
    ensures FleetRuns(f, steps)
    ensures FleetFinal(f, steps) ==
            Fleet(State(f.server.db, map[0 := Finished(Get(id), Returned(id, f.server.db.table[id]))]), map[0 := Getting(id, 0)])
  {
    hide FleetRuns, FleetFinal;
    var start, run, reply := Start(0, id, 0), Server(Statement(0, Choice(0, false))), Server(Respond(0));
    steps := [];
    EmptyFleetRun(f);
    FleetSnoc(f, steps, start);
    steps := steps + [start];
    FleetSnoc(f, steps, run);
    steps := steps + [run];
    FleetSnoc(f, steps, reply);
    steps := steps + [reply];
  }

  lemma EmptyFleetRun(f: Fleet)
    ensures FleetRuns(f, []) && FleetFinal(f, []) == f
  {
  }

  /** Left alone, the command does what it is for: it deletes a satellite that is managed by hand and says
      so, and it leaves one that is the operator's as it is and says that. */
  lemma DeleteWorks(f: Fleet, id: Id) returns (steps: seq<Step>)
    requires AtRest(f.server) && f.clis == map[] && id in f.server.db.table
    ensures FleetRuns(f, steps)
    ensures
      var end := FleetFinal(f, steps);
      && 0 in end.clis && end.clis[0].Exited? && end.clis[0].id == id
      && if f.server.db.table[id].managedBy == "operator" then
           end.clis[0].outcome == ManagedByOperator && end.server.db == f.server.db
         else
           end.clis[0].outcome == SatelliteDeleted && end.server.db.table == f.server.db.table - {id}
  {
    hide FleetRuns, FleetFinal, AtRest;
    steps := GetReturns(f, id);
    var check, run, reply := Check(0, 1), Server(Statement(1, Choice(0, false))), Server(Respond(1));
    FleetSnoc(f, steps, check);
    steps := steps + [check];
    if f.server.db.table[id].managedBy != "operator" {
      FleetSnoc(f, steps, run);
      steps := steps + [run];
      FleetSnoc(f, steps, run);
      steps := steps + [run];
      FleetSnoc(f, steps, reply);
      steps := steps + [reply];
      FleetSnoc(f, steps, End(0));
      steps := steps + [End(0)];
    }
  }
}
