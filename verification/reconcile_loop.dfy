/** Any number of reconcile workers over one API server, fed by a cache that lags behind and by a work
    queue: a watch event refreshes the cache and queues the name, an error queues it again. */
module ReconcileLoop {
  import opened Wrappers
  import opened ApiServer
  import opened Controller

  type WorkerId = nat

  /** A worker past its read of an object that was not Ready, before its status update. */
  datatype Task = Task(name: Name, read: Object)

  /** `history` is every (name, object) pair ever stored: what a lagging cache may hold. */
  datatype World = World(cluster: Cluster, history: set<(Name, Object)>, cache: map<Name, Object>,
                         queue: set<Name>, workers: map<WorkerId, Task>)

  datatype Step =
    | Outside(change: External)
    | Observe(name: Name, view: Option<Object>)
    | Begin(worker: WorkerId, name: Name, fault: bool)
    | Finish(worker: WorkerId, fault: bool)

  predicate Enabled(w: World, s: Step) {
    match s
    case Outside(_) => true
    case Observe(name, view) => view.Some? ==> (name, view.value) in w.history
    case Begin(worker, name, _) => name in w.queue && worker !in w.workers
    case Finish(worker, _) => worker in w.workers
  }

  function Record(history: set<(Name, Object)>, objects: map<Name, Object>, name: Name): set<(Name, Object)> {
    if name in objects then history + {(name, objects[name])} else history
  }

  function Apply(w: World, s: Step): World
    requires Enabled(w, s)
  {
    match s
    case Outside(change) =>
      var cluster := Change(w.cluster, change);
      w.(cluster := cluster, history := Record(w.history, cluster.objects, change.name))
    case Observe(name, view) =>
      w.(cache := if view.Some? then w.cache[name := view.value] else w.cache - {name}, queue := w.queue + {name})
    case Begin(worker, name, fault) =>
      var taken := w.(queue := w.queue - {name});
      if fault then w
      else if Unready(w.cache, name) then taken.(workers := w.workers[worker := Task(name, w.cache[name])]) else taken
    case Finish(worker, fault) =>
      var task := w.workers[worker];
      var (cluster, err) := UpdateStatus(w.cluster, task.name, MarkReady(task.read), fault);
      World(cluster, Record(w.history, cluster.objects, task.name), w.cache,
            if err == NoError then w.queue else w.queue + {task.name}, w.workers - {worker})
  }

  // ---- A version names one state ----

  /** No version was given out twice, and none above `bound`. */
  ghost predicate Versioned(history: set<(Name, Object)>, bound: nat) {
    && (forall p :: p in history ==> p.1.version <= bound)
    && (forall p, q :: p in history && q in history && p.1.version == q.1.version ==> p == q)
  }

  ghost predicate AllIn(objects: map<Name, Object>, history: set<(Name, Object)>) {
    forall name :: name in objects ==> (name, objects[name]) in history
  }

  ghost predicate TasksIn(workers: map<WorkerId, Task>, history: set<(Name, Object)>) {
    forall k :: k in workers ==> (workers[k].name, workers[k].read) in history && workers[k].read.status.phase != READY
  }

  ghost predicate Genuine(w: World) {
    && Versioned(w.history, w.cluster.version)
    && AllIn(w.cluster.objects, w.history)
    && AllIn(w.cache, w.history)
    && TasksIn(w.workers, w.history)
  }

  /** From `before` to `after` at most `name` changed, and if it holds a new state, that is the newest. */
  ghost predicate OneWrite(before: Cluster, after: Cluster, name: Name) {
    && before.version <= after.version
    && after.objects - {name} == before.objects - {name}
    && (name in after.objects ==>
          || (name in before.objects && after.objects[name] == before.objects[name])
          || after.objects[name].version == after.version == before.version + 1)
  }

  lemma OneWriteElsewhere(before: Cluster, after: Cluster, name: Name, other: Name)
    requires OneWrite(before, after, name) && other != name
    ensures Lookup(after.objects, other) == Lookup(before.objects, other)
  {
    var a, b := after.objects - {name}, before.objects - {name};
    assert other in a <==> other in after.objects;
    assert other in b <==> other in before.objects;
  }

  lemma WriteKeepsHistory(history: set<(Name, Object)>, before: Cluster, after: Cluster, name: Name)
    requires Versioned(history, before.version) && AllIn(before.objects, history) && OneWrite(before, after, name)
    ensures Versioned(Record(history, after.objects, name), after.version)
    ensures AllIn(after.objects, Record(history, after.objects, name))
  {
    var h := Record(history, after.objects, name);
    forall other | other in after.objects ensures (other, after.objects[other]) in h {
      if other != name {
        OneWriteElsewhere(before, after, name, other);
      }
    }
  }

  lemma ChangeIsOneWrite(c: Cluster, e: External)
    ensures OneWrite(c, Change(c, e), e.name)
  {
  }

  lemma UpdateIsOneWrite(c: Cluster, name: Name, submitted: Object, fault: bool)
    ensures OneWrite(c, UpdateStatus(c, name, submitted, fault).0, name)
  {
  }

  lemma StepIsOneWrite(w: World, s: Step) returns (name: Name)
    requires Enabled(w, s) && (s.Outside? || s.Finish?)
    ensures OneWrite(w.cluster, Apply(w, s).cluster, name)
    ensures Apply(w, s).history == Record(w.history, Apply(w, s).cluster.objects, name)
  {
    match s
    case Outside(change) =>
      name := change.name;
      ChangeIsOneWrite(w.cluster, change);
    case Finish(worker, fault) =>
      var task := w.workers[worker];
      name := task.name;
      UpdateIsOneWrite(w.cluster, name, MarkReady(task.read), fault);
  }

  lemma StepKeepsGenuine(w: World, s: Step)
    requires Genuine(w) && Enabled(w, s)
    ensures Genuine(Apply(w, s))
  {
    var next := Apply(w, s);
    if s.Outside? || s.Finish? {
      var name := StepIsOneWrite(w, s);
      WriteKeepsHistory(w.history, w.cluster, next.cluster, name);
      assert w.history <= next.history;
      assert AllIn(next.cache, next.history) && TasksIn(next.workers, next.history);
    } else {
      assert AllIn(next.cache, next.history);
      assert TasksIn(next.workers, next.history);
    }
  }

  // ---- No wakeup is lost ----

  ghost predicate HasWriter(w: World, name: Name) {
    exists k :: k in w.workers && w.workers[k].name == name
  }

  /** An object that is not Ready is on somebody's way to being noticed: its latest state has not
      reached the cache yet, or its name is queued, or a worker is about to write it. */
  ghost predicate Noticed(w: World, name: Name) {
    Lookup(w.cache, name) != Lookup(w.cluster.objects, name) || name in w.queue || HasWriter(w, name)
  }

  ghost predicate NothingLost(w: World) {
    forall name :: Unready(w.cluster.objects, name) ==> Noticed(w, name)
  }

  ghost predicate Inv(w: World) {
    Genuine(w) && NothingLost(w)
  }

  /** The start of a controller: any objects, an empty cache, nothing queued. */
  ghost predicate Fresh(w: World) {
    && w.cache == map[] && w.queue == {} && w.workers == map[]
    && Versioned(w.history, w.cluster.version) && AllIn(w.cluster.objects, w.history)
  }

  /** A state that was just written is newer than anything a cache can hold. */
  lemma NewStateIsNotCached(w: World, s: Step, name: Name)
    requires Genuine(w) && Enabled(w, s) && name in Apply(w, s).cluster.objects
    requires Lookup(w.cluster.objects, name) != Some(Apply(w, s).cluster.objects[name])
    ensures Noticed(Apply(w, s), name)
  {
    var next := Apply(w, s);
    var written := StepIsOneWrite(w, s);
    if written != name {
      OneWriteElsewhere(w.cluster, next.cluster, written, name);
    }
    if name in w.cache {
      assert (name, w.cache[name]) in w.history;
    }
  }

  lemma StepLosesNothing(w: World, s: Step)
    requires Inv(w) && Enabled(w, s)
    ensures NothingLost(Apply(w, s))
  {
    var next := Apply(w, s);
    forall name | Unready(next.cluster.objects, name) ensures Noticed(next, name) {
      if Lookup(w.cluster.objects, name) != Some(next.cluster.objects[name]) {
        NewStateIsNotCached(w, s, name);
      } else {
        assert Noticed(w, name);
        OldNoticeStands(w, s, name);
      }
    }
  }

  /** An object that a step leaves alone and not Ready is still noticed afterwards. */
  lemma OldNoticeStands(w: World, s: Step, name: Name)
    requires Genuine(w) && Enabled(w, s) && Unready(w.cluster.objects, name) && Noticed(w, name)
    requires Lookup(Apply(w, s).cluster.objects, name) == Lookup(w.cluster.objects, name)
    ensures Noticed(Apply(w, s), name)
  {
    hide Genuine, Change, UpdateStatus;
    if HasWriter(w, name) {
      WriterStands(w, s, name);
    } else if s.Begin? && !s.fault && s.name == name && Lookup(w.cache, name) == Lookup(w.cluster.objects, name) {
      var next := Apply(w, s);
      assert s.worker in next.workers && next.workers[s.worker].name == name;
    }
  }

  /** A worker that is about to write stays so, or it is the one that now writes or queues the name. */
  lemma WriterStands(w: World, s: Step, name: Name)
    requires Genuine(w) && Enabled(w, s) && HasWriter(w, name)
    requires Lookup(Apply(w, s).cluster.objects, name) == Lookup(w.cluster.objects, name)
    ensures HasWriter(Apply(w, s), name) || name in Apply(w, s).queue
  {
    hide Genuine, Change, UpdateStatus;
    var next := Apply(w, s);
    var k :| k in w.workers && w.workers[k].name == name;
    if s.Finish? && s.worker == k {
      FailedWriteQueues(w, s);
    } else {
      assert k in next.workers && next.workers[k].name == name;
    }
  }

  /** A status update that leaves its object as it was has failed. */
  lemma FailedWriteQueues(w: World, s: Step)
    requires Genuine(w) && Enabled(w, s) && s.Finish?
    requires var name := w.workers[s.worker].name;
             Lookup(Apply(w, s).cluster.objects, name) == Lookup(w.cluster.objects, name)
    ensures w.workers[s.worker].name in Apply(w, s).queue
  {
    var task := w.workers[s.worker];
    if task.name in w.cluster.objects {
      assert (task.name, w.cluster.objects[task.name]) in w.history;
    }
  }

  predicate Runs(w: World, ss: seq<Step>)
    decreases |ss|, 0
  {
    ss == [] || (Runs(w, ss[..|ss|-1]) && Enabled(Final(w, ss[..|ss|-1]), ss[|ss|-1]))
  }

  function Final(w: World, ss: seq<Step>): World
    requires Runs(w, ss)
    decreases |ss|, 1
  {
    if ss == [] then w else Apply(Final(w, ss[..|ss|-1]), ss[|ss|-1])
  }

  lemma {:induction false} RunKeepsInv(w: World, ss: seq<Step>)
    requires Fresh(w) && Runs(w, ss)
    ensures Inv(Final(w, ss))
  {
    if ss == [] {
      assert NothingLost(w);
    } else {
      RunKeepsInv(w, ss[..|ss|-1]);
      StepKeepsGenuine(Final(w, ss[..|ss|-1]), ss[|ss|-1]);
      StepLosesNothing(Final(w, ss[..|ss|-1]), ss[|ss|-1]);
    }
  }

  /** When the controller has nothing left to do (cache caught up, queue empty, no worker busy), every
      object there is is Ready. */
  lemma QuietMeansReady(w: World, ss: seq<Step>)
    requires Fresh(w) && Runs(w, ss)
    requires Final(w, ss).cache == Final(w, ss).cluster.objects
    requires Final(w, ss).queue == {} && Final(w, ss).workers == map[]
    ensures forall name :: name in Final(w, ss).cluster.objects ==> Final(w, ss).cluster.objects[name].status.phase == "Ready"
  {
    RunKeepsInv(w, ss);
    var end := Final(w, ss);
    forall name | name in end.cluster.objects ensures end.cluster.objects[name].status.phase == READY {
      assert Unready(end.cluster.objects, name) ==> Noticed(end, name);
    }
  }

  // ---- No update is lost ----

  predicate Succeeds(w: World, s: Step)
    requires Enabled(w, s)
  {
    s.Finish? &&
    UpdateStatus(w.cluster, w.workers[s.worker].name, MarkReady(w.workers[s.worker].read), s.fault).1 == NoError
  }

  /** A status update that lands changes the object as it stands; one that does not changes nothing. */
  ghost predicate WritesOnlyPhaseAndOwner(before: World, s: Step)
    requires Enabled(before, s) && s.Finish?
  {
    var after, task := Apply(before, s), before.workers[s.worker];
    if Succeeds(before, s) then
      && task.name in before.cluster.objects
      && var current := before.cluster.objects[task.name];
      && current == task.read
      && after.cluster.objects == before.cluster.objects[task.name :=
           current.(version := after.cluster.version,
                    status := current.status.(phase := "Ready", managedBy := "operator"))]
    else after.cluster == before.cluster && task.name in after.queue
  }

  lemma GenuineWritesLoseNothing(w: World, s: Step)
    requires Genuine(w) && Enabled(w, s) && s.Finish?
    ensures WritesOnlyPhaseAndOwner(w, s)
  {
    var task := w.workers[s.worker];
    if Succeeds(w, s) {
      assert (task.name, w.cluster.objects[task.name]) in w.history;
      assert (task.name, task.read) in w.history;
    }
  }

  /** However stale the reads are, a status update that succeeds changes phase and owner of the object
      as it stands at that moment, and nothing else of it or of any other object; it cannot land on an
      object that was deleted or recreated since. One that fails changes no object and is retried. */
  lemma ControllerWritesLoseNothing(w: World, ss: seq<Step>, s: Step)
    requires Fresh(w) && Runs(w, ss) && s.Finish? && Enabled(Final(w, ss), s)
    ensures WritesOnlyPhaseAndOwner(Final(w, ss), s)
  {
    RunKeepsInv(w, ss);
    GenuineWritesLoseNothing(Final(w, ss), s);
  }

  // ---- The loop stops ----

  function Bit(b: bool): nat {
    if b then 1 else 0
  }

  predicate Lands(before: World, s: Step, name: Name)
    requires Enabled(before, s)
  {
    Succeeds(before, s) && before.workers[s.worker].name == name
  }

  predicate Turns(before: World, s: Step, name: Name, made: bool)
    requires Enabled(before, s)
  {
    var was, now := Unready(before.cluster.objects, name), Unready(Apply(before, s).cluster.objects, name);
    s.Outside? && was != now && now == made
  }

  /** Status updates of the controller that landed on `name`. */
  function ControllerWrites(w: World, ss: seq<Step>, name: Name): nat
    requires Runs(w, ss)
  {
    if ss == [] then 0
    else
      var before, s := Final(w, ss[..|ss|-1]), ss[|ss|-1];
      ControllerWrites(w, ss[..|ss|-1], name) + Bit(Lands(before, s, name))
  }

  /** Outside changes that made `name` not Ready although it was Ready or absent (`made`), or that took
      it out of that condition (`!made`). */
  function OutsideTurns(w: World, ss: seq<Step>, name: Name, made: bool): nat
    requires Runs(w, ss)
  {
    if ss == [] then 0
    else
      var before, s := Final(w, ss[..|ss|-1]), ss[|ss|-1];
      OutsideTurns(w, ss[..|ss|-1], name, made) + Bit(Turns(before, s, name, made))
  }

  /** Outside writes of `name`, creations included, that left it not Ready. */
  function UnreadyWrites(ss: seq<Step>, name: Name): nat {
    if ss == [] then 0
    else
      var s := ss[|ss|-1];
      UnreadyWrites(ss[..|ss|-1], name) +
      (if s.Outside? && s.change.Write? && s.change.name == name && s.change.status.phase != READY then 1 else 0)
  }

  lemma StepBalances(w: World, s: Step, name: Name)
    requires Genuine(w) && Enabled(w, s)
    ensures
      Bit(Lands(w, s, name)) + Bit(Unready(Apply(w, s).cluster.objects, name)) + Bit(Turns(w, s, name, false))
      == Bit(Unready(w.cluster.objects, name)) + Bit(Turns(w, s, name, true))
  {
    if s.Finish? {
      GenuineWritesLoseNothing(w, s);
      assert (w.workers[s.worker].name, w.workers[s.worker].read) in w.history;
    }
  }

  /** Every landed controller write cancels one outside turn to not Ready: an exact balance, per object. */
  lemma {:induction false} WritesBalance(w: World, ss: seq<Step>, name: Name)
    requires Fresh(w) && Runs(w, ss)
    ensures
      ControllerWrites(w, ss, name) + Bit(Unready(Final(w, ss).cluster.objects, name)) + OutsideTurns(w, ss, name, false)
      == Bit(Unready(w.cluster.objects, name)) + OutsideTurns(w, ss, name, true)
  {
    if ss != [] {
      hide Apply, Lands, Turns, Unready;
      WritesBalance(w, ss[..|ss|-1], name);
      RunKeepsInv(w, ss[..|ss|-1]);
      StepBalances(Final(w, ss[..|ss|-1]), ss[|ss|-1], name);
    }
  }

  lemma {:induction false} TurnsAreWrites(w: World, ss: seq<Step>, name: Name)
    requires Runs(w, ss)
    ensures OutsideTurns(w, ss, name, true) <= UnreadyWrites(ss, name)
  {
    if ss != [] {
      TurnsAreWrites(w, ss[..|ss|-1], name);
    }
  }

  /** The controller does not keep itself busy: in every run, its writes to an object, plus one if the
      object is not Ready, never exceed the outside writes that left the object not Ready (plus one if
      it started that way). */
  lemma SelfTriggeringStops(w: World, ss: seq<Step>, name: Name)
    requires Fresh(w) && Runs(w, ss)
    ensures
      ControllerWrites(w, ss, name) + Bit(Unready(Final(w, ss).cluster.objects, name))
      <= Bit(Unready(w.cluster.objects, name)) + UnreadyWrites(ss, name)
  {
    WritesBalance(w, ss, name);
    TurnsAreWrites(w, ss, name);
  }

  // ---- The method and the steps ----

  /** What a step does to the cluster, as writes that anyone could have made. */
  function AsChanges(w: World, s: Step): seq<External>
    requires Enabled(w, s)
  {
    match s
    case Outside(change) => [change]
    case Finish(worker, _) =>
      if Succeeds(w, s) then
        var task := w.workers[worker];
        [Write(task.name, w.cluster.objects[task.name].region, MarkReady(task.read).status)]
      else []
    case _ => []
  }

  function Interference(w: World, ss: seq<Step>): seq<External>
    requires Runs(w, ss)
  {
    if ss == [] then [] else Interference(w, ss[..|ss|-1]) + AsChanges(Final(w, ss[..|ss|-1]), ss[|ss|-1])
  }

  lemma ChangeAllSnoc(c: Cluster, es: seq<External>, more: seq<External>)
    requires |more| <= 1
    ensures ChangeAll(c, es + more) == if more == [] then ChangeAll(c, es) else Change(ChangeAll(c, es), more[0])
  {
    if more == [] {
      assert es + more == es;
    } else {
      assert (es + more)[..|es|] == es;
    }
  }

  lemma StepIsChange(w: World, s: Step)
    requires Enabled(w, s)
    ensures |AsChanges(w, s)| <= 1
    ensures Apply(w, s).cluster == if AsChanges(w, s) == [] then w.cluster else Change(w.cluster, AsChanges(w, s)[0])
  {
  }

  lemma {:induction false} InterferenceIsExact(w: World, ss: seq<Step>)
    requires Runs(w, ss)
    ensures Final(w, ss).cluster == ChangeAll(w.cluster, Interference(w, ss))
  {
    if ss != [] {
      var init, s := ss[..|ss|-1], ss[|ss|-1];
      hide Apply, AsChanges, Change;
      InterferenceIsExact(w, init);
      StepIsChange(Final(w, init), s);
      ChangeAllSnoc(w.cluster, Interference(w, init), AsChanges(Final(w, init), s));
    }
  }

  lemma {:induction false} TaskWaits(w: World, ss: seq<Step>, worker: WorkerId)
    requires Runs(w, ss) && worker in w.workers
    requires forall s :: s in ss ==> !(s.Finish? && s.worker == worker)
    ensures worker in Final(w, ss).workers && Final(w, ss).workers[worker] == w.workers[worker]
  {
    if ss != [] {
      TaskWaits(w, ss[..|ss|-1], worker);
      assert ss[|ss|-1] in ss;
    }
  }

  lemma {:induction false} Concat(w: World, ss: seq<Step>, more: seq<Step>)
    requires Runs(w, ss) && Runs(Final(w, ss), more)
    ensures Runs(w, ss + more) && Final(w, ss + more) == Final(Final(w, ss), more)
    decreases |more|
  {
    if more == [] {
      assert ss + more == ss;
    } else {
      Concat(w, ss, more[..|more|-1]);
      assert (ss + more)[..|ss+more|-1] == ss + more[..|more|-1];
    }
  }

  /** What the cached client answers. */
  function ReadCache(w: World, name: Name, fault: bool): Read {
    if fault then ReadFailed
    else if name in w.cache then Found(w.cache[name])
    else Missing
  }

  /** Reconcile is what Begin and Finish say, in every run and with any steps in between. If it read an
      object that is not Ready, it leaves the cluster that Finish leaves and fails when Finish fails; so
      its write changes phase and owner of the object as it stands, and nothing else. Otherwise Begin is
      all there is. An error puts the name back into the queue. */
  method ReconcileInWorld(w: World, ss: seq<Step>, worker: WorkerId, name: Name, readFault: bool, between: seq<Step>,
                          fault: bool, reconciler: SatelliteReconciler) returns (err: ApiError)
    requires Fresh(w) && Runs(w, ss) && Enabled(Final(w, ss), Begin(worker, name, readFault))
    requires Runs(Apply(Final(w, ss), Begin(worker, name, readFault)), between)
    requires forall s :: s in between ==> !(s.Finish? && s.worker == worker)
    requires reconciler.server.cluster == Final(w, ss).cluster
    modifies reconciler.server
    ensures
      var begun := Apply(Final(w, ss), Begin(worker, name, readFault));
      && (worker in begun.workers <==> Acts(ReadCache(Final(w, ss), name, readFault)))
      && (worker !in begun.workers ==>
            reconciler.server.cluster == begun.cluster && (err != NoError ==> name in begun.queue))
      && (worker in begun.workers ==>
            var last, finish := Final(begun, between), Finish(worker, fault);
            && Enabled(last, finish)
            && reconciler.server.cluster == Apply(last, finish).cluster
            && (err == NoError <==> Succeeds(last, finish))
            && (err != NoError ==> name in Apply(last, finish).queue)
            && WritesOnlyPhaseAndOwner(last, finish))
  {
    hide Outcome, UpdateStatus, Fresh, Interference;
    var start, begin, finish := Final(w, ss), Begin(worker, name, readFault), Finish(worker, fault);
    var begun := Apply(start, begin);
    InterferenceIsExact(begun, between);
    err := reconciler.Reconcile(name, ReadCache(start, name, readFault), Interference(begun, between), fault);
    if worker in begun.workers {
      OneOutcome(Final(begun, between).cluster, name, start.cache[name], fault, reconciler.server.cluster, err);
      TaskWaits(begun, between, worker);
      Concat(w, ss, [begin]);
      Concat(w, ss + [begin], between);
      ControllerWritesLoseNothing(w, ss + [begin] + between, finish);
    }
  }

  // ---- Every run can become quiet ----

  ghost predicate NoOutside(ss: seq<Step>) {
    forall s :: s in ss ==> !s.Outside?
  }

  /** From `before` to `after` objects were only marked Ready. */
  ghost predicate OnlyMarked(before: map<Name, Object>, after: map<Name, Object>) {
    && after.Keys == before.Keys
    && forall name :: name in before ==>
         || after[name] == before[name]
         || (before[name].status.phase != READY &&
             after[name] == MarkReady(before[name]).(version := after[name].version))
  }

  lemma MarkedTwice(a: map<Name, Object>, b: map<Name, Object>, c: map<Name, Object>)
    requires OnlyMarked(a, b) && OnlyMarked(b, c)
    ensures OnlyMarked(a, c)
  {
  }

  lemma FinishOnlyMarks(w: World, s: Step)
    requires Genuine(w) && Enabled(w, s) && s.Finish?
    ensures OnlyMarked(w.cluster.objects, Apply(w, s).cluster.objects)
  {
    GenuineWritesLoseNothing(w, s);
    assert (w.workers[s.worker].name, w.workers[s.worker].read) in w.history;
  }

  lemma FirstThen(w: World, s: Step, rest: seq<Step>)
    requires Enabled(w, s) && Runs(Apply(w, s), rest)
    ensures Runs(w, [s] + rest) && Final(w, [s] + rest) == Final(Apply(w, s), rest)
  {
    assert [s][..0] == [] && Runs(w, []);
    Concat(w, [s], rest);
  }

  /** Let every worker finish. */
  lemma {:induction false} FinishWorkers(w: World) returns (ss: seq<Step>)
    requires Genuine(w)
    ensures NoOutside(ss) && Runs(w, ss)
    ensures Genuine(Final(w, ss)) && Final(w, ss).workers == map[]
    ensures OnlyMarked(w.cluster.objects, Final(w, ss).cluster.objects)
    decreases |w.workers|
  {
    ss := [];
    if w.workers == map[] {
      assert OnlyMarked(w.cluster.objects, w.cluster.objects);
    } else {
      var worker :| worker in w.workers;
      var s := Finish(worker, false);
      hide Apply, Genuine, OnlyMarked, Runs, Final;
      StepKeepsGenuine(w, s);
      FinishOnlyMarks(w, s);
      OneWorkerLess(w, s);
      var rest := FinishWorkers(Apply(w, s));
      FirstThen(w, s, rest);
      MarkedTwice(w.cluster.objects, Apply(w, s).cluster.objects, Final(w, [s] + rest).cluster.objects);
      ss := [s] + rest;
    }
  }

  lemma OneWorkerLess(w: World, s: Step)
    requires Enabled(w, s) && s.Finish?
    ensures |Apply(w, s).workers| < |w.workers|
  {
    assert Apply(w, s).workers == w.workers - {s.worker};
    assert w.workers == Apply(w, s).workers[s.worker := w.workers[s.worker]];
  }

  /** The names for which the cache is behind. */
  function Behind(w: World): (names: set<Name>)
    ensures forall name :: name in names <==> Lookup(w.cache, name) != Lookup(w.cluster.objects, name)
  {
    set name | name in w.cache.Keys + w.cluster.objects.Keys && Lookup(w.cache, name) != Lookup(w.cluster.objects, name)
  }

  lemma OneEventLess(w: World, name: Name)
    requires Genuine(w) && name in Behind(w)
    ensures var s := Observe(name, Lookup(w.cluster.objects, name));
            && Enabled(w, s) && Genuine(Apply(w, s))
            && Behind(Apply(w, s)) == Behind(w) - {name}
            && Apply(w, s) == w.(cache := Apply(w, s).cache, queue := Apply(w, s).queue)
  {
    var s := Observe(name, Lookup(w.cluster.objects, name));
    assert Enabled(w, s);
    StepKeepsGenuine(w, s);
    hide Genuine;
    forall other ensures other in Behind(Apply(w, s)) <==> other in Behind(w) - {name} {
      if other != name {
        assert Lookup(Apply(w, s).cache, other) == Lookup(w.cache, other);
      }
    }
  }

  /** Let the watch events arrive. */
  lemma {:induction false} CatchUp(w: World) returns (ss: seq<Step>)
    requires Genuine(w)
    ensures NoOutside(ss) && Runs(w, ss)
    ensures Final(w, ss) == w.(cache := w.cluster.objects, queue := Final(w, ss).queue)
    decreases |Behind(w)|
  {
    hide Genuine, Apply, Lookup;
    ss := [];
    if Behind(w) == {} {
      assert forall name :: Lookup(w.cache, name) == Lookup(w.cluster.objects, name);
      SameObjects(w.cache, w.cluster.objects);
    } else {
      var name :| name in Behind(w);
      var s := Observe(name, Lookup(w.cluster.objects, name));
      OneEventLess(w, name);
      var rest := CatchUp(Apply(w, s));
      FirstThen(w, s, rest);
      ss := [s] + rest;
    }
  }

  function UnreadyNames(objects: map<Name, Object>): (names: set<Name>)
    ensures forall name :: name in names <==> Unready(objects, name)
  {
    set name | name in objects && Unready(objects, name)
  }

  /** With a cache that is up to date and idle workers, one worker empties the queue: a Ready or missing
      object takes one step, any other is marked and observed. */
  lemma {:induction false} EmptyQueue(w: World) returns (ss: seq<Step>)
    requires Genuine(w) && w.cache == w.cluster.objects && w.workers == map[]
    ensures NoOutside(ss) && Runs(w, ss)
    ensures var end := Final(w, ss);
            && end.cache == end.cluster.objects && end.workers == map[] && end.queue == {}
            && OnlyMarked(w.cluster.objects, end.cluster.objects)
    decreases |UnreadyNames(w.cluster.objects)|, |w.queue|
  {
    ss := [];
    if w.queue != {} {
      var name :| name in w.queue;
      if Unready(w.cache, name) {
        var first, next := MarkAndObserve(w, name);
        var rest := EmptyQueue(next);
        Concat(w, first, rest);
        MarkedTwice(w.cluster.objects, next.cluster.objects, Final(w, first + rest).cluster.objects);
        ss := first + rest;
      } else {
        var s := Begin(0, name, false);
        StepKeepsGenuine(w, s);
        ss := EmptyQueue(Apply(w, s));
        FirstThen(w, s, ss);
        ss := [s] + ss;
      }
    }
  }

  lemma MarkAndObserve(w: World, name: Name) returns (ss: seq<Step>, next: World)
    requires Genuine(w) && w.cache == w.cluster.objects && w.workers == map[]
    requires name in w.queue && Unready(w.cache, name)
    ensures NoOutside(ss) && Runs(w, ss) && Final(w, ss) == next
    ensures Genuine(next) && next.cache == next.cluster.objects && next.workers == map[]
    ensures OnlyMarked(w.cluster.objects, next.cluster.objects)
    ensures UnreadyNames(next.cluster.objects) == UnreadyNames(w.cluster.objects) - {name}
  {
    hide Genuine, Apply, OnlyMarked, UnreadyNames;
    var begin, finish := Begin(0, name, false), Finish(0, false);
    var w1 := Apply(w, begin);
    var w2, observe := MarkOne(w, name);
    ObserveMarked(w, w2, name);
    FirstThen(w2, observe, []);
    FirstThen(w1, finish, [observe]);
    FirstThen(w, begin, [finish] + [observe]);
    ss, next := [begin] + ([finish] + [observe]), Apply(w2, observe);
  }

  lemma MarkOne(w: World, name: Name) returns (marked: World, observe: Step)
    requires Genuine(w) && w.cache == w.cluster.objects && w.workers == map[]
    requires name in w.queue && Unready(w.cache, name)
    ensures var begin, finish := Begin(0, name, false), Finish(0, false);
            && Enabled(w, begin) && Enabled(Apply(w, begin), finish) && marked == Apply(Apply(w, begin), finish)
    ensures Genuine(marked) && marked.cache == w.cache && marked.workers == map[]
    ensures name in marked.cluster.objects && observe == Observe(name, Some(marked.cluster.objects[name]))
    ensures marked.cluster.objects == w.cluster.objects[name := marked.cluster.objects[name]]
    ensures marked.cluster.objects[name].status.phase == READY
    ensures OnlyMarked(w.cluster.objects, marked.cluster.objects)
  {
    var begin, finish := Begin(0, name, false), Finish(0, false);
    StepKeepsGenuine(w, begin);
    StepKeepsGenuine(Apply(w, begin), finish);
    FinishOnlyMarks(Apply(w, begin), finish);
    marked := Apply(Apply(w, begin), finish);
    observe := Observe(name, Some(marked.cluster.objects[name]));
  }

  lemma ObserveMarked(w: World, marked: World, name: Name)
    requires Genuine(marked) && marked.cache == w.cluster.objects && name in marked.cluster.objects
    requires marked.cluster.objects == w.cluster.objects[name := marked.cluster.objects[name]]
    requires Unready(w.cluster.objects, name) && marked.cluster.objects[name].status.phase == READY
    ensures var observe := Observe(name, Some(marked.cluster.objects[name]));
            && Enabled(marked, observe)
            && var next := Apply(marked, observe);
            && Genuine(next) && next.cache == next.cluster.objects == marked.cluster.objects
            && next.workers == marked.workers
            && UnreadyNames(next.cluster.objects) == UnreadyNames(w.cluster.objects) - {name}
  {
    var observe := Observe(name, Some(marked.cluster.objects[name]));
    assert Enabled(marked, observe);
    StepKeepsGenuine(marked, observe);
  }

  /** The loop can always come to rest. From wherever a run has got to, if nobody outside writes any more,
      there are steps after which the cache has caught up, the queue is empty and no worker is busy; and
      then each object is as it was if it was Ready, and otherwise has been marked Ready, and nothing else. */
  lemma EveryRunCanRest(w: World, ss: seq<Step>) returns (more: seq<Step>)
    requires Fresh(w) && Runs(w, ss)
    ensures NoOutside(more) && Runs(w, ss + more)
    ensures
      var before, end := Final(w, ss).cluster.objects, Final(w, ss + more);
      && end.cache == end.cluster.objects && end.queue == {} && end.workers == map[]
      && end.cluster.objects.Keys == before.Keys
      && forall name :: name in before ==>
           var now := end.cluster.objects[name];
           now == if before[name].status.phase == READY then before[name]
                  else MarkReady(before[name]).(version := now.version)
  {
    RunKeepsInv(w, ss);
    var start := Final(w, ss);
    var a := FinishWorkers(start);
    var idle := Final(start, a);
    var b := CatchUp(idle);
    var aware := Final(idle, b);
    var c := EmptyQueue(aware);
    Concat(idle, b, c);
    Concat(start, a, b + c);
    more := a + (b + c);
    Concat(w, ss, more);
    QuietMeansReady(w, ss + more);
  }

  /** What an outside write leaves behind: the object with the region and status written, under its old
      uid or a new one, as the newest version; and a removal, no object of that name. */
  lemma ChangeIsExact(c: Cluster, e: External)
    ensures e.Write? ==>
              var after := Change(c, e);
              && e.name in after.objects
              && var now := after.objects[e.name];
              && now.region == e.region && now.status == e.status && now.version == after.version == c.version + 1
              && now.uid == (if e.name in c.objects then c.objects[e.name].uid else c.uids)
              && after.uids == (if e.name in c.objects then c.uids else c.uids + 1)
    ensures e.Remove? ==> e.name !in Change(c, e).objects && Change(c, e).uids == c.uids
    ensures forall other :: other != e.name ==> Lookup(Change(c, e).objects, other) == Lookup(c.objects, other)
  {
  }

  /** From manifest to Ready. Whatever has happened before, an object that is written from outside while it
      is not Ready can come to rest, and then it has the region, heartbeat and conditions it was written
      with, is Ready and the operator's. */
  lemma WrittenObjectsBecomeReady(w: World, ss: seq<Step>, name: Name, region: string, status: Status)
    returns (more: seq<Step>)
    requires Fresh(w) && Runs(w, ss) && status.phase != "Ready"
    ensures NoOutside(more)
    ensures
      var written := ss + [Outside(Write(name, region, status))] + more;
      && Runs(w, written)
      && var end := Final(w, written);
      && end.cache == end.cluster.objects && end.queue == {} && end.workers == map[]
      && name in end.cluster.objects
      && var now := end.cluster.objects[name];
      && now.region == region && now.status == Status("Ready", "operator", status.lastHeartbeat, status.conditions)
  {
    hide Fresh;
    var change := Outside(Write(name, region, status));
    FirstThen(Final(w, ss), change, []);
    assert [change] + [] == [change];
    Concat(w, ss, [change]);
    ChangeIsExact(Final(w, ss).cluster, change.change);
    more := EveryRunCanRest(w, ss + [change]);
  }
}
