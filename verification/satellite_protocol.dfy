/** Any number of Service calls over one database, interleaved statement by statement, and the order of
    atomic calls that every such run is equivalent to. */
module SatelliteProtocol {
  import opened SatelliteTable
  import opened SatelliteCalls

  type CallId = nat

  datatype State = State(db: Db, calls: map<CallId, Pc>)

  datatype Label =
    | Invoke(tid: CallId, call: Call)
    | Statement(tid: CallId, choice: Choice)
    | Respond(tid: CallId)
    | Elapse(d: nat)

  predicate Enabled(s: State, l: Label) {
    match l
    case Invoke(tid, _) => tid !in s.calls
    case Statement(tid, _) => tid in s.calls && Active(s.calls[tid])
    case Respond(tid) => tid in s.calls && s.calls[tid].Answered?
    case Elapse(_) => true
  }

  function Apply(s: State, l: Label): State
    requires Enabled(s, l)
  {
    match l
    case Invoke(tid, call) => s.(calls := s.calls[tid := Invoked(call)])
    case Statement(tid, choice) =>
      var (db, pc) := Advance(s.db, s.calls[tid], choice);
      State(db, s.calls[tid := pc])
    case Respond(tid) =>
      s.(calls := s.calls[tid := Finished(s.calls[tid].call, s.calls[tid].response)])
    case Elapse(d) => s.(db := s.db.(clock := s.db.clock + d))
  }

  ghost predicate Inv(s: State) {
    WellFormed(s.db) && forall tid :: tid in s.calls ==> GuardStable(s.db, s.calls[tid])
  }

  /** A database at rest: no call in flight. It may hold rows of any owner. */
  ghost predicate AtRest(s: State) {
    WellFormed(s.db) && s.calls == map[]
  }

  lemma StepKeepsInv(s: State, l: Label)
    requires Inv(s) && Enabled(s, l)
    ensures Inv(Apply(s, l)) && Evolves(s.db, Apply(s, l).db)
  {
    var next := Apply(s, l);
    if l.Statement? {
      AdvanceIsAtomicOrSilent(s.db, s.calls[l.tid], l.choice);
    }
    assert Evolves(s.db, next.db);
    forall tid | tid in next.calls ensures GuardStable(next.db, next.calls[tid]) {
      if tid in s.calls && next.calls[tid] == s.calls[tid] {
        GuardStaysStable(s.db, next.db, s.calls[tid]);
      }
    }
  }

  predicate Runs(s: State, ls: seq<Label>)
    decreases |ls|, 0
  {
    ls == [] || (Runs(s, ls[..|ls|-1]) && Enabled(Final(s, ls[..|ls|-1]), ls[|ls|-1]))
  }

  function Final(s: State, ls: seq<Label>): State
    requires Runs(s, ls)
    decreases |ls|, 1
  {
    if ls == [] then s else Apply(Final(s, ls[..|ls|-1]), ls[|ls|-1])
  }

  lemma {:induction false} RunKeepsInv(s: State, ls: seq<Label>)
    requires AtRest(s) && Runs(s, ls)
    ensures Inv(Final(s, ls))
  {
    if ls != [] {
      RunKeepsInv(s, ls[..|ls|-1]);
      StepKeepsInv(Final(s, ls[..|ls|-1]), ls[|ls|-1]);
    }
  }

  /** A sequential history: calls that take effect one after the other, and time passing. */
  datatype Entry =
    | Effect(tid: CallId, call: Call, choice: Choice, response: Response)
    | Tick(d: nat)

  /** A history read as a program of atomic calls. */
  function Replay(db: Db, h: seq<Entry>): Db {
    if h == [] then db
    else
      var before, e := Replay(db, h[..|h|-1]), h[|h|-1];
      match e
      case Effect(_, call, choice, _) => Atomic(before, call, choice).0
      case Tick(d) => before.(clock := before.clock + d)
  }

  /** Every recorded response is the one the atomic call gives at that point of the history. */
  predicate Legal(db: Db, h: seq<Entry>) {
    h == [] ||
    (Legal(db, h[..|h|-1]) &&
     (h[|h|-1].Effect? ==>
        h[|h|-1].response == Atomic(Replay(db, h[..|h|-1]), h[|h|-1].call, h[|h|-1].choice).1))
  }

  /** A call takes effect at the statement that answers it: the read when it returns early, the write
      otherwise. */
  function Effects(s: State, l: Label): seq<Entry>
    requires Enabled(s, l)
  {
    match l
    case Statement(tid, choice) =>
      var pc := Advance(s.db, s.calls[tid], choice).1;
      if pc.Answered? then [Effect(tid, pc.call, choice, pc.response)] else []
    case Elapse(d) => [Tick(d)]
    case _ => []
  }

  function History(s: State, ls: seq<Label>): seq<Entry>
    requires Runs(s, ls)
  {
    if ls == [] then []
    else History(s, ls[..|ls|-1]) + Effects(Final(s, ls[..|ls|-1]), ls[|ls|-1])
  }

  function EffectsOf(h: seq<Entry>, tid: CallId): seq<Entry> {
    if h == [] then []
    else EffectsOf(h[..|h|-1], tid) +
         (if h[|h|-1].Effect? && h[|h|-1].tid == tid then [h[|h|-1]] else [])
  }

  predicate HasAnswer(s: State, tid: CallId) {
    tid in s.calls && (s.calls[tid].Answered? || s.calls[tid].Finished?)
  }

  /** The history agrees with what call `tid` has reached: no effect before it is answered, and
      exactly one effect, with its call and its response, from then on. */
  ghost predicate Accounted(s: State, h: seq<Entry>, tid: CallId) {
    var mine := EffectsOf(h, tid);
    if HasAnswer(s, tid) then
      |mine| == 1 && mine[0].Effect? && mine[0].call == s.calls[tid].call && mine[0].response == s.calls[tid].response
    else mine == []
  }

  lemma EffectsOfSnoc(h: seq<Entry>, more: seq<Entry>, tid: CallId)
    requires |more| <= 1
    ensures EffectsOf(h + more, tid) == EffectsOf(h, tid) + EffectsOf(more, tid)
  {
    if more == [] {
      assert h + more == h;
    } else {
      assert (h + more)[..|h|] == h && more[..0] == [];
    }
  }

  /** One step adds its effects to a legal history of the database so far. */
  lemma StepExtendsHistory(start: Db, s: State, h: seq<Entry>, l: Label)
    requires Inv(s) && Enabled(s, l) && Legal(start, h) && Replay(start, h) == s.db
    ensures Legal(start, h + Effects(s, l)) && Replay(start, h + Effects(s, l)) == Apply(s, l).db
  {
    hide Atomic, Advance;
    if l.Statement? {
      AdvanceIsAtomicOrSilent(s.db, s.calls[l.tid], l.choice);
    }
    var more := Effects(s, l);
    if more == [] {
      assert h + more == h;
    } else {
      assert (h + more)[..|h|] == h;
    }
  }

  /** What a step does to one call, and what it puts on record for it. */
  lemma StepOfCall(s: State, l: Label, tid: CallId)
    requires Inv(s) && Enabled(s, l)
    ensures |Effects(s, l)| <= 1
    ensures
      var next, mine := Apply(s, l), EffectsOf(Effects(s, l), tid);
      if HasAnswer(next, tid) && !HasAnswer(s, tid) then
        mine == Effects(s, l) && |mine| == 1 && mine[0].Effect?
        && mine[0].call == next.calls[tid].call && mine[0].response == next.calls[tid].response
      else
        mine == [] && HasAnswer(next, tid) == HasAnswer(s, tid)
        && (HasAnswer(s, tid) ==>
              next.calls[tid].call == s.calls[tid].call && next.calls[tid].response == s.calls[tid].response)
  {
    hide Atomic, Advance;
    if l.Statement? {
      AdvanceIsAtomicOrSilent(s.db, s.calls[l.tid], l.choice);
    }
    var more := Effects(s, l);
    assert more != [] ==> more[..0] == [];
  }

  lemma StepAccounted(s: State, h: seq<Entry>, l: Label, tid: CallId)
    requires Inv(s) && Enabled(s, l) && Accounted(s, h, tid)
    ensures Accounted(Apply(s, l), h + Effects(s, l), tid)
  {
    hide Apply, Effects, EffectsOf;
    StepOfCall(s, l, tid);
    EffectsOfSnoc(h, Effects(s, l), tid);
  }

  /** Linearizability. Every interleaving is equivalent to a legal sequential history of atomic calls:
      the same final database, and for each call one effect with the response it returned. */
  lemma {:induction false} Linearizable(s: State, ls: seq<Label>)
    requires AtRest(s) && Runs(s, ls)
    ensures Legal(s.db, History(s, ls))
    ensures Replay(s.db, History(s, ls)) == Final(s, ls).db
    ensures forall tid :: Accounted(Final(s, ls), History(s, ls), tid)
  {
    if ls == [] {
      assert forall tid :: EffectsOf([], tid) == [];
    } else {
      hide Accounted, Legal, Replay, Apply, Effects;
      var before, l := ls[..|ls|-1], ls[|ls|-1];
      var mid, h := Final(s, before), History(s, before);
      Linearizable(s, before);
      RunKeepsInv(s, before);
      StepExtendsHistory(s.db, mid, h, l);
      forall tid ensures Accounted(Final(s, ls), History(s, ls), tid) {
        StepAccounted(mid, h, l, tid);
      }
    }
  }

  lemma {:induction false} PrefixRuns(s: State, ls: seq<Label>, n: nat)
    requires Runs(s, ls) && n <= |ls|
    ensures Runs(s, ls[..n])
    ensures |History(s, ls[..n])| <= |History(s, ls)| && History(s, ls[..n]) == History(s, ls)[..|History(s, ls[..n])|]
    decreases |ls|
  {
    if n == |ls| {
      assert ls[..n] == ls;
    } else {
      PrefixRuns(s, ls[..|ls|-1], n);
      assert ls[..|ls|-1][..n] == ls[..n];
    }
  }

  lemma {:induction false} EffectsOfPrefix(h: seq<Entry>, n: nat, tid: CallId)
    requires n <= |h|
    ensures |EffectsOf(h[..n], tid)| <= |EffectsOf(h, tid)|
    ensures forall k :: n <= k < |h| && h[k].Effect? && h[k].tid == tid ==>
              |EffectsOf(h[..n], tid)| < |EffectsOf(h, tid)|
    decreases |h|
  {
    if n == |h| {
      assert h[..n] == h;
    } else {
      EffectsOfPrefix(h[..|h|-1], n, tid);
      assert h[..|h|-1][..n] == h[..n];
      assert forall k :: 0 <= k < |h| - 1 ==> h[..|h|-1][k] == h[k];
    }
  }

  /** A call's effect is in the history of a prefix of the run exactly if the call was answered by then. */
  lemma EffectPlace(s: State, ls: seq<Label>, n: nat, tid: CallId, p: nat)
    requires AtRest(s) && Runs(s, ls) && n <= |ls|
    requires p < |History(s, ls)| && History(s, ls)[p].Effect? && History(s, ls)[p].tid == tid
    ensures Runs(s, ls[..n])
    ensures HasAnswer(Final(s, ls[..n]), tid) <==> p < |History(s, ls[..n])|
  {
    hide Legal, Replay, WellFormed, EffectsOf;
    PrefixRuns(s, ls, n);
    var h, early := History(s, ls), History(s, ls[..n]);
    Linearizable(s, ls);
    Linearizable(s, ls[..n]);
    assert Accounted(Final(s, ls), h, tid);
    assert Accounted(Final(s, ls[..n]), early, tid);
    EffectsOfPrefix(early, 0, tid);
    EffectsOfPrefix(h, |early|, tid);
    if p < |early| {
      assert early[p] == h[p];
    }
  }

  /** The linearization keeps real-time order: if call `a` had returned before call `b` was made, then
      `a` takes effect before `b` in the history. */
  lemma RealTimeOrder(s: State, ls: seq<Label>, i: nat, j: nat, a: CallId, b: CallId, p: nat, q: nat)
    requires AtRest(s) && Runs(s, ls)
    requires i < j < |ls| && ls[i] == Respond(a) && ls[j].Invoke? && ls[j].tid == b
    requires p < |History(s, ls)| && History(s, ls)[p].Effect? && History(s, ls)[p].tid == a
    requires q < |History(s, ls)| && History(s, ls)[q].Effect? && History(s, ls)[q].tid == b
    ensures p < q
  {
    LabelEnabled(s, ls, i);
    LabelEnabled(s, ls, j);
    EffectPlace(s, ls, i, a, p);
    EffectPlace(s, ls, j, b, q);
    PrefixRuns(s, ls[..j], i);
    assert ls[..j][..i] == ls[..i];
  }

  lemma LabelEnabled(s: State, ls: seq<Label>, n: nat)
    requires Runs(s, ls) && n < |ls|
    ensures Runs(s, ls[..n]) && Enabled(Final(s, ls[..n]), ls[n])
  {
    PrefixRuns(s, ls, n);
    PrefixRuns(s, ls, n + 1);
    assert ls[..n+1][..n] == ls[..n];
  }
}
