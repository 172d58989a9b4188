/** The generated DeepCopy of SatelliteList, on the heap: structs are values that hold references, a
    pointer to a struct is a cell or an array element, and slices are windows of arrays that others may
    share. `*out = *in` aliases everything first; the rest of each method replaces what must not be
    shared. */
module DeepCopy {
  import opened Wrappers

  // ---- The object graph ----

  /** The target of a *metav1.Time. */
  class Time {
    var ns: int

    constructor (ns: int)
      ensures this.ns == ns
    {
      this.ns := ns;
    }
  }

  /** A Go map, shared by whoever holds it. */
  class StringMap {
    var entries: map<string, string>

    constructor (entries: map<string, string>)
      ensures this.entries == entries
    {
      this.entries := entries;
    }
  }

  datatype Slice<T> = Nil | Slice(arr: array<T>, off: nat, len: nat)

  datatype Condition = Condition(kind: string, status: string, generation: int, since: int, reason: string, message: string)

  datatype ObjectMeta = ObjectMeta(name: string, labels: StringMap?, deletion: Time?)

  datatype Status = Status(phase: string, managedBy: string, lastHeartbeat: Time?, conditions: Slice<Condition>)

  datatype Satellite = Satellite(typeMeta: string, meta: ObjectMeta, region: string, status: Status)

  datatype SatelliteList = SatelliteList(typeMeta: string, version: string, items: Slice<Satellite>)

  /** The target of a *SatelliteList. `repr` holds all mutable memory reachable from it. */
  class ListCell {
    var value: SatelliteList
    ghost var repr: set<object>

    constructor ()
      ensures value == SatelliteList("", "", Nil) && repr == {this}
    {
      value := SatelliteList("", "", Nil);
      repr := {this};
    }

    ghost predicate Valid()
      reads this, repr
    {
      && this in repr
      && SliceInto(value.items, repr)
      && Within(Elements(value.items, repr), repr)
    }

    /** No memory is pointed to twice from within the list. */
    ghost predicate Unshared()
      requires Valid()
      reads this, repr
    {
      Apart(Elements(value.items, repr))
    }

    ghost function Read(): ListView
      requires Valid()
      reads this, repr
    {
      ListView(value.typeMeta, value.version,
               if value.items.Nil? then None else Some(Views(Elements(value.items, repr), repr)))
    }
  }

  // ---- What a graph says, without addresses ----

  datatype SatelliteView = SatelliteView(
    typeMeta: string, name: string, labels: Option<map<string, string>>, deletion: Option<int>, region: string,
    phase: string, managedBy: string, lastHeartbeat: Option<int>, conditions: Option<seq<Condition>>)

  datatype ListView = ListView(typeMeta: string, version: string, items: Option<seq<SatelliteView>>)

  ghost predicate InBounds<T>(s: Slice<T>) {
    s.Slice? ==> s.off + s.len <= s.arr.Length
  }

  ghost predicate SliceInto<T>(s: Slice<T>, mem: set<object>) {
    InBounds(s) && (s.Slice? ==> s.arr in mem)
  }

  ghost predicate TimeInto(t: Time?, mem: set<object>) {
    t != null ==> t in mem
  }

  /** Everything a satellite struct points to is in `mem`, and its slice is well formed. */
  ghost predicate PointsInto(s: Satellite, mem: set<object>) {
    && (s.meta.labels != null ==> s.meta.labels in mem)
    && TimeInto(s.meta.deletion, mem) && TimeInto(s.status.lastHeartbeat, mem)
    && SliceInto(s.status.conditions, mem)
  }

  ghost function View(s: Satellite, mem: set<object>): SatelliteView
    requires PointsInto(s, mem)
    reads mem
  {
    SatelliteView(
      s.typeMeta, s.meta.name,
      if s.meta.labels == null then None else Some(s.meta.labels.entries),
      if s.meta.deletion == null then None else Some(s.meta.deletion.ns),
      s.region, s.status.phase, s.status.managedBy,
      if s.status.lastHeartbeat == null then None else Some(s.status.lastHeartbeat.ns),
      if s.status.conditions.Nil? then None
      else Some(s.status.conditions.arr[s.status.conditions.off..s.status.conditions.off + s.status.conditions.len]))
  }

  lemma ViewOfMore(s: Satellite, mem: set<object>, more: set<object>)
    requires PointsInto(s, mem) && mem <= more
    ensures PointsInto(s, more) && View(s, more) == View(s, mem)
  {
  }

  /** Two structs point to no common memory. */
  ghost predicate Separate(s: Satellite, t: Satellite) {
    && (s.meta.labels != null ==> s.meta.labels != t.meta.labels)
    && (s.meta.deletion != null ==> s.meta.deletion != t.meta.deletion && s.meta.deletion != t.status.lastHeartbeat)
    && (s.status.lastHeartbeat != null ==>
          s.status.lastHeartbeat != t.meta.deletion && s.status.lastHeartbeat != t.status.lastHeartbeat)
    && (s.status.conditions.Slice? && t.status.conditions.Slice? ==> s.status.conditions.arr != t.status.conditions.arr)
  }

  /** The structs in the window of a slice. */
  ghost function Elements(items: Slice<Satellite>, mem: set<object>): seq<Satellite>
    requires SliceInto(items, mem)
    reads mem
  {
    if items.Nil? then [] else items.arr[items.off..items.off + items.len]
  }

  ghost predicate Within(sats: seq<Satellite>, mem: set<object>) {
    forall i :: 0 <= i < |sats| ==> PointsInto(sats[i], mem)
  }

  ghost function Views(sats: seq<Satellite>, mem: set<object>): (views: seq<SatelliteView>)
    requires Within(sats, mem)
    reads mem
    ensures |views| == |sats|
    ensures forall i :: 0 <= i < |sats| ==> views[i] == View(sats[i], mem)
  {
    if sats == [] then [] else Views(sats[..|sats|-1], mem) + [View(sats[|sats|-1], mem)]
  }

  lemma ViewsOfMore(sats: seq<Satellite>, mem: set<object>, more: set<object>)
    requires Within(sats, mem) && mem <= more
    ensures Within(sats, more) && Views(sats, more) == Views(sats, mem)
  {
    hide View;
    forall i | 0 <= i < |sats| ensures PointsInto(sats[i], more) && View(sats[i], more) == View(sats[i], mem) {
      ViewOfMore(sats[i], mem, more);
    }
    assert forall i :: 0 <= i < |sats| ==> Views(sats, more)[i] == Views(sats, mem)[i];
  }

  /** A struct's two times are not in one place. */
  ghost predicate TwoTimes(s: Satellite) {
    s.meta.deletion != null ==> s.meta.deletion != s.status.lastHeartbeat
  }

  /** No memory is pointed to twice. */
  ghost predicate Apart(sats: seq<Satellite>) {
    && (forall i :: 0 <= i < |sats| ==> TwoTimes(sats[i]))
    && (forall i, j :: 0 <= i < j < |sats| ==> Separate(sats[i], sats[j]))
  }

  // ---- The generated methods ----

  method CopyTime(t: Time?) returns (c: Time?)
    ensures (c == null <==> t == null) && (t != null ==> fresh(c) && c.ns == t.ns)
  {
    c := null;
    if t != null {
      c := new Time(t.ns);
    }
  }

  /** ObjectMeta.DeepCopyInto, for the fields modelled here. */
  method CopyMeta(src: ObjectMeta) returns (out: ObjectMeta)
    ensures out.name == src.name
    ensures out.labels == null <==> src.labels == null
    ensures out.labels != null ==> fresh(out.labels) && out.labels.entries == src.labels.entries
    ensures out.deletion == null <==> src.deletion == null
    ensures out.deletion != null ==> fresh(out.deletion) && out.deletion.ns == src.deletion.ns
  {
    out := src;
    if src.labels != null {
      var labels := new StringMap(src.labels.entries);
      out := out.(labels := labels);
    }
    var deletion := CopyTime(src.deletion);
    out := out.(deletion := deletion);
  }

  /** The loop over Conditions. */
  method CopyConditions(src: Slice<Condition>) returns (out: Slice<Condition>)
    requires InBounds(src)
    ensures InBounds(out) && (out.Nil? <==> src.Nil?)
    ensures out.Slice? ==> fresh(out.arr) &&
                           out.arr[out.off..out.off + out.len] == src.arr[src.off..src.off + src.len]
  {
    out := src;
    if src.Slice? {
      var arr := new Condition[src.len];
      out := Slice(arr, 0, src.len);
      for i := 0 to src.len
        invariant forall k :: 0 <= k < i ==> arr[k] == src.arr[src.off + k]
      {
        arr[i] := src.arr[src.off + i];
      }
    }
  }

  /** (*SatelliteStatus).DeepCopyInto. */
  method CopyStatus(src: Status) returns (out: Status)
    requires InBounds(src.conditions)
    ensures out.phase == src.phase && out.managedBy == src.managedBy
    ensures out.lastHeartbeat == null <==> src.lastHeartbeat == null
    ensures out.lastHeartbeat != null ==> fresh(out.lastHeartbeat) && out.lastHeartbeat.ns == src.lastHeartbeat.ns
    ensures InBounds(out.conditions) && (out.conditions.Nil? <==> src.conditions.Nil?)
    ensures out.conditions.Slice? ==>
              fresh(out.conditions.arr) &&
              out.conditions.arr[out.conditions.off..out.conditions.off + out.conditions.len]
              == src.conditions.arr[src.conditions.off..src.conditions.off + src.conditions.len]
  {
    out := src;
    var heartbeat := CopyTime(src.lastHeartbeat);
    out := out.(lastHeartbeat := heartbeat);
    var conditions := CopyConditions(src.conditions);
    out := out.(conditions := conditions);
  }

  /** What a struct points to. */
  ghost function Pointees(s: Satellite): set<object> {
    (if s.meta.labels == null then {} else {s.meta.labels as object})
    + (if s.meta.deletion == null then {} else {s.meta.deletion as object})
    + (if s.status.lastHeartbeat == null then {} else {s.status.lastHeartbeat as object})
    + (if s.status.conditions.Nil? then {} else {s.status.conditions.arr as object})
  }

  /** (*Satellite).DeepCopyInto, from one array element to another; the copy is made in memory `made`. */
  method DeepCopyElement(src: array<Satellite>, i: nat, out: array<Satellite>, j: nat, ghost mem: set<object>)
    returns (ghost made: set<object>)
    requires i < src.Length && j < out.Length && src != out
    requires PointsInto(src[i], mem) && out !in mem
    modifies out
    ensures forall k :: 0 <= k < out.Length && k != j ==> out[k] == old(out[k])
    ensures fresh(made) && PointsInto(out[j], made) && View(out[j], made) == old(View(src[i], mem)) && TwoTimes(out[j])
    ensures out[j].typeMeta == src[i].typeMeta && out[j].meta.name == src[i].meta.name && out[j].region == src[i].region
    ensures out[j].status.phase == src[i].status.phase && out[j].status.managedBy == src[i].status.managedBy
    ensures out[j].meta.deletion != null <==> src[i].meta.deletion != null
    ensures out[j].meta.deletion != null ==> out[j].meta.deletion.ns == src[i].meta.deletion.ns
    ensures out[j].status.lastHeartbeat != null <==> src[i].status.lastHeartbeat != null
    ensures out[j].status.lastHeartbeat != null ==> out[j].status.lastHeartbeat.ns == src[i].status.lastHeartbeat.ns
  {
    out[j] := src[i];
    var meta := CopyMeta(src[i].meta);
    out[j] := out[j].(meta := meta);
    var status := CopyStatus(src[i].status);
    out[j] := out[j].(status := status);
    made := Pointees(out[j]);
  }

  /** The first `i` elements are copies that say `want`, each in memory of its own within `copied`. */
  ghost predicate Progress(arr: array<Satellite>, i: nat, copied: set<object>, want: seq<SatelliteView>)
    reads arr, copied
  {
    && i <= arr.Length == |want|
    && arr !in copied
    && (forall k :: 0 <= k < i ==> PointsInto(arr[k], copied) && View(arr[k], copied) == want[k])
    && (forall k :: 0 <= k < i ==> TwoTimes(arr[k]))
    && (forall k, m :: 0 <= k < m < i ==> Separate(arr[k], arr[m]))
  }

  lemma ProgressInMore(arr: array<Satellite>, i: nat, copied: set<object>, more: set<object>, want: seq<SatelliteView>)
    requires Progress(arr, i, copied, want) && copied <= more && arr !in more
    ensures Progress(arr, i, more, want)
  {
    hide View;
    forall k | 0 <= k < i ensures PointsInto(arr[k], more) && View(arr[k], more) == want[k] {
      ViewOfMore(arr[k], copied, more);
    }
  }

  /** One round of the loop over Items. */
  method CopyNext(src: array<Satellite>, k: nat, arr: array<Satellite>, i: nat,
                  ghost mem: set<object>, ghost copied: set<object>, ghost want: seq<SatelliteView>)
    returns (ghost more: set<object>)
    requires k < src.Length && src != arr && PointsInto(src[k], mem) && arr !in mem
    requires i < arr.Length && Progress(arr, i, copied, want) && View(src[k], mem) == want[i]
    modifies arr
    ensures Progress(arr, i + 1, more, want) && copied <= more && fresh(more - copied)
  {
    hide View;
    ghost var made := DeepCopyElement(src, k, arr, i, mem);
    more := copied + made;
    assert Progress(arr, i, copied, want);
    ProgressInMore(arr, i, copied, more, want);
    ViewOfMore(arr[i], made, more);
  }

  lemma ProgressStart(arr: array<Satellite>, want: seq<SatelliteView>)
    requires arr.Length == |want|
    ensures Progress(arr, 0, {}, want)
  {
  }

  lemma ProgressDone(arr: array<Satellite>, copied: set<object>, want: seq<SatelliteView>)
    requires Progress(arr, arr.Length, copied, want)
    ensures arr !in copied && Within(arr[..], copied) && Views(arr[..], copied) == want && Apart(arr[..])
  {
    hide View;
  }

  /** The loop over Items: copies the window `sats` of `src` into the new array `arr`. */
  method CopyWindow(src: array<Satellite>, off: nat, arr: array<Satellite>, ghost sats: seq<Satellite>, ghost mem: set<object>)
    returns (ghost copied: set<object>)
    requires off + arr.Length <= src.Length && src[off..off + arr.Length] == sats
    requires src != arr && arr !in mem && Within(sats, mem)
    modifies arr
    ensures fresh(copied) && arr !in copied && Within(arr[..], copied)
    ensures Views(arr[..], copied) == old(Views(sats, mem)) && Apart(arr[..])
  {
    hide View, Progress;
    copied := {};
    ghost var want := Views(sats, mem);
    ProgressStart(arr, want);
    for i := 0 to arr.Length
      invariant fresh(copied) && Progress(arr, i, copied, want)
    {
      assert src[off + i] == sats[i];
      copied := CopyNext(src, off + i, arr, i, mem, copied, want);
    }
    ProgressDone(arr, copied, want);
  }

  /** The Items slice: no two copied items share memory, even where the originals do. */
  method CopyItems(src: Slice<Satellite>, ghost mem: set<object>) returns (out: Slice<Satellite>, ghost copied: set<object>)
    requires SliceInto(src, mem) && Within(Elements(src, mem), mem)
    ensures fresh(copied) && SliceInto(out, copied) && Within(Elements(out, copied), copied)
    ensures out.Nil? <==> src.Nil?
    ensures Views(Elements(out, copied), copied) == old(Views(Elements(src, mem), mem))
    ensures Apart(Elements(out, copied))
  {
    hide View, Views, Within, Apart;
    out, copied := src, {};
    if src.Nil? {
      NothingToCopy();
    } else {
      var arr := new Satellite[src.len];
      out := Slice(arr, 0, src.len);
      ghost var made := CopyWindow(src.arr, src.off, arr, Elements(src, mem), mem);
      copied := made + {arr};
      assert Elements(out, copied) == arr[..];
      ViewsOfMore(arr[..], made, copied);
    }
  }

  lemma NothingToCopy()
    ensures Within([], {}) && Apart([]) && forall mem :: Within([], mem) && Views([], mem) == []
  {
  }

  /** (*SatelliteList).DeepCopyInto. */
  method DeepCopyInto(src: ListCell, out: ListCell)
    requires src != out && src.Valid() && out !in src.repr
    modifies out
    ensures out.Valid() && fresh(out.repr - {out})
    ensures src.Valid() && out.Read() == src.Read() == old(src.Read())
    ensures out.Unshared()
  {
    hide View, Views, Within, Apart;
    out.value := src.value;
    var items, copied := CopyItems(src.value.items, src.repr);
    out.value := out.value.(items := items);
    out.repr := {out} + copied;
    assert Elements(items, out.repr) == Elements(items, copied);
    ViewsOfMore(Elements(items, copied), copied, out.repr);
  }

  /** (*SatelliteList).DeepCopy: nil for nil, and otherwise an equal graph in memory of its own. */
  method DeepCopyList(src: ListCell?) returns (out: ListCell?)
    requires src != null ==> src.Valid()
    ensures out == null <==> src == null
    ensures src != null ==>
              && src.Valid() && out.Valid() && fresh(out.repr)
              && out.Read() == src.Read() == old(src.Read())
              && out.Unshared()
  {
    hide View, Views, Within, Apart;
    out := null;
    if src != null {
      out := new ListCell();
      DeepCopyInto(src, out);
    }
  }

  // ---- Writes ----

  datatype Field = TypeMeta | Name | Region | Phase | ManagedBy

  datatype TimeField = Deletion | LastHeartbeat

  /** A write to one item: to a field of the struct, to memory that it points to (`Set...`), or giving it new
      memory or nil to point to (`Point...`). */
  datatype ItemEdit =
    | SetField(field: Field, text: string)
    | SetTime(time: TimeField, ns: int)
    | PointTime(time: TimeField, at: Option<int>)
    | SetCondition(k: nat, condition: Condition)
    | PointConditions(conditions: Option<seq<Condition>>)
    | SetLabel(key: string, entry: Option<string>)
    | PointLabels(labels: Option<map<string, string>>)
    | Overwrite(item: SatelliteView)

  /** A write through a list pointer. `Share` assigns one item to another, which makes them share what the
      struct points to. */
  datatype Edit =
    | SetListMeta(typeMeta: string, version: string)
    | PointItems(items: Option<seq<SatelliteView>>)
    | At(i: nat, edit: ItemEdit)
    | Share(i: nat, from: nat)

  // ---- What writes mean ----

  function EditField(v: SatelliteView, f: Field, text: string): SatelliteView {
    match f
    case TypeMeta => v.(typeMeta := text)
    case Name => v.(name := text)
    case Region => v.(region := text)
    case Phase => v.(phase := text)
    case ManagedBy => v.(managedBy := text)
  }

  function EditTime(v: SatelliteView, t: TimeField, ns: Option<int>): SatelliteView {
    if t.Deletion? then v.(deletion := ns) else v.(lastHeartbeat := ns)
  }

  function TimeOf(v: SatelliteView, t: TimeField): Option<int> {
    if t.Deletion? then v.deletion else v.lastHeartbeat
  }

  function WithLabel(entries: map<string, string>, key: string, entry: Option<string>): map<string, string> {
    match entry
    case Some(text) => entries[key := text]
    case None => entries - {key}
  }

  /** A write that has nowhere to go does nothing. */
  function EditItem(v: SatelliteView, e: ItemEdit): SatelliteView {
    match e
    case SetField(f, text) => EditField(v, f, text)
    case SetTime(t, ns) => if TimeOf(v, t).Some? then EditTime(v, t, Some(ns)) else v
    case PointTime(t, ns) => EditTime(v, t, ns)
    case SetCondition(k, c) =>
      if v.conditions.Some? && k < |v.conditions.value| then v.(conditions := Some(v.conditions.value[k := c])) else v
    case PointConditions(cs) => v.(conditions := cs)
    case SetLabel(key, entry) =>
      if v.labels.Some? then v.(labels := Some(WithLabel(v.labels.value, key, entry))) else v
    case PointLabels(labels) => v.(labels := labels)
    case Overwrite(item) => item
  }

  function EditList(v: ListView, e: Edit): ListView {
    match e
    case SetListMeta(typeMeta, version) => v.(typeMeta := typeMeta, version := version)
    case PointItems(items) => v.(items := items)
    case At(i, edit) =>
      if v.items.Some? && i < |v.items.value| then
        v.(items := Some(v.items.value[i := EditItem(v.items.value[i], edit)]))
      else v
    case Share(i, from) =>
      if v.items.Some? && i < |v.items.value| && from < |v.items.value| then
        v.(items := Some(v.items.value[i := v.items.value[from]]))
      else v
  }

  function EditAll(v: ListView, es: seq<Edit>): ListView {
    if es == [] then v else EditList(EditAll(v, es[..|es|-1]), es[|es|-1])
  }

  // ---- Writes on the heap ----

  method NewTime(ns: Option<int>) returns (t: Time?)
    ensures t == null <==> ns.None?
    ensures t != null ==> fresh(t) && Some(t.ns) == ns
  {
    t := null;
    if ns.Some? {
      t := new Time(ns.value);
    }
  }

  method NewLabels(labels: Option<map<string, string>>) returns (m: StringMap?)
    ensures m == null <==> labels.None?
    ensures m != null ==> fresh(m) && Some(m.entries) == labels
  {
    m := null;
    if labels.Some? {
      m := new StringMap(labels.value);
    }
  }

  method NewConditions(conditions: Option<seq<Condition>>) returns (c: Slice<Condition>)
    ensures InBounds(c) && (c.Nil? <==> conditions.None?)
    ensures c.Slice? ==> fresh(c.arr) && Some(c.arr[c.off..c.off + c.len]) == conditions
  {
    c := Nil;
    if conditions.Some? {
      var want := conditions.value;
      var arr := new Condition[|want|](i requires 0 <= i < |want| => want[i]);
      assert arr[0..0 + |want|] == arr[..] == want;
      c := Slice(arr, 0, |want|);
    }
  }

  method NewItem(v: SatelliteView) returns (s: Satellite, ghost made: set<object>)
    ensures fresh(made) && PointsInto(s, made) && View(s, made) == v && TwoTimes(s)
  {
    var labels := NewLabels(v.labels);
    var deletion := NewTime(v.deletion);
    var heartbeat := NewTime(v.lastHeartbeat);
    var conditions := NewConditions(v.conditions);
    s := Satellite(v.typeMeta, ObjectMeta(v.name, labels, deletion), v.region,
                   Status(v.phase, v.managedBy, heartbeat, conditions));
    made := Pointees(s);
  }

  /** What `s` points to, `was` pointed to in the same place, or it is in `made`. */
  ghost predicate Inherits(s: Satellite, was: Satellite, made: set<object>) {
    && (s.meta.labels == was.meta.labels || s.meta.labels == null || s.meta.labels in made)
    && (s.meta.deletion == was.meta.deletion || s.meta.deletion == null || s.meta.deletion in made)
    && (s.status.lastHeartbeat == was.status.lastHeartbeat || s.status.lastHeartbeat == null || s.status.lastHeartbeat in made)
    && (s.status.conditions == was.status.conditions || s.status.conditions.Nil? || s.status.conditions.arr in made)
    && (TwoTimes(was) ==> TwoTimes(s))
  }

  lemma InheritingKeepsApart(sats: seq<Satellite>, i: nat, s: Satellite, mem: set<object>, made: set<object>)
    requires i < |sats| && Within(sats, mem) && made !! mem && Inherits(s, sats[i], made)
    ensures Apart(sats) ==> Apart(sats[i := s])
  {
  }

  predicate ToStruct(e: ItemEdit) {
    e.SetField? || e.PointTime? || e.PointConditions? || e.PointLabels? || e.Overwrite?
  }

  function WithField(s: Satellite, f: Field, text: string): Satellite {
    match f
    case TypeMeta => s.(typeMeta := text)
    case Name => s.(meta := s.meta.(name := text))
    case Region => s.(region := text)
    case Phase => s.(status := s.status.(phase := text))
    case ManagedBy => s.(status := s.status.(managedBy := text))
  }

  lemma FieldWritten(s: Satellite, f: Field, text: string, mem: set<object>)
    requires PointsInto(s, mem)
    ensures var t := WithField(s, f, text);
            Inherits(t, s, {}) && PointsInto(t, mem) && View(t, mem) == EditField(View(s, mem), f, text)
  {
  }

  method WithNewTime(was: Satellite, t: TimeField, ns: Option<int>, ghost mem: set<object>)
    returns (s: Satellite, ghost made: set<object>)
    requires PointsInto(was, mem)
    ensures fresh(made) && Inherits(s, was, made)
    ensures PointsInto(s, mem + made) && View(s, mem + made) == EditTime(View(was, mem), t, ns)
  {
    var time := NewTime(ns);
    s := if t.Deletion? then was.(meta := was.meta.(deletion := time)) else was.(status := was.status.(lastHeartbeat := time));
    made := if time == null then {} else {time};
  }

  method WithNewConditions(was: Satellite, to: Option<seq<Condition>>, ghost mem: set<object>)
    returns (s: Satellite, ghost made: set<object>)
    requires PointsInto(was, mem)
    ensures fresh(made) && Inherits(s, was, made)
    ensures PointsInto(s, mem + made) && View(s, mem + made) == View(was, mem).(conditions := to)
  {
    var conditions := NewConditions(to);
    s := was.(status := was.status.(conditions := conditions));
    made := if conditions.Nil? then {} else {conditions.arr};
  }

  method WithNewLabels(was: Satellite, to: Option<map<string, string>>, ghost mem: set<object>)
    returns (s: Satellite, ghost made: set<object>)
    requires PointsInto(was, mem)
    ensures fresh(made) && Inherits(s, was, made)
    ensures PointsInto(s, mem + made) && View(s, mem + made) == View(was, mem).(labels := to)
  {
    var labels := NewLabels(to);
    s := was.(meta := was.meta.(labels := labels));
    made := if labels == null then {} else {labels};
  }

  /** The struct after a write to it. */
  method Rewritten(was: Satellite, e: ItemEdit, ghost mem: set<object>) returns (s: Satellite, ghost made: set<object>)
    requires ToStruct(e) && PointsInto(was, mem)
    ensures fresh(made) && Inherits(s, was, made)
    ensures PointsInto(s, mem + made) && View(s, mem + made) == EditItem(View(was, mem), e)
  {
    hide View, WithField, EditField, EditTime;
    match e
    case SetField(f, text) =>
      assert mem + {} == mem;
      s, made := WithField(was, f, text), {};
      FieldWritten(was, f, text, mem);
    case PointTime(t, ns) =>
      s, made := WithNewTime(was, t, ns, mem);
    case PointConditions(cs) =>
      s, made := WithNewConditions(was, cs, mem);
    case PointLabels(ls) =>
      s, made := WithNewLabels(was, ls, mem);
    case Overwrite(item) =>
      s, made := NewItem(item);
      ViewOfMore(s, made, mem + made);
  }

  /** The assignment itself. What any structs say in memory `mem` is not affected by it. */
  method Assign(l: ListCell, at: nat, s: Satellite, ghost others: seq<Satellite>, ghost mem: set<object>)
    requires l.value.items.Slice? && at < l.value.items.arr.Length && Within(others, mem)
    modifies l.value.items.arr, l`repr
    ensures l.repr == mem && l.value.items.arr[..] == old(l.value.items.arr[..])[at := s]
    ensures forall k :: 0 <= k < |others| ==> View(others[k], mem) == old(View(others[k], mem))
  {
    l.value.items.arr[at] := s;
    l.repr := mem;
  }

  /** An assignment to a whole item. */
  method PutStruct(l: ListCell, i: nat, s: Satellite, ghost made: set<object>)
    requires l.Valid() && l.value.items.Slice? && i < l.value.items.len
    requires PointsInto(s, l.repr + made)
    modifies l.value.items.arr, l`repr
    ensures l.Valid() && l.repr == old(l.repr) + made
    ensures Elements(l.value.items, l.repr) == old(Elements(l.value.items, l.repr))[i := s]
    ensures Views(Elements(l.value.items, l.repr), l.repr)
            == old(Views(Elements(l.value.items, l.repr), l.repr))[i := old(View(s, l.repr + made))]
  {
    hide View;
    var items := l.value.items;
    ghost var sats, mem := Elements(items, l.repr), l.repr + made;
    ViewsOfMore(sats, l.repr, mem);
    Assign(l, items.off + i, s, sats + [s], mem);
    ghost var all := sats + [s];
    assert Elements(items, l.repr) == sats[i := s];
    assert View(all[|sats|], mem) == old(View(s, l.repr + made));
    forall k | 0 <= k < |sats| ensures View(sats[k], mem) == old(View(sats[k], l.repr + made)) {
      assert all[k] == sats[k];
    }
  }

  method SetNs(time: Time, ns: int, ghost sats: seq<Satellite>, ghost i: nat, ghost mem: set<object>)
    requires i < |sats| && Within(sats, mem)
    requires time == sats[i].meta.deletion || time == sats[i].status.lastHeartbeat
    modifies time
    ensures Apart(sats) ==> forall k :: 0 <= k < |sats| && k != i ==> View(sats[k], mem) == old(View(sats[k], mem))
    ensures TwoTimes(sats[i]) ==>
              View(sats[i], mem) == EditTime(old(View(sats[i], mem)),
                                             if time == sats[i].meta.deletion then Deletion else LastHeartbeat, Some(ns))
  {
    time.ns := ns;
  }

  method WriteTime(s: Satellite, t: TimeField, ns: int, ghost sats: seq<Satellite>, ghost i: nat, ghost mem: set<object>)
    requires i < |sats| && s == sats[i] && Within(sats, mem)
    modifies set x: Time | x in mem
    ensures Apart(sats) ==> Views(sats, mem) == var was := old(Views(sats, mem)); was[i := EditItem(was[i], SetTime(t, ns))]
  {
    var time := if t.Deletion? then s.meta.deletion else s.status.lastHeartbeat;
    ghost var was := View(s, mem);
    assert time != null <==> TimeOf(was, t).Some?;
    hide View;
    if time != null {
      SetNs(time, ns, sats, i, mem);
    }
  }

  method SetSlot(cs: Slice<Condition>, at: nat, c: Condition, ghost sats: seq<Satellite>, ghost i: nat, ghost mem: set<object>)
    requires i < |sats| && Within(sats, mem) && cs == sats[i].status.conditions && cs.Slice? && at < cs.len
    modifies cs.arr
    ensures Apart(sats) ==> forall k :: 0 <= k < |sats| && k != i ==> View(sats[k], mem) == old(View(sats[k], mem))
    ensures View(sats[i], mem) == EditItem(old(View(sats[i], mem)), SetCondition(at, c))
  {
    cs.arr[cs.off + at] := c;
  }

  method WriteCondition(s: Satellite, at: nat, c: Condition, ghost sats: seq<Satellite>, ghost i: nat, ghost mem: set<object>)
    requires i < |sats| && s == sats[i] && Within(sats, mem)
    modifies set x: array<Condition> | x in mem
    ensures Apart(sats) ==> Views(sats, mem) == var was := old(Views(sats, mem)); was[i := EditItem(was[i], SetCondition(at, c))]
  {
    var cs := s.status.conditions;
    ghost var was := View(s, mem);
    assert cs.Slice? <==> was.conditions.Some?;
    assert cs.Slice? ==> cs.len == |was.conditions.value|;
    hide View;
    if cs.Slice? && at < cs.len {
      SetSlot(cs, at, c, sats, i, mem);
    }
  }

  method SetEntry(m: StringMap, key: string, entry: Option<string>, ghost sats: seq<Satellite>, ghost i: nat, ghost mem: set<object>)
    requires i < |sats| && Within(sats, mem) && m == sats[i].meta.labels
    modifies m
    ensures Apart(sats) ==> forall k :: 0 <= k < |sats| && k != i ==> View(sats[k], mem) == old(View(sats[k], mem))
    ensures View(sats[i], mem) == EditItem(old(View(sats[i], mem)), SetLabel(key, entry))
  {
    m.entries := WithLabel(m.entries, key, entry);
  }

  method WriteLabel(s: Satellite, key: string, entry: Option<string>, ghost sats: seq<Satellite>, ghost i: nat, ghost mem: set<object>)
    requires i < |sats| && s == sats[i] && Within(sats, mem)
    modifies set x: StringMap | x in mem
    ensures Apart(sats) ==> Views(sats, mem) == var was := old(Views(sats, mem)); was[i := EditItem(was[i], SetLabel(key, entry))]
  {
    ghost var was := View(s, mem);
    assert s.meta.labels != null <==> was.labels.Some?;
    hide View;
    if s.meta.labels != null {
      SetEntry(s.meta.labels, key, entry, sats, i, mem);
    }
  }

  /** A write to memory that the item points to. It shows on this item only if nothing else points there. */
  method WriteThrough(l: ListCell, i: nat, e: ItemEdit)
    requires l.Valid() && l.value.items.Slice? && i < l.value.items.len && !ToStruct(e)
    modifies l.repr
    ensures l.Valid() && l.repr == old(l.repr) && l.value == old(l.value)
    ensures Elements(l.value.items, l.repr) == old(Elements(l.value.items, l.repr))
    ensures Apart(Elements(l.value.items, l.repr)) ==>
              Views(Elements(l.value.items, l.repr), l.repr)
              == var was := old(Views(Elements(l.value.items, l.repr), l.repr)); was[i := EditItem(was[i], e)]
  {
    ghost var sats := Elements(l.value.items, l.repr);
    var s := l.value.items.arr[l.value.items.off + i];
    assert s == sats[i];
    match e
    case SetTime(t, ns) =>
      WriteTime(s, t, ns, sats, i, l.repr);
    case SetCondition(k, c) =>
      WriteCondition(s, k, c, sats, i, l.repr);
    case SetLabel(key, entry) =>
      WriteLabel(s, key, entry, sats, i, l.repr);
  }

  method EditStruct(l: ListCell, i: nat, e: ItemEdit)
    requires l.Valid() && l.value.items.Slice? && i < l.value.items.len && ToStruct(e)
    modifies l.value.items.arr, l`repr
    ensures l.Valid() && old(l.repr) <= l.repr && fresh(l.repr - old(l.repr)) && l.value == old(l.value)
    ensures old(l.Unshared()) ==> l.Unshared()
    ensures Views(Elements(l.value.items, l.repr), l.repr)
            == var was := old(Views(Elements(l.value.items, l.repr), l.repr)); was[i := EditItem(was[i], e)]
  {
    hide View, EditItem, Apart, Separate;
    ghost var sats, mem := Elements(l.value.items, l.repr), l.repr;
    var was := l.value.items.arr[l.value.items.off + i];
    assert was == sats[i];
    var s, made := Rewritten(was, e, mem);
    InheritingKeepsApart(sats, i, s, mem, made);
    PutStruct(l, i, s, made);
  }

  method EditOneItem(l: ListCell, i: nat, e: ItemEdit)
    requires l.Valid() && l.value.items.Slice? && i < l.value.items.len
    modifies l.repr
    ensures l.Valid() && old(l.repr) <= l.repr && fresh(l.repr - old(l.repr)) && l.value == old(l.value)
    ensures old(l.Unshared()) ==>
              l.Unshared() && Views(Elements(l.value.items, l.repr), l.repr)
              == var was := old(Views(Elements(l.value.items, l.repr), l.repr)); was[i := EditItem(was[i], e)]
  {
    hide View, EditItem, Apart;
    if ToStruct(e) {
      EditStruct(l, i, e);
    } else {
      WriteThrough(l, i, e);
    }
  }

  /** A new array of new items. */
  method NewItems(items: Option<seq<SatelliteView>>) returns (out: Slice<Satellite>, ghost made: set<object>)
    ensures fresh(made) && SliceInto(out, made) && (out.Nil? <==> items.None?)
    ensures Within(Elements(out, made), made) && Apart(Elements(out, made))
    ensures items.Some? ==> Views(Elements(out, made), made) == items.value
  {
    hide View, Views, Within, Apart, Progress;
    out, made := Nil, {};
    if items.None? {
      NothingToCopy();
    } else {
      var want := items.value;
      var blank := Satellite("", ObjectMeta("", null, null), "", Status("", "", null, Nil));
      var arr := new Satellite[|want|](_ => blank);
      ProgressStart(arr, want);
      for i := 0 to |want|
        invariant fresh(made) && Progress(arr, i, made, want)
      {
        made := FillNext(arr, i, made, want);
      }
      ProgressDone(arr, made, want);
      ghost var copied := made;
      made := made + {arr};
      out := Slice(arr, 0, |want|);
      assert Elements(out, made) == arr[..];
      ViewsOfMore(arr[..], copied, made);
    }
  }

  method FillNext(arr: array<Satellite>, i: nat, ghost filled: set<object>, want: seq<SatelliteView>)
    returns (ghost more: set<object>)
    requires i < arr.Length && Progress(arr, i, filled, want)
    modifies arr
    ensures Progress(arr, i + 1, more, want) && filled <= more && fresh(more - filled)
  {
    hide View;
    var s, made := NewItem(want[i]);
    more := filled + made;
    arr[i] := s;
    assert Progress(arr, i, filled, want);
    ProgressInMore(arr, i, filled, more, want);
    ViewOfMore(arr[i], made, more);
  }

  method WriteMeta(l: ListCell, typeMeta: string, version: string)
    requires l.Valid()
    modifies l`value
    ensures l.value == old(l.value).(typeMeta := typeMeta, version := version)
    ensures l.Valid() && Elements(l.value.items, l.repr) == old(Elements(l.value.items, l.repr))
    ensures Views(Elements(l.value.items, l.repr), l.repr) == old(Views(Elements(l.value.items, l.repr), l.repr))
  {
    ghost var sats := Elements(l.value.items, l.repr);
    l.value := l.value.(typeMeta := typeMeta, version := version);
    forall k | 0 <= k < |sats| ensures View(sats[k], l.repr) == old(View(sats[k], l.repr)) {
    }
  }

  /** Any write keeps the list well formed, in its own memory and new memory. If no memory was shared, what
      the list says afterwards is what it said, edited; and no memory is shared unless the write shares. */
  method Perform(l: ListCell, e: Edit)
    requires l.Valid()
    modifies l.repr
    ensures l.Valid() && old(l.repr) <= l.repr && fresh(l.repr - old(l.repr))
    ensures old(l.Unshared()) ==> l.Read() == EditList(old(l.Read()), e) && (!e.Share? ==> l.Unshared())
  {
    hide View, Views, EditItem, Apart;
    match e
    case SetListMeta(typeMeta, version) =>
      WriteMeta(l, typeMeta, version);
    case PointItems(to) =>
      var items, made := NewItems(to);
      l.value := l.value.(items := items);
      l.repr := l.repr + made;
      ViewsOfMore(Elements(items, made), made, l.repr);
    case At(i, edit) =>
      if l.value.items.Slice? && i < l.value.items.len {
        EditOneItem(l, i, edit);
      }
    case Share(i, from) =>
      if l.value.items.Slice? && i < l.value.items.len && from < l.value.items.len {
        var s := l.value.items.arr[l.value.items.off + from];
        assert s == Elements(l.value.items, l.repr)[from] && l.repr + {} == l.repr;
        PutStruct(l, i, s, {});
      }
  }

  ghost predicate NoShare(es: seq<Edit>) {
    forall e :: e in es ==> !e.Share?
  }

  method PerformAll(l: ListCell, es: seq<Edit>)
    requires l.Valid()
    modifies l.repr
    ensures l.Valid() && old(l.repr) <= l.repr && fresh(l.repr - old(l.repr))
    ensures old(l.Unshared()) && NoShare(es) ==>
              l.Unshared() && l.Read() == EditAll(old(l.Read()), es)
  {
    hide View, Views, EditItem, EditList, Apart, Within;
    ghost var was := l.Read();
    ghost var exact := l.Unshared() && NoShare(es);
    for i := 0 to |es|
      invariant l.Valid() && old(l.repr) <= l.repr && fresh(l.repr - old(l.repr))
      invariant exact ==> l.Unshared() && l.Read() == EditAll(was, es[..i])
    {
      Perform(l, es[i]);
      assert es[i] in es && es[..i+1][..i] == es[..i];
    }
    assert es[..|es|] == es;
  }

  // ---- Writes to one side do not show on the other ----

  /** No sequence of writes to the copy changes what the original says; and the copy then says what the
      original says, edited. */
  method EditsOfCopyStayPrivate(src: ListCell, es: seq<Edit>) returns (copy: ListCell)
    requires src.Valid()
    ensures copy.Valid() && src.Valid() && src.Read() == old(src.Read())
    ensures NoShare(es) ==> copy.Read() == EditAll(src.Read(), es)
  {
    hide View, Views, Within, Apart;
    var out := DeepCopyList(src);
    copy := out;
    PerformAll(copy, es);
  }

  /** No sequence of writes to the original changes what the copy says, whatever the original shares; and
      where it shares nothing, the original then says what the copy says, edited. */
  method EditsOfOriginalStayPrivate(src: ListCell, es: seq<Edit>) returns (copy: ListCell)
    requires src.Valid()
    modifies src.repr
    ensures copy.Valid() && src.Valid() && copy.Read() == old(src.Read())
    ensures old(src.Unshared()) && NoShare(es) ==> src.Read() == EditAll(copy.Read(), es)
  {
    var out := DeepCopyList(src);
    copy := out;
    PerformAll(src, es);
  }

  // ---- Writes to both sides in any order ----

  datatype Side = Original | Copy

  /** The writes that go to one side. */
  function Of(es: seq<(Side, Edit)>, side: Side): seq<Edit> {
    if es == [] then []
    else
      var before := Of(es[..|es|-1], side);
      var (on, e) := es[|es|-1];
      if on == side then before + [e] else before
  }

  /** The list says what `was` says, edited; which is claimed only if nothing was shared at first. */
  ghost predicate Says(l: ListCell, was: ListView, es: seq<Edit>, apart: bool)
    requires l.Valid()
    reads l, l.repr
  {
    apart && NoShare(es) ==> l.Unshared() && l.Read() == EditAll(was, es)
  }

  lemma EditAllSnoc(v: ListView, es: seq<Edit>, e: Edit)
    ensures EditAll(v, es + [e]) == EditList(EditAll(v, es), e)
    ensures NoShare(es + [e]) <==> NoShare(es) && !e.Share?
  {
    assert (es + [e])[..|es|] == es;
    assert e in es + [e] && forall x :: x in es ==> x in es + [e];
  }

  /** One write to one of two lists that have no memory in common. */
  method PerformBeside(l: ListCell, e: Edit, other: ListCell,
                       ghost was: ListView, ghost mine: seq<Edit>, ghost apart: bool,
                       ghost theirs: seq<Edit>, ghost otherApart: bool)
    requires l.Valid() && other.Valid() && l.repr !! other.repr
    requires Says(l, was, mine, apart) && Says(other, was, theirs, otherApart)
    modifies l.repr
    ensures l.Valid() && other.Valid() && l.repr !! other.repr
    ensures old(l.repr) <= l.repr && fresh(l.repr - old(l.repr)) && other.repr == old(other.repr)
    ensures Says(l, was, mine + [e], apart) && Says(other, was, theirs, otherApart)
  {
    hide View, Views, Within, Apart, EditList, EditAll, NoShare;
    EditAllSnoc(was, mine, e);
    Perform(l, e);
  }

  method PerformBoth(src: ListCell, copy: ListCell, es: seq<(Side, Edit)>, ghost was: ListView, ghost apart: bool)
    requires src.Valid() && copy.Valid() && src.repr !! copy.repr
    requires Says(src, was, [], apart) && Says(copy, was, [], true)
    modifies src.repr, copy.repr
    ensures src.Valid() && copy.Valid() && src.repr !! copy.repr
    ensures fresh(src.repr - old(src.repr)) && fresh(copy.repr - old(copy.repr))
    ensures Says(src, was, Of(es, Original), apart) && Says(copy, was, Of(es, Copy), true)
    decreases |es|
  {
    hide Says, View, Views, Within, Apart, Elements, EditList, EditAll, NoShare;
    if es != [] {
      var init := es[..|es|-1];
      var (side, e) := es[|es|-1];
      PerformBoth(src, copy, init, was, apart);
      if side == Original {
        PerformBeside(src, e, copy, was, Of(init, Original), apart, Of(init, Copy), true);
      } else {
        PerformBeside(copy, e, src, was, Of(init, Copy), true, Of(init, Original), apart);
      }
    }
  }

  /** After any writes to both sides in any order, each side says what the original said, edited by the
      writes to that side alone; for the original this needs that it shared nothing to begin with. */
  method EditsDoNotMix(src: ListCell, es: seq<(Side, Edit)>) returns (copy: ListCell)
    requires src.Valid()
    modifies src.repr
    ensures src.Valid() && copy.Valid()
    ensures NoShare(Of(es, Copy)) ==> copy.Read() == EditAll(old(src.Read()), Of(es, Copy))
    ensures NoShare(Of(es, Original)) && old(src.Unshared()) ==> src.Read() == EditAll(old(src.Read()), Of(es, Original))
  {
    hide View, Views, Within, Apart;
    ghost var was, apart := src.Read(), src.Unshared();
    copy := CopyBeside(src);
    PerformBoth(src, copy, es, was, apart);
    SaysSo(src, was, Of(es, Original), apart);
    SaysSo(copy, was, Of(es, Copy), true);
  }

  method CopyBeside(src: ListCell) returns (copy: ListCell)
    requires src.Valid()
    ensures src.Valid() && copy.Valid() && fresh(copy.repr) && copy.Unshared()
    ensures src.Read() == copy.Read() == old(src.Read())
  {
    hide View, Views, Within, Apart;
    var out := DeepCopyList(src);
    copy := out;
  }

  lemma SaysSo(l: ListCell, was: ListView, es: seq<Edit>, apart: bool)
    requires l.Valid() && Says(l, was, es, apart)
    ensures apart && NoShare(es) ==> l.Read() == EditAll(was, es)
  {
    hide EditAll, NoShare, View, Views, Within, Apart;
  }
}
