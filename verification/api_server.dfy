/** Satellite objects in a Kubernetes API server with optimistic concurrency: every write takes the next
    resource version, and a status update lands only on the version it was read at. */
module ApiServer {
  import opened Wrappers

  type Name = string

  const READY := "Ready"
  const OPERATOR := "operator"

  datatype Status = Status(phase: string, managedBy: string, lastHeartbeat: Option<int>, conditions: seq<string>)

  datatype Object = Object(uid: nat, version: nat, region: string, status: Status)

  /** `version` is the last resource version handed out, `uids` the number of objects ever created. */
  datatype Cluster = Cluster(objects: map<Name, Object>, version: nat, uids: nat)

  /** What anyone but the controller may do: create or overwrite an object, or delete it. */
  datatype External = Write(name: Name, region: string, status: Status) | Remove(name: Name)

  datatype ApiError = NoError | NotFound | Conflict | Unavailable

  function Lookup<T>(objects: map<Name, T>, name: Name): Option<T> {
    if name in objects then Some(objects[name]) else None
  }

  function Change(c: Cluster, e: External): Cluster {
    match e
    case Write(name, region, status) =>
      var uid := if name in c.objects then c.objects[name].uid else c.uids;
      Cluster(c.objects[name := Object(uid, c.version + 1, region, status)], c.version + 1,
              if name in c.objects then c.uids else c.uids + 1)
    case Remove(name) =>
      if name in c.objects then Cluster(c.objects - {name}, c.version + 1, c.uids) else c
  }

  function ChangeAll(c: Cluster, es: seq<External>): Cluster {
    if es == [] then c else Change(ChangeAll(c, es[..|es|-1]), es[|es|-1])
  }

  /** The status subresource: only the status of what is submitted counts, and only if its version is
      the current one. */
  function UpdateStatus(c: Cluster, name: Name, submitted: Object, fault: bool): (Cluster, ApiError) {
    if fault then (c, Unavailable)
    else if name !in c.objects then (c, NotFound)
    else if c.objects[name].version != submitted.version then (c, Conflict)
    else
      var updated := c.objects[name].(status := submitted.status, version := c.version + 1);
      (c.(objects := c.objects[name := updated], version := c.version + 1), NoError)
  }

  /** The two fields Reconcile assigns on the object it read. */
  function MarkReady(o: Object): Object {
    o.(status := o.status.(phase := READY, managedBy := OPERATOR))
  }

  predicate Unready(objects: map<Name, Object>, name: Name) {
    name in objects && objects[name].status.phase != READY
  }
}

/** SatelliteReconciler.Reconcile as a method on a shared server. */
module Controller {
  import opened Wrappers
  import opened ApiServer

  class Server {
    var cluster: Cluster

    constructor (cluster: Cluster)
      ensures this.cluster == cluster
    {
      this.cluster := cluster;
    }

    method Interfere(es: seq<External>)
      modifies this
      ensures cluster == ChangeAll(old(cluster), es)
    {
      for i := 0 to |es|
        invariant cluster == ChangeAll(old(cluster), es[..i])
      {
        cluster := Change(cluster, es[i]);
        assert es[..i+1][..i] == es[..i];
      }
      assert es[..|es|] == es;
    }

    method UpdateStatus(name: Name, submitted: Object, fault: bool) returns (err: ApiError)
      modifies this
      ensures (cluster, err) == ApiServer.UpdateStatus(old(cluster), name, submitted, fault)
    {
      cluster, err := ApiServer.UpdateStatus(cluster, name, submitted, fault).0,
                      ApiServer.UpdateStatus(cluster, name, submitted, fault).1;
    }
  }

  /** What the cached client finds: possibly an object as it was some time ago. */
  datatype Read = Found(obj: Object) | Missing | ReadFailed

  /** The read found an object that is not Ready. */
  predicate Acts(read: Read) {
    read.Found? && read.obj.status.phase != "Ready"
  }

  /** What may become of an attempt to mark `read` Ready: it succeeds exactly if the object is there at the
      version read. Then it is Ready, the operator's, keeps uid and region, has the heartbeat and conditions
      that were read, and nothing else changes. If it fails, nothing changes at all. */
  ghost predicate Outcome(before: Cluster, name: Name, read: Object, fault: bool, after: Cluster, err: ApiError) {
    && (err == NoError <==> !fault && name in before.objects && before.objects[name].version == read.version)
    && (err == Conflict <==> !fault && name in before.objects && before.objects[name].version != read.version)
    && (err == NotFound <==> !fault && name !in before.objects)
    && (err != NoError ==> after == before)
    && (err == NoError ==>
          && after.uids == before.uids && after.version == before.version + 1
          && (forall other :: other != name ==> Lookup(after.objects, other) == Lookup(before.objects, other))
          && name in after.objects
          && var was, now := before.objects[name], after.objects[name];
          && now.uid == was.uid && now.region == was.region && now.version == after.version
          && now.status.phase == "Ready" && now.status.managedBy == "operator"
          && now.status.lastHeartbeat == read.status.lastHeartbeat && now.status.conditions == read.status.conditions)
  }

  /** There is only one such outcome: that of the conditional status update. */
  lemma OneOutcome(before: Cluster, name: Name, read: Object, fault: bool, after: Cluster, err: ApiError)
    ensures Outcome(before, name, read, fault, after, err) <==>
              (after, err) == ApiServer.UpdateStatus(before, name, MarkReady(read), fault)
  {
    var (updated, error) := ApiServer.UpdateStatus(before, name, MarkReady(read), fault);
    if Outcome(before, name, read, fault, after, err) {
      assert err == error;
      if err == NoError {
        SameObjects(after.objects, updated.objects);
      }
    }
  }

  lemma SameObjects(a: map<Name, Object>, b: map<Name, Object>)
    requires forall name :: Lookup(a, name) == Lookup(b, name)
    ensures a == b
  {
    assert forall name :: name in a <==> Lookup(a, name).Some?;
    assert forall name :: name in b <==> Lookup(b, name).Some?;
    assert forall name :: name in a ==> Lookup(a, name) == Some(a[name]);
    assert forall name :: name in b ==> Lookup(b, name) == Some(b[name]);
  }

  class SatelliteReconciler {
    const server: Server

    constructor (server: Server)
      ensures this.server == server
    {
      this.server := server;
    }

    /** `others` are the writes that land between the read and the status update. After reading an object
        that is not Ready the outcome is that of one conditional write to what they have left; otherwise
        nothing changes, and there is an error only if the read failed. */
    method Reconcile(name: Name, read: Read, others: seq<External>, fault: bool) returns (err: ApiError)
      modifies server
      ensures !Acts(read) ==> server.cluster == old(server.cluster) && (err != NoError <==> read.ReadFailed?)
      ensures Acts(read) ==> Outcome(ChangeAll(old(server.cluster), others), name, read.obj, fault, server.cluster, err)
    {
      if read.Missing? {
        return NoError;
      }
      if read.ReadFailed? {
        return Unavailable;
      }
      var satellite := read.obj;
      if satellite.status.phase != READY {
        satellite := satellite.(status := satellite.status.(phase := READY));
        satellite := satellite.(status := satellite.status.(managedBy := OPERATOR));
        server.Interfere(others);
        ghost var before := server.cluster;
        err := server.UpdateStatus(name, satellite, fault);
        OneOutcome(before, name, read.obj, fault, server.cluster, err);
        return;
      }
      return NoError;
    }
  }
}
