/**
  An in-memory stand-in for the remote resource service, used only to state what
  the namespace reconciler leaves behind. The real service (its storage,
  versioning and conflict handling) is an external collaborator; this one keeps
  a map from identity to record, answers each kind of call with a configured
  fault or success, and deletes either at once or by stamping a deletion marker.
 */
module ResourceService {
  import opened Wrappers
  import opened Resource

  type Store = map<Id, Resource>

  /** Every record is filed under its own identity. */
  ghost predicate WellKeyed(store: Store)
  {
    forall id :: id in store ==> store[id].id == id
  }

  /** The error each kind of call fails with, or `None` when calls of that kind succeed. */
  datatype Faults = Faults(read: Option<Cause>, write: Option<Cause>, delete: Option<Cause>)

  /**
    How the service carries out a delete: remove the record at once, or (for a
    record with finalizers) keep it and stamp `markerKey` into its metadata.
   */
  datatype DeletionMode = Immediate | Deferred(markerKey: string, timestamp: string)

  /** The reply to a read of `id`. */
  function ReadReplyFor(store: Store, id: Id, fault: Option<Cause>): (reply: ReadReply)
    requires WellKeyed(store)
    ensures reply.NotFound? <==> fault.None? && id !in store
    ensures reply.ReadFailed? <==> fault.Some?
    ensures reply.Found? ==> id in store && reply.resource == store[id] && reply.resource.id == id
  {
    if fault.Some? then ReadFailed(fault.value)
    else if id in store then Found(store[id])
    else NotFound
  }

  /** The record `r` with `key` stamped into its metadata (a nil map becomes a one-entry map). */
  function Stamped(r: Resource, key: string, stamp: string): (m: Resource)
    ensures m.id == r.id && m.metadata.Some? && key in m.metadata.value
    ensures r.metadata.Some? ==> forall k :: k in r.metadata.value ==> k in m.metadata.value
  {
    var md := if r.metadata.Some? then r.metadata.value else map[];
    r.(metadata := Some(md[key := stamp]))
  }

  /** The store after a successful delete of `id`. */
  function AfterDelete(store: Store, id: Id, mode: DeletionMode): (s: Store)
    requires WellKeyed(store)
    ensures WellKeyed(s)
    ensures s.Keys == if mode.Immediate? then store.Keys - {id} else store.Keys
    ensures id in s ==> mode.Deferred? && s[id].metadata.Some? && mode.markerKey in s[id].metadata.value
    ensures forall other :: other in store && other != id ==> s[other] == store[other]
  {
    if id !in store then store
    else
      match mode
      case Immediate => store - {id}
      case Deferred(key, stamp) => store[id := Stamped(store[id], key, stamp)]
  }

  /** The store after the service has answered `request`. */
  function Apply(store: Store, request: Request, mode: DeletionMode, faults: Faults): (s: Store)
    requires WellKeyed(store)
    ensures WellKeyed(s)
    ensures request.ReadRequest? ==> s == store
  {
    match request
    case ReadRequest(_) => store
    case DeleteRequest(id, _) => if faults.delete.None? then AfterDelete(store, id, mode) else store
    case WriteRequest(r) => if faults.write.None? then store[r.id := r] else store
  }

  /** The store after the service has answered `requests` in order. */
  function Replay(store: Store, requests: seq<Request>, mode: DeletionMode, faults: Faults): (s: Store)
    requires WellKeyed(store)
    ensures WellKeyed(s)
    decreases |requests|
  {
    if requests == [] then store
    else Replay(Apply(store, requests[0], mode, faults), requests[1..], mode, faults)
  }

  /** Replaying one request more is answering it after the others. */
  lemma {:induction false} ReplaySnoc(store: Store, requests: seq<Request>, last: Request, mode: DeletionMode, faults: Faults)
    requires WellKeyed(store)
    ensures Replay(store, requests + [last], mode, faults) == Apply(Replay(store, requests, mode, faults), last, mode, faults)
    decreases |requests|
  {
    if requests == [] {
      assert [] + [last] == [last];
    } else {
      assert (requests + [last])[1..] == requests[1..] + [last];
      ReplaySnoc(Apply(store, requests[0], mode, faults), requests[1..], last, mode, faults);
    }
  }

  /** A client connected to the stand-in service. */
  class Client {
    var resources: Store
    var faults: Faults
    const deletion: DeletionMode

    ghost predicate Valid()
      reads this
    {
      WellKeyed(resources)
    }

    constructor (resources: Store, faults: Faults, deletion: DeletionMode)
      requires WellKeyed(resources)
      ensures Valid()
      ensures this.resources == resources && this.faults == faults && this.deletion == deletion
    {
      this.resources := resources;
      this.faults := faults;
      this.deletion := deletion;
    }

    method Read(id: Id) returns (reply: ReadReply)
      requires Valid()
      ensures reply == ReadReplyFor(resources, id, faults.read)
    {
      if faults.read.Some? {
        reply := ReadFailed(faults.read.value);
      } else if id in resources {
        reply := Found(resources[id]);
      } else {
        reply := NotFound;
      }
    }

    method Delete(id: Id, version: string) returns (err: Option<Cause>)
      requires Valid()
      modifies this`resources
      ensures Valid()
      ensures err == faults.delete
      ensures resources == Apply(old(resources), DeleteRequest(id, version), deletion, faults)
    {
      err := faults.delete;
      if err.None? {
        resources := AfterDelete(resources, id, deletion);
      }
    }

    method Write(r: Resource) returns (err: Option<Cause>)
      requires Valid()
      modifies this`resources
      ensures Valid()
      ensures err == faults.write
      ensures resources == Apply(old(resources), WriteRequest(r), deletion, faults)
    {
      err := faults.write;
      if err.None? {
        resources := resources[r.id := r];
      }
    }
  }
}
