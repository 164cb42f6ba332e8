/**
  Reconciles one namespace of one partition against the resource service.
  A namespace is in one of three states there: absent, live, or marked for
  deletion (its metadata carries the deletion-timestamp key).

  `EnsureDeletedOutcome` and `EnsureExistsOutcome` give the decision each
  operation takes from the replies it gets: the error it returns and the
  requests it issues. The methods `EnsureDeleted` and `EnsureExists` carry out
  the same steps on a client and are proved to agree with them.
 */
module Namespace {
  import opened Wrappers
  import opened Resource
  import opened ResourceService

  /** The metadata key that holds the time a resource was marked for deletion. */
  const DeletionTimestampKey: string := "deletionTimestamp"

  /** The wildcard namespace name and the default namespace name, never reconciled. */
  const WildcardNamespace: string := "*"
  const DefaultNamespaceName: string := "default"

  /** Metadata and description stamped on a namespace created here. */
  const ExternalSourceKey: string := "external-source"
  const ExternalSourceValue: string := "kubernetes"
  const AutoGeneratedDescription: string := "Auto-generated by consul-k8s"

  /** The contexts the operations wrap a remote error in. */
  const DeleteReadContext: string := "namespace read failed"
  const DeleteFailedContext: string := "namespace delete failed"
  const ExistsReadContext: string := "consul namespace read failed"
  const CreationFailedContext: string := "consul namespace creation failed"

  predicate IsReserved(ns: string)
  {
    ns == WildcardNamespace || ns == DefaultNamespaceName
  }

  /** The identity both operations read: name `ns`, namespace type, partition `ap`. */
  function NamespaceId(ap: string, ns: string): (id: Id)
    ensures id.name == ns && id.typ == NamespaceType && id.tenancy.partition == ap
  {
    Id(ns, NamespaceType, Tenancy(ap))
  }

  /** Whether `r` has been marked for deletion: its metadata holds the key, whatever the value. */
  predicate IsMarkedForDeletion(r: Resource)
  {
    match r.metadata
    case None => false
    case Some(m) => DeletionTimestampKey in m
  }

  /** The record written when the namespace is not found. */
  function NewNamespaceRecord(ap: string, ns: string): (r: Resource)
    ensures r.id == NamespaceId(ap, ns)
    ensures r.metadata == Some(map[ExternalSourceKey := ExternalSourceValue])
    ensures r.data == Some(NamespaceData(AutoGeneratedDescription))
    ensures !IsMarkedForDeletion(r)
  {
    Resource(NamespaceId(ap, ns), "", Some(map[ExternalSourceKey := ExternalSourceValue]),
      Some(NamespaceData(AutoGeneratedDescription)))
  }

  // ---------------------------------------------------------------------------
  // Errors
  // ---------------------------------------------------------------------------

  /** The errors the operations return. */
  datatype Error =
    | Wrapped(context: string, cause: Cause)  // "<context>: <cause>", the cause kept for unwrapping
    | DeletionInProgress(namespace: string)   // creation refused while a deletion is in flight
    | Encoding(cause: Cause)                  // the payload could not be packed, returned as is

  /** The error's text. */
  function Message(e: Error): string
  {
    match e
    case Wrapped(context, cause) => context + ": " + cause.message
    case DeletionInProgress(ns) => "consul namespace " + Quoted(ns) + " deletion in progress"
    case Encoding(cause) => cause.message
  }

  function Quoted(s: string): string
  {
    "\"" + s + "\""
  }

  /** The cause a wrapped error gives back when unwrapped. */
  function Unwrap(e: Error): (c: Option<Cause>)
    ensures c.Some? <==> e.Wrapped?
  {
    if e.Wrapped? then Some(e.cause) else None
  }

  predicate IsPrefix(p: string, s: string)
  {
    |p| <= |s| && s[..|p|] == p
  }

  predicate ContainsInfix(s: string, t: string)
  {
    exists i :: 0 <= i <= |s| && IsPrefix(t, s[i..])
  }

  /** A wrapped error's text starts with its context and ends with its cause's text. */
  lemma WrappedMessage(context: string, cause: Cause)
    ensures IsPrefix(context + ": ", Message(Wrapped(context, cause)))
    ensures Message(Wrapped(context, cause))[|context| + 2..] == cause.message
  {
  }

  /** The deletion-in-progress error names the namespace. */
  lemma DeletionInProgressNamesNamespace(ns: string)
    ensures ContainsInfix(Message(DeletionInProgress(ns)), ns)
  {
    var head := "consul namespace \"";
    var m := Message(DeletionInProgress(ns));
    assert m == head + ns + ("\"" + " deletion in progress");
    assert m[|head|..][..|ns|] == ns;
    assert IsPrefix(ns, m[|head|..]);
  }

  // ---------------------------------------------------------------------------
  // Decisions
  // ---------------------------------------------------------------------------

  /** What an operation returned and which requests it issued, in order. */
  datatype DeleteOutcome = DeleteOutcome(err: Option<Error>, requests: seq<Request>)
  datatype CreateOutcome = CreateOutcome(created: bool, err: Option<Error>, requests: seq<Request>)

  predicate IssuesDelete(requests: seq<Request>)
  {
    exists i :: 0 <= i < |requests| && requests[i].DeleteRequest?
  }

  predicate IssuesWrite(requests: seq<Request>)
  {
    exists i :: 0 <= i < |requests| && requests[i].WriteRequest?
  }

  /** The namespace is live in a read reply: found and not marked for deletion. */
  predicate IsLive(read: ReadReply)
  {
    read.Found? && !IsMarkedForDeletion(read.resource)
  }

  /**
    EnsureDeleted, given the reply to its read and the reply a delete would get.
    It does nothing for a reserved name, reads the namespace otherwise, and
    deletes it (unconditionally, with the empty version) only when it is live.
   */
  function EnsureDeletedOutcome(ap: string, ns: string, read: ReadReply, deleteReply: Option<Cause>): (o: DeleteOutcome)
    ensures IsReserved(ns) <==> o.requests == []
    ensures !IsReserved(ns) ==> o.requests[0] == ReadRequest(NamespaceId(ap, ns))
    ensures IssuesDelete(o.requests) <==> !IsReserved(ns) && IsLive(read)
    ensures !IssuesWrite(o.requests)
    ensures o.err.None? <==> IsReserved(ns) || !(read.ReadFailed? || (IsLive(read) && deleteReply.Some?))
  {
    if IsReserved(ns) then DeleteOutcome(None, [])
    else
      var readCall := [ReadRequest(NamespaceId(ap, ns))];
      match read
      case NotFound => DeleteOutcome(None, readCall)
      case ReadFailed(cause) => DeleteOutcome(Some(Wrapped(DeleteReadContext, cause)), readCall)
      case Found(r) =>
        if IsMarkedForDeletion(r) then DeleteOutcome(None, readCall)
        else
          var requests := readCall + [DeleteRequest(r.id, "")];
          assert requests[1].DeleteRequest?;
          match deleteReply
          case None => DeleteOutcome(None, requests)
          case Some(cause) => DeleteOutcome(Some(Wrapped(DeleteFailedContext, cause)), requests)
  }

  /**
    EnsureExists, given the reply to its read, the outcome of packing the
    payload and the reply a write would get. It does nothing for a reserved
    name, reads the namespace otherwise, and writes the new record only when
    the read found nothing. It reports whether it created the namespace.
   */
  function EnsureExistsOutcome(ap: string, ns: string, read: ReadReply, encoding: Option<Cause>,
                               writeReply: Option<Cause>): (o: CreateOutcome)
    ensures IsReserved(ns) <==> o.requests == []
    ensures !IsReserved(ns) ==> o.requests[0] == ReadRequest(NamespaceId(ap, ns))
    ensures IssuesWrite(o.requests) <==> !IsReserved(ns) && read.NotFound? && encoding.None?
    ensures !IssuesDelete(o.requests)
    ensures o.created <==> !IsReserved(ns) && read.NotFound? && encoding.None? && writeReply.None?
    ensures o.created ==> o.err.None?
    ensures o.err.None? <==> o.created || IsReserved(ns) || IsLive(read)
  {
    if IsReserved(ns) then CreateOutcome(false, None, [])
    else
      var readCall := [ReadRequest(NamespaceId(ap, ns))];
      match read
      case Found(r) =>
        if IsMarkedForDeletion(r) then CreateOutcome(false, Some(DeletionInProgress(ns)), readCall)
        else CreateOutcome(false, None, readCall)
      case ReadFailed(cause) => CreateOutcome(false, Some(Wrapped(ExistsReadContext, cause)), readCall)
      case NotFound =>
        match encoding
        case Some(cause) => CreateOutcome(false, Some(Encoding(cause)), readCall)
        case None =>
          var requests := readCall + [WriteRequest(NewNamespaceRecord(ap, ns))];
          assert requests[1].WriteRequest?;
          match writeReply
          case Some(cause) => CreateOutcome(false, Some(Wrapped(CreationFailedContext, cause)), requests)
          case None => CreateOutcome(true, None, requests)
  }

  // ---------------------------------------------------------------------------
  // The arms of each decision
  // ---------------------------------------------------------------------------

  /** The marker counts whatever its value, the empty string included. */
  lemma MarkedWhateverTheValue(r: Resource, m: map<string, string>, stamp: string)
    ensures IsMarkedForDeletion(r.(metadata := Some(m[DeletionTimestampKey := stamp])))
  {
  }

  /** A nil metadata map, or one without the key, leaves the record live. */
  lemma UnmarkedWithoutTheKey(r: Resource)
    requires r.metadata.None? || DeletionTimestampKey !in r.metadata.value
    ensures !IsMarkedForDeletion(r)
    ensures !IsMarkedForDeletion(r.(metadata := Some(map[])))
  {
  }

  /** Neither operation touches the wildcard or the default namespace. */
  lemma ReservedNamesAreNoOps(ap: string, ns: string, read: ReadReply, encoding: Option<Cause>,
                              deleteReply: Option<Cause>, writeReply: Option<Cause>)
    requires ns == WildcardNamespace || ns == DefaultNamespaceName
    ensures EnsureDeletedOutcome(ap, ns, read, deleteReply) == DeleteOutcome(None, [])
    ensures EnsureExistsOutcome(ap, ns, read, encoding, writeReply) == CreateOutcome(false, None, [])
  {
  }

  /** Absent or already marked: EnsureDeleted succeeds after the read alone. */
  lemma EnsureDeletedWhenSettled(ap: string, ns: string, read: ReadReply, deleteReply: Option<Cause>)
    requires !IsReserved(ns)
    requires read.NotFound? || (read.Found? && IsMarkedForDeletion(read.resource))
    ensures EnsureDeletedOutcome(ap, ns, read, deleteReply) == DeleteOutcome(None, [ReadRequest(NamespaceId(ap, ns))])
  {
  }

  /** A failed read: EnsureDeleted returns the cause wrapped as a read failure and deletes nothing. */
  lemma EnsureDeletedOnReadError(ap: string, ns: string, cause: Cause, deleteReply: Option<Cause>)
    requires !IsReserved(ns)
    ensures var o := EnsureDeletedOutcome(ap, ns, ReadFailed(cause), deleteReply);
            o.err == Some(Wrapped(DeleteReadContext, cause)) && Unwrap(o.err.value) == Some(cause)
            && o.requests == [ReadRequest(NamespaceId(ap, ns))]
  {
  }

  /**
    A live record: EnsureDeleted issues one delete of the identity it read,
    with the empty version, and succeeds exactly when that delete does.
   */
  lemma EnsureDeletedOnLive(ap: string, ns: string, r: Resource, deleteReply: Option<Cause>)
    requires !IsReserved(ns) && !IsMarkedForDeletion(r)
    ensures var o := EnsureDeletedOutcome(ap, ns, Found(r), deleteReply);
            o.requests == [ReadRequest(NamespaceId(ap, ns)), DeleteRequest(r.id, "")]
            && (o.err.None? <==> deleteReply.None?)
            && (deleteReply.Some? ==> o.err == Some(Wrapped(DeleteFailedContext, deleteReply.value)))
  {
  }

  /**
    A found record: EnsureExists never writes; it refuses with an error naming
    the namespace when the record is marked, and reports nothing created otherwise.
   */
  lemma EnsureExistsOnFound(ap: string, ns: string, r: Resource, encoding: Option<Cause>, writeReply: Option<Cause>)
    requires !IsReserved(ns)
    ensures var o := EnsureExistsOutcome(ap, ns, Found(r), encoding, writeReply);
            !o.created && o.requests == [ReadRequest(NamespaceId(ap, ns))]
            && (IsMarkedForDeletion(r) ==> o.err.Some? && ContainsInfix(Message(o.err.value), ns))
            && (!IsMarkedForDeletion(r) ==> o.err.None?)
  {
    if IsMarkedForDeletion(r) {
      DeletionInProgressNamesNamespace(ns);
    }
  }

  /** A failed read: EnsureExists returns the cause wrapped as a read failure and writes nothing. */
  lemma EnsureExistsOnReadError(ap: string, ns: string, cause: Cause, encoding: Option<Cause>, writeReply: Option<Cause>)
    requires !IsReserved(ns)
    ensures var o := EnsureExistsOutcome(ap, ns, ReadFailed(cause), encoding, writeReply);
            !o.created && o.err == Some(Wrapped(ExistsReadContext, cause)) && Unwrap(o.err.value) == Some(cause)
            && o.requests == [ReadRequest(NamespaceId(ap, ns))]
  {
  }

  /**
    Not found: EnsureExists writes the namespace record once and reports it
    created exactly when the write succeeds; a failed packing of the payload is
    returned unwrapped, before any write.
   */
  lemma EnsureExistsOnNotFound(ap: string, ns: string, encoding: Option<Cause>, writeReply: Option<Cause>)
    requires !IsReserved(ns)
    ensures var o := EnsureExistsOutcome(ap, ns, NotFound, encoding, writeReply);
            && (encoding.Some? ==> !o.created && o.err == Some(Encoding(encoding.value))
                                   && Unwrap(o.err.value).None? && Message(o.err.value) == encoding.value.message
                                   && o.requests == [ReadRequest(NamespaceId(ap, ns))])
            && (encoding.None? ==>
                  && o.requests == [ReadRequest(NamespaceId(ap, ns)), WriteRequest(NewNamespaceRecord(ap, ns))]
                  && (o.created <==> writeReply.None?)
                  && (writeReply.Some? ==> o.err == Some(Wrapped(CreationFailedContext, writeReply.value))))
  {
  }

  // ---------------------------------------------------------------------------
  // Convergence against the service
  // ---------------------------------------------------------------------------

  /** The namespace is absent from the store or marked for deletion there. */
  predicate DeletedOrDeleting(store: Store, id: Id)
  {
    id !in store || IsMarkedForDeletion(store[id])
  }

  /** The namespace is present in the store and not marked for deletion. */
  predicate Present(store: Store, id: Id)
  {
    id in store && !IsMarkedForDeletion(store[id])
  }

  /**
    After EnsureDeleted succeeds on a service that marks deletions with the
    same key this module reads, the namespace is absent or being deleted, and
    a second EnsureDeleted whose read succeeds returns success without a delete.
   */
  lemma {:induction false} EnsureDeletedConverges(store: Store, faults: Faults, mode: DeletionMode, ap: string, ns: string,
                                                  deleteReply: Option<Cause>)
    requires WellKeyed(store)
    requires mode.Deferred? ==> mode.markerKey == DeletionTimestampKey
    requires !IsReserved(ns)
    ensures var id := NamespaceId(ap, ns);
            var first := EnsureDeletedOutcome(ap, ns, ReadReplyFor(store, id, faults.read), faults.delete);
            var after := Replay(store, first.requests, mode, faults);
            var second := EnsureDeletedOutcome(ap, ns, ReadReplyFor(after, id, None), deleteReply);
            first.err.None? ==> DeletedOrDeleting(after, id) && second.err.None? && !IssuesDelete(second.requests)
  {
    var id := NamespaceId(ap, ns);
    var read := ReadReplyFor(store, id, faults.read);
    var first := EnsureDeletedOutcome(ap, ns, read, faults.delete);
    var readOnly := [ReadRequest(id)];
    ReplaySnoc(store, [], ReadRequest(id), mode, faults);
    assert [] + readOnly == readOnly;
    if first.err.None? {
      match read
      case NotFound =>
        assert first.requests == readOnly;
      case ReadFailed(_) =>
      case Found(r) =>
        if IsMarkedForDeletion(r) {
          assert first.requests == readOnly;
        } else {
          var del := DeleteRequest(r.id, "");
          assert first.requests == readOnly + [del];
          ReplaySnoc(store, readOnly, del, mode, faults);
          var after := AfterDelete(store, id, mode);
          assert Replay(store, first.requests, mode, faults) == after;
          if id in after {
            assert IsMarkedForDeletion(after[id]);
          }
        }
    }
  }

  /**
    After EnsureExists succeeds, the namespace is present and live, and a
    second EnsureExists whose read succeeds reports nothing created and no
    error, without writing.
   */
  lemma {:induction false} EnsureExistsIdempotent(store: Store, faults: Faults, mode: DeletionMode, ap: string, ns: string,
                                                  encoding: Option<Cause>, encoding': Option<Cause>, writeReply: Option<Cause>)
    requires WellKeyed(store)
    requires !IsReserved(ns)
    ensures var id := NamespaceId(ap, ns);
            var first := EnsureExistsOutcome(ap, ns, ReadReplyFor(store, id, faults.read), encoding, faults.write);
            var after := Replay(store, first.requests, mode, faults);
            var second := EnsureExistsOutcome(ap, ns, ReadReplyFor(after, id, None), encoding', writeReply);
            first.err.None? ==> Present(after, id) && second == CreateOutcome(false, None, [ReadRequest(id)])
  {
    var id := NamespaceId(ap, ns);
    var read := ReadReplyFor(store, id, faults.read);
    var first := EnsureExistsOutcome(ap, ns, read, encoding, faults.write);
    var readOnly := [ReadRequest(id)];
    ReplaySnoc(store, [], ReadRequest(id), mode, faults);
    assert [] + readOnly == readOnly;
    if first.err.None? {
      if first.created {
        var write := WriteRequest(NewNamespaceRecord(ap, ns));
        assert first.requests == readOnly + [write];
        ReplaySnoc(store, readOnly, write, mode, faults);
      } else {
        assert first.requests == readOnly;
      }
    }
  }

  // ---------------------------------------------------------------------------
  // The operations on a client
  // ---------------------------------------------------------------------------

  /**
    Ensures the namespace `ns` of partition `ap` is deleted or being deleted.
    `EnsureDeletedOutcome` says what it returns, and the store ends as the
    service leaves it after the requests that function lists.
   */
  method EnsureDeleted(client: Client, ap: string, ns: string) returns (err: Option<Error>)
    requires client.Valid()
    modifies client`resources
    ensures client.Valid()
    ensures var o := EnsureDeletedOutcome(ap, ns, ReadReplyFor(old(client.resources), NamespaceId(ap, ns), client.faults.read),
                                          client.faults.delete);
            err == o.err && client.resources == Replay(old(client.resources), o.requests, client.deletion, client.faults)
  {
    if ns == WildcardNamespace || ns == DefaultNamespaceName {
      return None;
    }
    var id := NamespaceId(ap, ns);
    var rsp := client.Read(id);
    assert [ReadRequest(id)] == [] + [ReadRequest(id)];
    ReplaySnoc(client.resources, [], ReadRequest(id), client.deletion, client.faults);
    match rsp
    case NotFound =>
      err := None;
    case ReadFailed(cause) =>
      err := Some(Wrapped(DeleteReadContext, cause));
    case Found(r) =>
      if IsMarkedForDeletion(r) {
        err := None;
      } else {
        var before := client.resources;
        var deleteErr := client.Delete(r.id, "");
        ReplaySnoc(before, [ReadRequest(id)], DeleteRequest(r.id, ""), client.deletion, client.faults);
        if deleteErr.Some? {
          err := Some(Wrapped(DeleteFailedContext, deleteErr.value));
        } else {
          err := None;
        }
      }
  }

  /**
    Ensures the namespace `ns` of partition `ap` exists and is not marked for
    deletion, creating it if the read finds nothing; `created` says whether
    this call created it. `encoding` stands for the outcome of packing the
    payload into its typed envelope.
   */
  method EnsureExists(client: Client, ap: string, ns: string, encoding: Option<Cause>) returns (created: bool, err: Option<Error>)
    requires client.Valid()
    modifies client`resources
    ensures client.Valid()
    ensures var o := EnsureExistsOutcome(ap, ns, ReadReplyFor(old(client.resources), NamespaceId(ap, ns), client.faults.read),
                                         encoding, client.faults.write);
            created == o.created && err == o.err
            && client.resources == Replay(old(client.resources), o.requests, client.deletion, client.faults)
  {
    if ns == WildcardNamespace || ns == DefaultNamespaceName {
      return false, None;
    }
    var id := NamespaceId(ap, ns);
    var rsp := client.Read(id);
    assert [ReadRequest(id)] == [] + [ReadRequest(id)];
    ReplaySnoc(client.resources, [], ReadRequest(id), client.deletion, client.faults);
    match rsp {
      case Found(r) =>
        if IsMarkedForDeletion(r) {
          return false, Some(DeletionInProgress(ns));
        }
        return false, None;
      case ReadFailed(cause) =>
        return false, Some(Wrapped(ExistsReadContext, cause));
      case NotFound =>
    }
    if encoding.Some? {
      return false, Some(Encoding(encoding.value));
    }
    var record := NewNamespaceRecord(ap, ns);
    var before := client.resources;
    var writeErr := client.Write(record);
    ReplaySnoc(before, [ReadRequest(id)], WriteRequest(record), client.deletion, client.faults);
    if writeErr.Some? {
      return false, Some(Wrapped(CreationFailedContext, writeErr.value));
    }
    return true, None;
  }
}
