# Namespace reconciler model

A Dafny model of the namespace reconciler in consul-k8s (`control-plane/tenancy/namespace/namespace.go`).
The reconciler makes one namespace of one partition exist, or stop existing, in Consul's resource
service. It reads the namespace record and then takes at most one more step: an unconditional delete
or the write of a fixed record. The service holds a namespace in one of three states: absent, live,
or marked for deletion. A record is marked when its metadata carries the key `deletionTimestamp`.

Files:

- `wrappers.dfy`: `Option`, used for nil maps, nil errors and absent replies.
- `resource.dfy`: the resource-service shapes the reconciler uses. These are identities (name,
  type, partition), records (identity, version, metadata, payload), the three possible read
  replies (`NotFound`, `ReadFailed(cause)`, `Found(record)`) and the read, delete and write requests.
- `resource_service.dfy`: a stand-in for the remote service, used to state idempotence. It is a
  `Client` class over a `map<Id, Resource>`. Each kind of call fails with a configured cause or
  succeeds. A delete either removes the record or stamps a deletion marker into its metadata.
  `Replay` gives the store after a sequence of requests.
- `namespace.dfy`: the reconciler itself. It holds the constants, `IsMarkedForDeletion` and the
  errors, with their text and the cause each one unwraps to. The decisions are the functions
  `EnsureDeletedOutcome` and `EnsureExistsOutcome`. Each takes the replies the service gives and
  returns the error plus the list of requests issued. The methods `EnsureDeleted` and `EnsureExists`
  carry out the same steps on a `Client`. Their postconditions tie the result to the decision
  functions and the new store to `Replay` of the requests issued.

## Model

| member | source | states |
|---|---|---|
| Namespace.MarkedWhateverTheValue | control-plane/tenancy/namespace/namespace.go:111-117 | a record whose metadata holds `deletionTimestamp` is marked for deletion, whatever the value, the empty string included |
| Namespace.UnmarkedWithoutTheKey | control-plane/tenancy/namespace/namespace.go:111-117 | a nil metadata map, an empty map or a map without the key leaves the record not marked |
| Namespace.NewNamespaceRecord | control-plane/tenancy/namespace/namespace.go:86-101 | the created record has identity (ns, namespace type, partition ap), metadata exactly `{"external-source": "kubernetes"}`, the description `Auto-generated by consul-k8s`, and is not marked for deletion |
| Namespace.WrappedMessage | control-plane/tenancy/namespace/namespace.go:41-43 | a wrapped error's text starts with its context followed by `": "` and ends with the cause's text |
| Namespace.DeletionInProgressNamesNamespace | control-plane/tenancy/namespace/namespace.go:75-77 | the deletion-in-progress error's text contains the namespace name |
| Namespace.EnsureDeletedOutcome | control-plane/tenancy/namespace/namespace.go:25-55 | no request for a reserved name; otherwise the read of (ns, namespace type, ap) comes first; a delete is issued iff the record read is live; no write is ever issued; success iff the name is reserved, or the read did not fail and no delete of a live record failed |
| Namespace.EnsureExistsOutcome | control-plane/tenancy/namespace/namespace.go:62-107 | no request for a reserved name; otherwise the read comes first; a write is issued iff the read found nothing and the payload was packed; no delete is ever issued; `created` iff that write succeeded; `created` implies no error; no error iff created, reserved, or the record is live |
| Namespace.ReservedNamesAreNoOps | control-plane/tenancy/namespace/namespace.go:26-28 | for the wildcard or default name, EnsureDeleted succeeds and EnsureExists returns (false, no error), and neither issues any request (also lines 63-65) |
| Namespace.EnsureDeletedWhenSettled | control-plane/tenancy/namespace/namespace.go:37-46 | when the read finds nothing, or finds a marked record, EnsureDeleted succeeds after the read alone, without a delete |
| Namespace.EnsureDeletedOnReadError | control-plane/tenancy/namespace/namespace.go:41-43 | a failed read gives a `namespace read failed` error that unwraps to the read's cause, and no delete |
| Namespace.EnsureDeletedOnLive | control-plane/tenancy/namespace/namespace.go:47-53 | a live record gets exactly one delete, of the identity just read and with the empty version; success iff that delete succeeds, else a `namespace delete failed` error around its cause |
| Namespace.EnsureExistsOnFound | control-plane/tenancy/namespace/namespace.go:74-80 | a found record is never written and never reported created; if it is marked, the error's text names the namespace; if it is live, there is no error |
| Namespace.EnsureExistsOnReadError | control-plane/tenancy/namespace/namespace.go:81-84 | a failed read gives (false, `consul namespace read failed` error unwrapping to the cause) and no write |
| Namespace.EnsureExistsOnNotFound | control-plane/tenancy/namespace/namespace.go:86-106 | when nothing is found, exactly one write of the new namespace record is issued, and `created` iff it succeeds, else a `consul namespace creation failed` error around its cause; a packing failure is returned unwrapped, before any write |
| Namespace.EnsureDeletedConverges | control-plane/tenancy/namespace/namespace.go:23-55 | after a successful EnsureDeleted, the namespace is absent from the store or marked for deletion, and a second EnsureDeleted whose read succeeds also succeeds, without a delete |
| Namespace.EnsureExistsIdempotent | control-plane/tenancy/namespace/namespace.go:57-107 | after a successful EnsureExists, the namespace is present and live, and a second EnsureExists whose read succeeds returns (false, no error) after the read alone |
| Namespace.EnsureDeleted | control-plane/tenancy/namespace/namespace.go:25-55 | on a client, returns what `EnsureDeletedOutcome` gives for the client's replies, and leaves the store as the service leaves it after those requests |
| Namespace.EnsureExists | control-plane/tenancy/namespace/namespace.go:62-107 | on a client, returns what `EnsureExistsOutcome` gives for the client's replies, and leaves the store as the service leaves it after those requests |

The convergence lemma for EnsureDeleted assumes that a service that defers deletes marks them with the
same key, `deletionTimestamp`, that this module reads. The source's comment on the constant
(lines 19-21) says as much.

## Left out

- The request context and gRPC status codes: a read reply is `NotFound`, `ReadFailed(cause)` or `Found(record)`. Any other failure is a `Cause` carrying only its text.
- Packing the payload into its typed envelope (`anypb.New`, lines 88-91) is a library call. It is modelled as the `encoding` parameter, which may carry a cause; that cause is returned unwrapped, as in the source.
- The values of the wildcard and default namespace names live in the `common` package, which is not part of this model. They are taken as `"*"` and `"default"`. No lemma depends on the values.
- The value of the namespace resource type lives in the tenancy API package, which is not part of this model. It is taken as group `tenancy`, version `v2beta1`, kind `Namespace`. Only its being one fixed value matters.
- Namespace.Message: quotes the namespace name with plain double quotes; Go's `%q` escaping of special characters is not modelled.
- Error texts are modelled only as far as the context prefix, the cause's text and the presence of the namespace name.
- A successful read always carries a record here. In the source a nil record on a successful read would make `isMarkedForDeletion` dereference nil.
- The real service's storage, versioning and conflict handling are not modelled. The stand-in ignores the version of a delete, stores a written record as given, and ignores the write's response, as the source does.
- Races between concurrent callers are not modelled. The source takes no locks, and two concurrent EnsureExists calls may both write.
- The access-control policy for cross-namespace rules (the TODO at line 87) is not implemented in the source and not modelled.
