/**
  The shapes of the resource-service API that the namespace reconciler consumes:
  resource identities, records, the reply to a read and the requests it issues.
 */
module Resource {
  import opened Wrappers

  /** A resource type: group, group version and kind. */
  datatype ResourceType = ResourceType(group: string, groupVersion: string, kind: string)

  /** The type of a namespace in the tenancy API, version v2beta1. */
  const NamespaceType: ResourceType := ResourceType("tenancy", "v2beta1", "Namespace")

  datatype Tenancy = Tenancy(partition: string)

  /** The identity of a resource: name, type and tenancy. */
  datatype Id = Id(name: string, typ: ResourceType, tenancy: Tenancy)

  /** The typed payload of a namespace record. */
  datatype Payload = NamespaceData(description: string)

  /**
    A record held by the service. A `None` metadata is a nil map; a `None`
    payload is a record without data.
   */
  datatype Resource = Resource(
    id: Id,
    version: string,
    metadata: Option<map<string, string>>,
    data: Option<Payload>)

  /** The underlying error of a failed remote call (a status other than NotFound). */
  datatype Cause = Cause(message: string)

  /** What a read can come back with: the NotFound status, any other error, or the record. */
  datatype ReadReply = NotFound | ReadFailed(cause: Cause) | Found(resource: Resource)

  /** A call on the resource-service client. */
  datatype Request =
    | ReadRequest(id: Id)
    | DeleteRequest(id: Id, version: string)
    | WriteRequest(resource: Resource)
}
