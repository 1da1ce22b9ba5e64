/**
 * The abstract records the migrator reads from the storage accounts, and the
 * trace of side effects it causes on the target account.  Every Azure SDK object
 * is replaced by a plain value.
 */
module Storage {

  import opened Wrappers

  type Name = string

  /** An opaque continuation token of the table service. */
  type Token = string

  /** The access-control policy of a table or a container (its shared access policies). */
  datatype Permissions = Permissions(policies: map<string, string>)

  /** A table entity: identity (partition key, row key) and a property bag. */
  datatype Entity = Entity(partitionKey: string, rowKey: string, properties: map<string, string>)

  /** One response of a segmented query: the page's entities and the next token (None ends the query). */
  datatype Segment = Segment(entities: seq<Entity>, token: Option<Token>)

  /**
   * A source table: its name, its permissions, and the responses its segmented
   * query returns, in order.
   */
  datatype Table = Table(name: Name, permissions: Permissions, segments: seq<Segment>)

  /** A blob of a listing: its name and its optional last-modified time (minutes). */
  datatype Blob = Blob(name: Name, lastModified: Option<int>)

  /** A source container: name, optional permissions (null in C#), metadata and its flat blob listing. */
  datatype Container = Container(
    name: Name,
    permissions: Option<Permissions>,
    metadata: map<string, string>,
    blobs: seq<Blob>)

  /** The two storage accounts a run connects to. */
  datatype Account = SourceStorage | TargetStorage

  /** A container reference: the account it is taken from and the container name. */
  datatype ContainerRef = ContainerRef(account: Account, name: Name)

  /** The address of one blob: account, container name and blob name. */
  datatype BlobRef = BlobRef(account: Account, container: Name, blob: Name)

  datatype SasPermission = ReadBlob | WriteBlob | DeleteBlob | ListBlobs

  /** A shared access policy; times are in minutes. */
  datatype SharedAccessPolicy = SharedAccessPolicy(
    permissions: set<SasPermission>,
    startTime: Option<int>,
    expiryTime: int)

  /** The blob's URI followed by the shared access signature issued for `signature`. */
  datatype SignedUrl = SignedUrl(blob: BlobRef, signature: SharedAccessPolicy)

  /** What a storage side effect acts on. */
  datatype Resource = TableRes(table: Name) | ContainerRes(container: Name)

  /** One side effect on the target account. */
  datatype Event =
    | Create(resource: Resource)
    | SetPermissions(resource: Resource, permissions: Permissions)
    | SetMetadata(container: Name, metadata: map<string, string>)
    | Write(table: Name, entities: seq<Entity>)
    | Execute(table: Name)
    | Copy(target: BlobRef, source: SignedUrl, accepted: bool)

  /** The resource an event acts on. */
  function Subject(e: Event): Resource
  {
    match e
    case Create(r) => r
    case SetPermissions(r, _) => r
    case SetMetadata(c, _) => ContainerRes(c)
    case Write(t, _) => TableRes(t)
    case Execute(t) => TableRes(t)
    case Copy(target, _, _) => ContainerRes(target.container)
  }

  /** Every event of `trace` acts on `r`. */
  predicate About(trace: seq<Event>, r: Resource)
  {
    forall k :: 0 <= k < |trace| ==> Subject(trace[k]) == r
  }

  /** The events of `trace` that act on `r`, in order. */
  function Project(trace: seq<Event>, r: Resource): (p: seq<Event>)
    ensures About(p, r)
    ensures |p| <= |trace|
  {
    if trace == [] then []
    else (if Subject(trace[0]) == r then [trace[0]] else []) + Project(trace[1..], r)
  }

  lemma {:induction false} ProjectConcat(a: seq<Event>, b: seq<Event>, r: Resource)
    ensures Project(a + b, r) == Project(a, r) + Project(b, r)
  {
    if a != [] {
      var head := if Subject(a[0]) == r then [a[0]] else [];
      assert (a + b)[0] == a[0];
      assert (a + b)[1..] == a[1..] + b;
      ProjectConcat(a[1..], b, r);
      AppendAssoc(head, Project(a[1..], r), Project(b, r));
    } else {
      assert a + b == b;
    }
  }

  /** Projecting a trace about one resource keeps all of it for that resource and nothing for any other. */
  lemma {:induction false} ProjectAbout(trace: seq<Event>, r: Resource, q: Resource)
    requires About(trace, r)
    ensures Project(trace, q) == if q == r then trace else []
  {
    if trace != [] {
      ProjectAbout(trace[1..], r, q);
    }
  }

  lemma AboutConcat(a: seq<Event>, b: seq<Event>, r: Resource)
    requires About(a, r) && About(b, r)
    ensures About(a + b, r)
  {
    forall k | 0 <= k < |a + b| ensures Subject((a + b)[k]) == r {
      if k >= |a| { assert (a + b)[k] == b[k - |a|]; }
    }
  }

  /** The resources of the Create events of `trace`, in order. */
  function Created(trace: seq<Event>): seq<Resource>
  {
    if trace == [] then []
    else (if trace[0].Create? then [trace[0].resource] else []) + Created(trace[1..])
  }

  lemma {:induction false} CreatedConcat(a: seq<Event>, b: seq<Event>)
    ensures Created(a + b) == Created(a) + Created(b)
  {
    if a != [] {
      assert (a + b)[1..] == a[1..] + b;
      CreatedConcat(a[1..], b);
    } else {
      assert a + b == b;
    }
  }

  /** A trace with no Create event creates nothing. */
  lemma {:induction false} NoCreates(trace: seq<Event>)
    requires forall k :: 0 <= k < |trace| ==> !trace[k].Create?
    ensures Created(trace) == []
  {
    if trace != [] {
      NoCreates(trace[1..]);
    }
  }

  /** A trace with no event on `r` projects to nothing for `r`. */
  lemma {:induction false} ProjectNone(trace: seq<Event>, r: Resource)
    requires forall k :: 0 <= k < |trace| ==> Subject(trace[k]) != r
    ensures Project(trace, r) == []
  {
    if trace != [] {
      ProjectNone(trace[1..], r);
    }
  }

  /** Regrouping a concatenation, stated once so that callers need not rediscover it. */
  lemma AppendAssoc<T>(a: seq<T>, b: seq<T>, c: seq<T>)
    ensures (a + b) + c == a + (b + c)
  {
  }
}
