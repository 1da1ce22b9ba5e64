/**
 * The blob container pass (CopyBlobContainersFromSource, CopyBlobContainer,
 * MakeContainer, AddMissingBlobs, UpdateBlobs, TryCopyBlobToTargetContainer,
 * GetShareAccessUri): its side effects as functions of the source containers
 * and the state of the target account, and their properties.
 */
module ContainerPass {

  import opened Wrappers
  import opened Storage
  import opened Ordering
  import opened BlobDiff

  /** The validity of the read signature a copy request carries: six hours. */
  const SAS_VALIDITY_MINUTES: int := 360

  /**
   * What the model needs of the target account: the blob listing of each
   * container as it stands before the copies (a container not in the map holds
   * no blobs), and the blob copies the service rejects with a StorageException.
   */
  datatype TargetAccount = TargetAccount(listings: map<Name, seq<Blob>>, refused: set<BlobRef>)

  function Listing(target: TargetAccount, container: Name): seq<Blob>
  {
    if container in target.listings then target.listings[container] else []
  }

  function ContainerName(c: Container): Name
  {
    c.name
  }

  /** `ListContainers().OrderBy(c => c.Name)`. */
  function SortContainers(containers: seq<Container>): seq<Container>
  {
    SortBy(containers, ContainerName)
  }

  /** The policy grants permission `p` at `minute`. */
  predicate Grants(policy: SharedAccessPolicy, p: SasPermission, minute: int)
  {
    p in policy.permissions
    && (policy.startTime.None? || policy.startTime.value <= minute)
    && minute < policy.expiryTime
  }

  /**
   * The source URL of a copy: the blob's URI followed by a signature that
   * grants read access only, with no start time, until `validityPeriodInMinutes`
   * after `now`.
   */
  function GetShareAccessUri(blobName: Name, validityPeriodInMinutes: int, container: ContainerRef, now: int): (url: SignedUrl)
    ensures url.blob == BlobRef(container.account, container.name, blobName)
    ensures forall p, minute :: Grants(url.signature, p, minute) <==> p == ReadBlob && minute < now + validityPeriodInMinutes
  {
    SignedUrl(BlobRef(container.account, container.name, blobName), SharedAccessPolicy({ReadBlob}, None, now + validityPeriodInMinutes))
  }

  /** The source container a copy reads from: the container itself, on the source account. */
  function SourceRef(c: Container): ContainerRef
  {
    ContainerRef(SourceStorage, c.name)
  }

  /** The container MakeContainer provisions: the same name on the target account. */
  function TargetRef(c: Container): ContainerRef
  {
    ContainerRef(TargetStorage, c.name)
  }

  /**
   * TryCopyBlobToTargetContainer: a copy into the same-named target blob from
   * the signed source URL; `accepted` is false when the service refuses it (the
   * StorageException is caught).
   */
  function CopyEvent(item: Blob, targetContainer: ContainerRef, sourceContainer: ContainerRef, refused: set<BlobRef>, now: int): Event
  {
    var blobRef := BlobRef(targetContainer.account, targetContainer.name, item.name);
    Copy(blobRef, GetShareAccessUri(item.name, SAS_VALIDITY_MINUTES, sourceContainer, now), blobRef !in refused)
  }

  /** The copies of a list of blobs, one per blob, in order. */
  function CopyEvents(blobs: seq<Blob>, targetContainer: ContainerRef, sourceContainer: ContainerRef, refused: set<BlobRef>, now: int): seq<Event>
  {
    if blobs == [] then []
    else CopyEvents(blobs[..|blobs| - 1], targetContainer, sourceContainer, refused, now)
         + [CopyEvent(blobs[|blobs| - 1], targetContainer, sourceContainer, refused, now)]
  }

  /** MakeContainer's effects: create, permissions only when present, then the metadata committed once. */
  function ProvisionTrace(c: Container): seq<Event>
  {
    [Create(ContainerRes(c.name))]
    + (if c.permissions.Some? then [SetPermissions(ContainerRes(c.name), c.permissions.value)] else [])
    + [SetMetadata(c.name, c.metadata)]
  }

  /** The copies of one container: AddMissingBlobs' before UpdateBlobs'. */
  function ContainerCopies(c: Container, target: TargetAccount, now: int): seq<Event>
  {
    var targetBlobs := Listing(target, c.name);
    CopyEvents(MissingBlobs(c.blobs, targetBlobs), TargetRef(c), SourceRef(c), target.refused, now)
    + CopyEvents(StaleBlobs(c.blobs, targetBlobs), TargetRef(c), SourceRef(c), target.refused, now)
  }

  /** CopyBlobContainer's effects: provisioning, then the copies. */
  function ContainerTrace(c: Container, target: TargetAccount, now: int): seq<Event>
  {
    ProvisionTrace(c) + ContainerCopies(c, target, now)
  }

  function BlobPassTrace(containers: seq<Container>, target: TargetAccount, now: int): seq<Event>
  {
    if containers == [] then []
    else BlobPassTrace(containers[..|containers| - 1], target, now) + ContainerTrace(containers[|containers| - 1], target, now)
  }

  /**
   * The trace holds a copy into the blob `name` of container `container` on the
   * target account, read from the same-named blob of the source account.
   */
  predicate CopiesName(trace: seq<Event>, container: Name, name: Name)
  {
    exists k :: 0 <= k < |trace| && trace[k].Copy?
      && trace[k].target == BlobRef(TargetStorage, container, name)
      && trace[k].source.blob == BlobRef(SourceStorage, container, name)
  }

  lemma {:induction false} CopyEventsAt(blobs: seq<Blob>, targetContainer: ContainerRef, sourceContainer: ContainerRef, refused: set<BlobRef>, now: int)
    ensures |CopyEvents(blobs, targetContainer, sourceContainer, refused, now)| == |blobs|
    ensures forall i :: 0 <= i < |blobs| ==>
              CopyEvents(blobs, targetContainer, sourceContainer, refused, now)[i]
              == CopyEvent(blobs[i], targetContainer, sourceContainer, refused, now)
  {
    if blobs != [] {
      CopyEventsAt(blobs[..|blobs| - 1], targetContainer, sourceContainer, refused, now);
    }
  }

  /**
   * One copy request per blob whatever the service answers (a refused copy does
   * not stop the next), each into the same-named blob of the target container,
   * from the same-named blob of the source container, signed read-only without start time until 360 minutes after `now`.
   */
  lemma CopyEventsShape(blobs: seq<Blob>, targetContainer: ContainerRef, sourceContainer: ContainerRef, refused: set<BlobRef>, now: int)
    ensures |CopyEvents(blobs, targetContainer, sourceContainer, refused, now)| == |blobs|
    ensures forall i :: 0 <= i < |blobs| ==>
              var e := CopyEvents(blobs, targetContainer, sourceContainer, refused, now)[i];
              && e.Copy?
              && e.target == BlobRef(targetContainer.account, targetContainer.name, blobs[i].name)
              && e.source.blob == BlobRef(sourceContainer.account, sourceContainer.name, blobs[i].name)
              && e.source.signature.permissions == {ReadBlob}
              && e.source.signature.startTime.None?
              && e.source.signature.expiryTime == now + SAS_VALIDITY_MINUTES
              && (e.accepted <==> e.target !in refused)
  {
    CopyEventsAt(blobs, targetContainer, sourceContainer, refused, now);
  }

  /**
   * A container's copy phase starts only copies on that container, each into a
   * blob of the target account, read from the same-named blob of the same-named
   * container on the source account.
   */
  lemma ContainerCopiesAbout(c: Container, target: TargetAccount, now: int)
    ensures About(ContainerCopies(c, target, now), ContainerRes(c.name))
    ensures forall k :: 0 <= k < |ContainerCopies(c, target, now)| ==>
              var e := ContainerCopies(c, target, now)[k];
              && e.Copy?
              && e.target.account == TargetStorage && e.target.container == c.name
              && e.source.blob == BlobRef(SourceStorage, c.name, e.target.blob)
  {
    var targetBlobs := Listing(target, c.name);
    var ms := MissingBlobs(c.blobs, targetBlobs);
    var ss := StaleBlobs(c.blobs, targetBlobs);
    CopyEventsAt(ms, TargetRef(c), SourceRef(c), target.refused, now);
    CopyEventsAt(ss, TargetRef(c), SourceRef(c), target.refused, now);
    var missing := CopyEvents(ms, TargetRef(c), SourceRef(c), target.refused, now);
    var stale := CopyEvents(ss, TargetRef(c), SourceRef(c), target.refused, now);
    var copies: seq<Event> := missing + stale;
    forall k | 0 <= k < |copies|
      ensures copies[k].Copy? && Subject(copies[k]) == ContainerRes(c.name)
      ensures copies[k].target.account == TargetStorage && copies[k].target.container == c.name
      ensures copies[k].source.blob == BlobRef(SourceStorage, c.name, copies[k].target.blob)
    {
      if k >= |missing| { assert copies[k] == stale[k - |missing|]; }
    }
  }

  /**
   * MakeContainer creates the container first, sets permissions exactly when
   * the source has them (to the source's), and ends with one SetMetadata
   * carrying the source's metadata.
   */
  lemma ProvisionShape(c: Container)
    ensures var prov := ProvisionTrace(c);
            && 2 <= |prov|
            && prov[0] == Create(ContainerRes(c.name))
            && prov[|prov| - 1] == SetMetadata(c.name, c.metadata)
            && About(prov, ContainerRes(c.name))
            && Created(prov) == [ContainerRes(c.name)]
            && (forall k :: 0 <= k < |prov| - 1 ==> !prov[k].SetMetadata?)
            && (forall k :: 0 <= k < |prov| ==> !prov[k].Copy?)
            && ((exists k :: 0 <= k < |prov| && prov[k].SetPermissions?) <==> c.permissions.Some?)
            && (forall k :: 0 <= k < |prov| && prov[k].SetPermissions? ==> Some(prov[k].permissions) == c.permissions)
  {
    var prov := ProvisionTrace(c);
    if c.permissions.Some? {
      assert prov == [Create(ContainerRes(c.name)), SetPermissions(ContainerRes(c.name), c.permissions.value), SetMetadata(c.name, c.metadata)];
      assert prov[1].SetPermissions?;
      NoCreates(prov[1..]);
    } else {
      assert prov == [Create(ContainerRes(c.name)), SetMetadata(c.name, c.metadata)];
      NoCreates(prov[1..]);
    }
  }

  /** Everything CopyBlobContainer does acts on that one container, which it creates once. */
  lemma ContainerTraceAbout(c: Container, target: TargetAccount, now: int)
    ensures About(ContainerTrace(c, target, now), ContainerRes(c.name))
    ensures Created(ContainerTrace(c, target, now)) == [ContainerRes(c.name)]
  {
    var prov := ProvisionTrace(c);
    var copies := ContainerCopies(c, target, now);
    ProvisionShape(c);
    ContainerCopiesAbout(c, target, now);
    AboutConcat(prov, copies, ContainerRes(c.name));
    NoCreates(copies);
    CreatedConcat(prov, copies);
  }

  /** The whole container trace: provisioning first, then only copies, all on this container. */
  lemma ContainerTraceShape(c: Container, target: TargetAccount, now: int)
    ensures var trace := ContainerTrace(c, target, now);
            var p := |ProvisionTrace(c)| - 1;
            && 0 < p < |trace|
            && trace[0] == Create(ContainerRes(c.name))
            && trace[p] == SetMetadata(c.name, c.metadata)
            && (forall k :: 0 <= k < |trace| && trace[k].SetMetadata? ==> k == p)
            && (forall k :: 0 <= k < |trace| ==> (trace[k].Copy? <==> p < k))
  {
    var prov := ProvisionTrace(c);
    var copies := ContainerCopies(c, target, now);
    ProvisionShape(c);
    ContainerCopiesAbout(c, target, now);
    var trace := prov + copies;
    forall k | 0 <= k < |trace| ensures trace[k] == if k < |prov| then prov[k] else copies[k - |prov|] {
    }
  }

  /** Permissions are set on the target exactly when the source container has them, and to the source's. */
  lemma ContainerPermissionsCopied(c: Container, target: TargetAccount, now: int)
    ensures var trace := ContainerTrace(c, target, now);
            && ((exists k :: 0 <= k < |trace| && trace[k].SetPermissions?) <==> c.permissions.Some?)
            && (forall k :: 0 <= k < |trace| && trace[k].SetPermissions? ==> Some(trace[k].permissions) == c.permissions)
  {
    var prov := ProvisionTrace(c);
    var copies := ContainerCopies(c, target, now);
    ProvisionShape(c);
    ContainerCopiesAbout(c, target, now);
    var trace := prov + copies;
    forall k | 0 <= k < |prov| ensures trace[k] == prov[k] {
    }
    forall k | |prov| <= k < |trace| ensures trace[k].Copy? {
      assert trace[k] == copies[k - |prov|];
    }
    assert ContainerTrace(c, target, now) == trace;
    if c.permissions.Some? {
      var k :| 0 <= k < |prov| && prov[k].SetPermissions?;
      assert trace[k] == prov[k];
      assert trace[k].SetPermissions?;
    } else {
      forall k | 0 <= k < |prov| ensures !trace[k].SetPermissions? {
        assert trace[k] == prov[k];
      }
    }
  }

  /** A container's copy list copies into a blob called `name` iff the list holds a blob of that name. */
  lemma CopiesNameOfList(blobs: seq<Blob>, c: Container, refused: set<BlobRef>, now: int, name: Name)
    ensures CopiesName(CopyEvents(blobs, TargetRef(c), SourceRef(c), refused, now), c.name, name)
         <==> exists i :: 0 <= i < |blobs| && blobs[i].name == name
  {
    var events := CopyEvents(blobs, TargetRef(c), SourceRef(c), refused, now);
    CopyEventsAt(blobs, TargetRef(c), SourceRef(c), refused, now);
    if exists i :: 0 <= i < |blobs| && blobs[i].name == name {
      var i :| 0 <= i < |blobs| && blobs[i].name == name;
      assert events[i].Copy? && events[i].target == BlobRef(TargetStorage, c.name, name);
    }
  }

  lemma CopiesNameConcat(a: seq<Event>, b: seq<Event>, container: Name, name: Name)
    ensures CopiesName(a + b, container, name) <==> CopiesName(a, container, name) || CopiesName(b, container, name)
  {
    var t := BlobRef(TargetStorage, container, name);
    var src := BlobRef(SourceStorage, container, name);
    if CopiesName(a + b, container, name) {
      var k :| 0 <= k < |a + b| && (a + b)[k].Copy? && (a + b)[k].target == t && (a + b)[k].source.blob == src;
      if k >= |a| { assert (a + b)[k] == b[k - |a|]; }
    }
    if CopiesName(b, container, name) {
      var k :| 0 <= k < |b| && b[k].Copy? && b[k].target == t && b[k].source.blob == src;
      assert (a + b)[|a| + k] == b[k];
    }
    if CopiesName(a, container, name) {
      var k :| 0 <= k < |a| && a[k].Copy? && a[k].target == t && a[k].source.blob == src;
      assert (a + b)[k] == a[k];
    }
  }

  /** With unique names, a blob of a copy set carrying `b`'s name is `b` itself. */
  lemma SameNameInCopySet(c: Container, targetBlobs: seq<Blob>, b: Blob, x: Blob)
    requires UniqueNames(c.blobs) && b in c.blobs && x.name == b.name
    requires x in MissingBlobs(c.blobs, targetBlobs) || x in StaleBlobs(c.blobs, targetBlobs)
    ensures x == b
  {
    CopySetMembers(c.blobs, targetBlobs, x);
    var j :| 0 <= j < |c.blobs| && c.blobs[j] == b;
    var j2 :| 0 <= j2 < |c.blobs| && c.blobs[j2] == x;
    assert j2 == j;
  }

  /**
   * With unique source names, a copy of a source blob, from the source account
   * into the same-named blob of the target account, is requested exactly when
   * the blob is missing or stale: a current blob is never copied.
   */
  lemma ContainerCopiesExactlyMissingAndStale(c: Container, target: TargetAccount, now: int, b: Blob)
    requires UniqueNames(c.blobs)
    requires b in c.blobs
    ensures CopiesName(ContainerTrace(c, target, now), c.name, b.name) <==> Classify(Listing(target, c.name), b) != Current
  {
    var targetBlobs := Listing(target, c.name);
    var ms := MissingBlobs(c.blobs, targetBlobs);
    var ss := StaleBlobs(c.blobs, targetBlobs);
    var prov := ProvisionTrace(c);
    var missing := CopyEvents(ms, TargetRef(c), SourceRef(c), target.refused, now);
    var stale := CopyEvents(ss, TargetRef(c), SourceRef(c), target.refused, now);
    ProvisionShape(c);
    assert !CopiesName(prov, c.name, b.name);
    CopiesNameConcat(prov, missing + stale, c.name, b.name);
    CopiesNameConcat(missing, stale, c.name, b.name);
    assert ContainerTrace(c, target, now) == prov + (missing + stale);
    CopiesNameOfList(ms, c, target.refused, now, b.name);
    CopiesNameOfList(ss, c, target.refused, now, b.name);
    CopySetMembers(c.blobs, targetBlobs, b);
    if exists i :: 0 <= i < |ms| && ms[i].name == b.name {
      var i :| 0 <= i < |ms| && ms[i].name == b.name;
      SameNameInCopySet(c, targetBlobs, b, ms[i]);
    }
    if exists i :: 0 <= i < |ss| && ss[i].name == b.name {
      var i :| 0 <= i < |ss| && ss[i].name == b.name;
      SameNameInCopySet(c, targetBlobs, b, ss[i]);
    }
    if Classify(targetBlobs, b) == Missing {
      var i :| 0 <= i < |ms| && ms[i] == b;
    } else if Classify(targetBlobs, b) == Stale {
      var i :| 0 <= i < |ss| && ss[i] == b;
    }
  }

  lemma {:induction false} BlobPassUntouched(containers: seq<Container>, target: TargetAccount, now: int, r: Resource)
    requires forall i :: 0 <= i < |containers| ==> r != ContainerRes(containers[i].name)
    ensures Project(BlobPassTrace(containers, target, now), r) == []
  {
    if containers != [] {
      var init := containers[..|containers| - 1];
      var last := containers[|containers| - 1];
      BlobPassUntouched(init, target, now, r);
      ProjectConcat(BlobPassTrace(init, target, now), ContainerTrace(last, target, now), r);
      ContainerTraceAbout(last, target, now);
      ProjectAbout(ContainerTrace(last, target, now), ContainerRes(last.name), r);
    }
  }

  /** What the pass does to one container is exactly that container's CopyBlobContainer. */
  lemma {:induction false} BlobPassProjection(containers: seq<Container>, target: TargetAccount, now: int, i: nat)
    requires DistinctBy(containers, ContainerName)
    requires i < |containers|
    ensures Project(BlobPassTrace(containers, target, now), ContainerRes(containers[i].name))
         == ContainerTrace(containers[i], target, now)
  {
    var init := containers[..|containers| - 1];
    var last := containers[|containers| - 1];
    var r := ContainerRes(containers[i].name);
    ProjectConcat(BlobPassTrace(init, target, now), ContainerTrace(last, target, now), r);
    ContainerTraceAbout(last, target, now);
    ProjectAbout(ContainerTrace(last, target, now), ContainerRes(last.name), r);
    assert DistinctBy(init, ContainerName) by {
      forall a, b | 0 <= a < b < |init| ensures ContainerName(init[a]) != ContainerName(init[b]) {
        assert init[a] == containers[a] && init[b] == containers[b];
      }
    }
    if i == |containers| - 1 {
      forall j | 0 <= j < |init| ensures r != ContainerRes(init[j].name) {
        assert init[j] == containers[j];
      }
      BlobPassUntouched(init, target, now, r);
      assert [] + ContainerTrace(last, target, now) == ContainerTrace(last, target, now);
    } else {
      assert init[i] == containers[i];
      BlobPassProjection(init, target, now, i);
      assert ContainerName(containers[i]) != ContainerName(last);
      assert ContainerTrace(containers[i], target, now) + [] == ContainerTrace(containers[i], target, now);
    }
  }

  lemma {:induction false} BlobPassAboutContainers(containers: seq<Container>, target: TargetAccount, now: int)
    ensures forall k :: 0 <= k < |BlobPassTrace(containers, target, now)| ==>
              Subject(BlobPassTrace(containers, target, now)[k]).ContainerRes?
  {
    if containers != [] {
      var init := containers[..|containers| - 1];
      var last := containers[|containers| - 1];
      BlobPassAboutContainers(init, target, now);
      ContainerTraceAbout(last, target, now);
      var a := BlobPassTrace(init, target, now);
      var b := ContainerTrace(last, target, now);
      forall k | 0 <= k < |a + b| ensures Subject((a + b)[k]).ContainerRes? {
        if k >= |a| { assert (a + b)[k] == b[k - |a|]; }
      }
    }
  }

  lemma {:induction false} BlobPassCreates(containers: seq<Container>, target: TargetAccount, now: int)
    ensures |Created(BlobPassTrace(containers, target, now))| == |containers|
    ensures forall i :: 0 <= i < |containers| ==>
              Created(BlobPassTrace(containers, target, now))[i] == ContainerRes(containers[i].name)
  {
    if containers != [] {
      var init := containers[..|containers| - 1];
      var last := containers[|containers| - 1];
      BlobPassCreates(init, target, now);
      var c0 := Created(BlobPassTrace(init, target, now));
      var c1 := Created(ContainerTrace(last, target, now));
      CreatedConcat(BlobPassTrace(init, target, now), ContainerTrace(last, target, now));
      ContainerTraceAbout(last, target, now);
      var c := c0 + c1;
      assert Created(BlobPassTrace(containers, target, now)) == c;
      forall i | 0 <= i < |containers| ensures c[i] == ContainerRes(containers[i].name) {
        if i < |init| {
          assert c[i] == c0[i];
          assert init[i] == containers[i];
        } else {
          assert c[i] == c1[0];
        }
      }
    }
  }

  /** A resource list created in the order of a sorted permutation is in name order and names every element. */
  lemma CreatedInOrder(sorted: seq<Container>, containers: seq<Container>, created: seq<Resource>)
    requires SortedBy(sorted, ContainerName) && multiset(sorted) == multiset(containers)
    requires |created| == |sorted|
    requires forall i :: 0 <= i < |sorted| ==> created[i] == ContainerRes(sorted[i].name)
    ensures |created| == |containers|
    ensures forall i :: 0 <= i < |created| ==> created[i].ContainerRes?
    ensures forall i, j :: 0 <= i < j < |created| && created[i].ContainerRes? && created[j].ContainerRes? ==>
              NameLe(created[i].container, created[j].container)
    ensures forall c :: c in containers ==> ContainerRes(c.name) in created
  {
    assert |sorted| == |multiset(sorted)| == |multiset(containers)| == |containers|;
    forall c | c in containers ensures ContainerRes(c.name) in created {
      assert c in multiset(sorted);
      var i :| 0 <= i < |sorted| && sorted[i] == c;
      assert created[i] == ContainerRes(c.name);
    }
  }

  /** Containers are created in ascending name order, and every source container is created. */
  lemma ContainersInNameOrder(containers: seq<Container>, target: TargetAccount, now: int)
    ensures var created := Created(BlobPassTrace(SortContainers(containers), target, now));
            |created| == |containers|
            && (forall i :: 0 <= i < |created| ==> created[i].ContainerRes?)
            && (forall i, j :: 0 <= i < j < |created| && created[i].ContainerRes? && created[j].ContainerRes? ==>
                  NameLe(created[i].container, created[j].container))
            && (forall c :: c in containers ==> ContainerRes(c.name) in created)
  {
    var sorted := SortContainers(containers);
    SortByCorrect(containers, ContainerName);
    BlobPassCreates(sorted, target, now);
    CreatedInOrder(sorted, containers, Created(BlobPassTrace(sorted, target, now)));
  }


  /** Copying one more container extends the pass by that container's effects. */
  lemma PassStep(done: seq<Container>, c: Container, target: TargetAccount, now: int)
    ensures BlobPassTrace(done + [c], target, now) == BlobPassTrace(done, target, now) + ContainerTrace(c, target, now)
  {
    assert (done + [c])[..|done|] == done;
  }

  /** Copying one more blob extends a copy list's events by that blob's copy. */
  lemma CopyStep(done: seq<Blob>, b: Blob, targetContainer: ContainerRef, sourceContainer: ContainerRef, refused: set<BlobRef>, now: int)
    ensures CopyEvents(done + [b], targetContainer, sourceContainer, refused, now)
         == CopyEvents(done, targetContainer, sourceContainer, refused, now) + [CopyEvent(b, targetContainer, sourceContainer, refused, now)]
  {
    assert (done + [b])[..|done|] == done;
  }
}
