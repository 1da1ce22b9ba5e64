/**
 * The blob diff engine: two pure filters over the source and target listings of
 * one container.  `MissingBlobs` is the `Where(NotExists)` of AddMissingBlobs;
 * `StaleBlobs` is the `Select`/`Where(Source != Target)` of UpdateBlobs.
 */
module BlobDiff {

  import opened Wrappers
  import opened Storage

  /**
   * C#'s lifted `<` on two nullable times: true only when both are present
   * and the first is strictly earlier.
   */
  predicate EarlierThan(a: Option<int>, b: Option<int>)
    ensures EarlierThan(a, b) ==> a.Some? && b.Some? && a != b
  {
    a.Some? && b.Some? && a.value < b.value
  }

  /** `targetBlobs.All(tb => tb.Name != b.Name)`. */
  predicate NotExists(targetBlobs: seq<Blob>, b: Blob)
    ensures NotExists(targetBlobs, b) <==> FirstByName(targetBlobs, b.name).None?
  {
    forall k :: 0 <= k < |targetBlobs| ==> targetBlobs[k].name != b.name
  }

  /** `targetBlobs.FirstOrDefault(b => b.Name == name)`: the first target blob with that name. */
  function FirstByName(targetBlobs: seq<Blob>, name: Name): (r: Option<Blob>)
    ensures r.None? <==> forall k :: 0 <= k < |targetBlobs| ==> targetBlobs[k].name != name
    ensures r.Some? ==> exists i :: 0 <= i < |targetBlobs| && targetBlobs[i] == r.value
                          && r.value.name == name
                          && forall k :: 0 <= k < i ==> targetBlobs[k].name != name
  {
    if targetBlobs == [] then None
    else if targetBlobs[0].name == name then Some(targetBlobs[0])
    else
      var r := FirstByName(targetBlobs[1..], name);
      assert r.Some? ==> exists i :: 1 <= i < |targetBlobs| && targetBlobs[i] == r.value
                            && forall k :: 0 <= k < i ==> targetBlobs[k].name != name by {
        if r.Some? {
          var i :| 0 <= i < |targetBlobs[1..]| && targetBlobs[1..][i] == r.value
                     && forall k :: 0 <= k < i ==> targetBlobs[1..][k].name != name;
          assert targetBlobs[i + 1] == r.value;
          forall k | 0 <= k < i + 1 ensures targetBlobs[k].name != name {
            if k > 0 { assert targetBlobs[k] == targetBlobs[1..][k - 1]; }
          }
        }
      }
      r
  }

  /** The anonymous `{ Source, Target }` record built by UpdateBlobs' Select. */
  datatype Candidate = Candidate(source: Blob, target: Blob)

  /** The Select lambda of UpdateBlobs: pair with the target blob only when that one is older. */
  function Pair(targetBlobs: seq<Blob>, sb: Blob): (p: Candidate)
    ensures p.source == sb
    ensures p.target == sb || (p.target in targetBlobs && p.target.name == sb.name
                               && EarlierThan(p.target.lastModified, sb.lastModified))
  {
    match FirstByName(targetBlobs, sb.name)
    case None => Candidate(sb, sb)
    case Some(tb) =>
      if EarlierThan(tb.lastModified, sb.lastModified) then Candidate(sb, tb)
      else Candidate(sb, sb)
  }

  /** The blobs AddMissingBlobs copies, in source order. */
  function MissingBlobs(sourceBlobs: seq<Blob>, targetBlobs: seq<Blob>): (missing: seq<Blob>)
    ensures |missing| <= |sourceBlobs|
    ensures forall b :: b in missing ==> NotExists(targetBlobs, b)
  {
    if sourceBlobs == [] then []
    else (if NotExists(targetBlobs, sourceBlobs[0]) then [sourceBlobs[0]] else [])
         + MissingBlobs(sourceBlobs[1..], targetBlobs)
  }

  /** The `Source` of each pair UpdateBlobs keeps with `Where(b => b.Source != b.Target)`. */
  function StaleBlobs(sourceBlobs: seq<Blob>, targetBlobs: seq<Blob>): (stale: seq<Blob>)
    ensures |stale| <= |sourceBlobs|
    ensures forall b :: b in stale ==> Classify(targetBlobs, b) == Stale
  {
    if sourceBlobs == [] then []
    else
      var p := Pair(targetBlobs, sourceBlobs[0]);
      PairKeptIffStale(targetBlobs, sourceBlobs[0]);
      (if p.source != p.target then [p.source] else []) + StaleBlobs(sourceBlobs[1..], targetBlobs)
  }

  /** How the diff classifies one source blob. */
  datatype Status = Missing | Stale | Current

  /**
   * The reference classification: missing when no target blob has the name,
   * stale when the (first) same-named target blob is strictly older with both
   * times present, current otherwise.
   */
  function Classify(targetBlobs: seq<Blob>, b: Blob): Status
  {
    match FirstByName(targetBlobs, b.name)
    case None => Missing
    case Some(tb) => if EarlierThan(tb.lastModified, b.lastModified) then Stale else Current
  }

  /** The current blobs of a listing (never copied); used to state the partition. */
  function CurrentBlobs(sourceBlobs: seq<Blob>, targetBlobs: seq<Blob>): seq<Blob>
  {
    if sourceBlobs == [] then []
    else (if Classify(targetBlobs, sourceBlobs[0]) == Current then [sourceBlobs[0]] else [])
         + CurrentBlobs(sourceBlobs[1..], targetBlobs)
  }

  /** Missing means: no target blob carries the source blob's name. */
  lemma MissingMeansNoSameName(targetBlobs: seq<Blob>, b: Blob)
    ensures Classify(targetBlobs, b) == Missing <==> NotExists(targetBlobs, b)
  {
  }

  /**
   * Stale means: the first same-named target blob exists, both times are
   * present and the target's is strictly earlier.  A null time on either side
   * is never stale.
   */
  lemma StaleMeansStrictlyOlder(targetBlobs: seq<Blob>, b: Blob)
    ensures Classify(targetBlobs, b) == Stale <==>
      exists i :: 0 <= i < |targetBlobs| && targetBlobs[i].name == b.name
        && (forall k :: 0 <= k < i ==> targetBlobs[k].name != b.name)
        && targetBlobs[i].lastModified.Some? && b.lastModified.Some?
        && targetBlobs[i].lastModified.value < b.lastModified.value
  {
    var r := FirstByName(targetBlobs, b.name);
    if r.Some? {
      var i :| 0 <= i < |targetBlobs| && targetBlobs[i] == r.value
               && forall k :: 0 <= k < i ==> targetBlobs[k].name != b.name;
      forall j | 0 <= j < |targetBlobs| && targetBlobs[j].name == b.name
                 && (forall k :: 0 <= k < j ==> targetBlobs[k].name != b.name)
        ensures j == i
      {
      }
    }
  }

  /** Names are unique within a container listing. */
  predicate UniqueNames(blobs: seq<Blob>)
  {
    forall i, j :: 0 <= i < j < |blobs| ==> blobs[i].name != blobs[j].name
  }

  /** With unique target names: stale iff some same-named target blob is strictly older. */
  lemma StaleWithUniqueNames(targetBlobs: seq<Blob>, b: Blob)
    requires UniqueNames(targetBlobs)
    ensures Classify(targetBlobs, b) == Stale <==>
      exists tb :: tb in targetBlobs && tb.name == b.name && EarlierThan(tb.lastModified, b.lastModified)
  {
    var r := FirstByName(targetBlobs, b.name);
    if r.Some? {
      forall tb | tb in targetBlobs && tb.name == b.name ensures tb == r.value {
        var i :| 0 <= i < |targetBlobs| && targetBlobs[i] == r.value
                 && forall k :: 0 <= k < i ==> targetBlobs[k].name != b.name;
        var j :| 0 <= j < |targetBlobs| && targetBlobs[j] == tb;
      }
    }
  }

  /** UpdateBlobs' Where(Source != Target) keeps a blob exactly when it is stale. */
  lemma PairKeptIffStale(targetBlobs: seq<Blob>, sb: Blob)
    ensures (Pair(targetBlobs, sb).source != Pair(targetBlobs, sb).target) <==> Classify(targetBlobs, sb) == Stale
    ensures Pair(targetBlobs, sb).source == sb
  {
  }

  /** AddMissingBlobs copies exactly the missing blobs, each as often as the source lists it. */
  lemma {:induction false} MissingBlobsExact(sourceBlobs: seq<Blob>, targetBlobs: seq<Blob>, b: Blob)
    ensures multiset(MissingBlobs(sourceBlobs, targetBlobs))[b]
         == if Classify(targetBlobs, b) == Missing then multiset(sourceBlobs)[b] else 0
  {
    if sourceBlobs != [] {
      MissingBlobsExact(sourceBlobs[1..], targetBlobs, b);
      assert sourceBlobs == [sourceBlobs[0]] + sourceBlobs[1..];
      MissingMeansNoSameName(targetBlobs, sourceBlobs[0]);
    }
  }

  /** UpdateBlobs copies exactly the stale blobs, each as often as the source lists it. */
  lemma {:induction false} StaleBlobsExact(sourceBlobs: seq<Blob>, targetBlobs: seq<Blob>, b: Blob)
    ensures multiset(StaleBlobs(sourceBlobs, targetBlobs))[b]
         == if Classify(targetBlobs, b) == Stale then multiset(sourceBlobs)[b] else 0
  {
    if sourceBlobs != [] {
      StaleBlobsExact(sourceBlobs[1..], targetBlobs, b);
      assert sourceBlobs == [sourceBlobs[0]] + sourceBlobs[1..];
      PairKeptIffStale(targetBlobs, sourceBlobs[0]);
    }
  }

  lemma {:induction false} CurrentBlobsExact(sourceBlobs: seq<Blob>, targetBlobs: seq<Blob>, b: Blob)
    ensures multiset(CurrentBlobs(sourceBlobs, targetBlobs))[b]
         == if Classify(targetBlobs, b) == Current then multiset(sourceBlobs)[b] else 0
  {
    if sourceBlobs != [] {
      CurrentBlobsExact(sourceBlobs[1..], targetBlobs, b);
      assert sourceBlobs == [sourceBlobs[0]] + sourceBlobs[1..];
    }
  }

  /**
   * Every source blob falls into exactly one group: the missing, stale and
   * current blobs together are the source listing, and the two copy sets share
   * no blob.
   */
  lemma Partition(sourceBlobs: seq<Blob>, targetBlobs: seq<Blob>)
    ensures multiset(MissingBlobs(sourceBlobs, targetBlobs))
          + multiset(StaleBlobs(sourceBlobs, targetBlobs))
          + multiset(CurrentBlobs(sourceBlobs, targetBlobs)) == multiset(sourceBlobs)
    ensures multiset(MissingBlobs(sourceBlobs, targetBlobs))
          * multiset(StaleBlobs(sourceBlobs, targetBlobs)) == multiset{}
  {
    var m := multiset(MissingBlobs(sourceBlobs, targetBlobs));
    var s := multiset(StaleBlobs(sourceBlobs, targetBlobs));
    var c := multiset(CurrentBlobs(sourceBlobs, targetBlobs));
    forall b ensures (m + s + c)[b] == multiset(sourceBlobs)[b] && (m * s)[b] == 0 {
      MissingBlobsExact(sourceBlobs, targetBlobs, b);
      StaleBlobsExact(sourceBlobs, targetBlobs, b);
      CurrentBlobsExact(sourceBlobs, targetBlobs, b);
    }
    assert m + s + c == multiset(sourceBlobs);
    assert m * s == multiset{};
  }

  /** A current blob is in neither copy set. */
  lemma CurrentNeverCopied(sourceBlobs: seq<Blob>, targetBlobs: seq<Blob>, b: Blob)
    requires Classify(targetBlobs, b) == Current
    ensures b !in MissingBlobs(sourceBlobs, targetBlobs)
    ensures b !in StaleBlobs(sourceBlobs, targetBlobs)
  {
    MissingBlobsExact(sourceBlobs, targetBlobs, b);
    StaleBlobsExact(sourceBlobs, targetBlobs, b);
    assert b !in multiset(MissingBlobs(sourceBlobs, targetBlobs));
    assert b !in multiset(StaleBlobs(sourceBlobs, targetBlobs));
  }

  /** Every blob of a copy set comes from the source listing and carries its set's status. */
  lemma CopySetMembers(sourceBlobs: seq<Blob>, targetBlobs: seq<Blob>, b: Blob)
    ensures b in MissingBlobs(sourceBlobs, targetBlobs) ==> b in sourceBlobs && Classify(targetBlobs, b) == Missing
    ensures b in StaleBlobs(sourceBlobs, targetBlobs) ==> b in sourceBlobs && Classify(targetBlobs, b) == Stale
    ensures b in sourceBlobs && Classify(targetBlobs, b) == Missing ==> b in MissingBlobs(sourceBlobs, targetBlobs)
    ensures b in sourceBlobs && Classify(targetBlobs, b) == Stale ==> b in StaleBlobs(sourceBlobs, targetBlobs)
  {
    MissingBlobsExact(sourceBlobs, targetBlobs, b);
    StaleBlobsExact(sourceBlobs, targetBlobs, b);
    assert b in sourceBlobs <==> b in multiset(sourceBlobs);
    assert b in MissingBlobs(sourceBlobs, targetBlobs) <==> b in multiset(MissingBlobs(sourceBlobs, targetBlobs));
    assert b in StaleBlobs(sourceBlobs, targetBlobs) <==> b in multiset(StaleBlobs(sourceBlobs, targetBlobs));
  }

  /** Two source blobs, one older on the target and one absent there: one stale, one missing. */
  lemma OneStaleOneMissing()
    ensures var source := [Blob("a.png", Some(100)), Blob("b.png", Some(200))];
            var target := [Blob("a.png", Some(50))];
            StaleBlobs(source, target) == [Blob("a.png", Some(100))]
            && MissingBlobs(source, target) == [Blob("b.png", Some(200))]
  {
    var source := [Blob("a.png", Some(100)), Blob("b.png", Some(200))];
    var target := [Blob("a.png", Some(50))];
    assert FirstByName(target, "b.png") == None;
    assert !NotExists(target, source[0]);
  }

  /**
   * A null time on either side never makes a blob stale: it is not updated, and
   * when a same-named target blob exists it is current and not added either.
   */
  lemma NullTimeIsCurrent(sourceBlobs: seq<Blob>, targetBlobs: seq<Blob>, b: Blob)
    requires b.lastModified.None?
          || (FirstByName(targetBlobs, b.name).Some? && FirstByName(targetBlobs, b.name).value.lastModified.None?)
    ensures Classify(targetBlobs, b) != Stale
    ensures b !in StaleBlobs(sourceBlobs, targetBlobs)
    ensures FirstByName(targetBlobs, b.name).Some? ==>
              Classify(targetBlobs, b) == Current && b !in MissingBlobs(sourceBlobs, targetBlobs)
  {
    CopySetMembers(sourceBlobs, targetBlobs, b);
  }
}
