/**
 * Segmented table queries: which responses are requested, the requests issued
 * (the `queries` list), the writes forwarded to the target table and the
 * per-table progress counter (`retrieved`).
 */
module Paging {

  import opened Wrappers
  import opened Storage

  /** One `BeginExecuteQuerySegmented` request: the table and the continuation token sent. */
  datatype Query = Query(table: Name, token: Option<Token>)

  /**
   * How many of the responses are requested: each response after the first is
   * requested exactly when the one before it carried a token, so this is the
   * position of the first response without a token, plus one, or all of them.
   */
  function IssuedCount(segments: seq<Segment>): (n: nat)
    ensures n <= |segments|
    ensures segments != [] ==> 0 < n
    ensures forall j :: 0 <= j < n - 1 ==> segments[j].token.Some?
    ensures n < |segments| ==> segments[n - 1].token.None?
  {
    if segments == [] then 0
    else if segments[0].token.None? then 1
    else
      var n := 1 + IssuedCount(segments[1..]);
      assert forall j :: 1 <= j < n - 1 ==> segments[j] == segments[1..][j - 1];
      n
  }

  /** The responses that are requested and processed. */
  function Issued(segments: seq<Segment>): seq<Segment>
  {
    segments[..IssuedCount(segments)]
  }

  /** WriteToTarget for one page: the entities in order, then one Execute; nothing for an empty page. */
  function WriteEvents(table: Name, response: Segment): seq<Event>
  {
    if |response.entities| > 0 then [Write(table, response.entities), Execute(table)] else []
  }

  /** The writes of a sequence of pages, in order. */
  function PageTrace(table: Name, segments: seq<Segment>): seq<Event>
  {
    if segments == [] then []
    else PageTrace(table, segments[..|segments| - 1]) + WriteEvents(table, segments[|segments| - 1])
  }

  /** The follow-up request a response causes: one exactly when it carries a token. */
  function NextRequest(table: Name, response: Segment): seq<Query>
  {
    if response.token.Some? then [Query(table, response.token)] else []
  }

  function NextRequests(table: Name, segments: seq<Segment>): seq<Query>
  {
    if segments == [] then []
    else NextRequests(table, segments[..|segments| - 1]) + NextRequest(table, segments[|segments| - 1])
  }

  /** All requests of one table's copy: the first with a null token, then one per returned token. */
  function Requests(table: Name, segments: seq<Segment>): seq<Query>
  {
    [Query(table, None)] + NextRequests(table, Issued(segments))
  }

  /** The sum of the page sizes. */
  function Total(segments: seq<Segment>): nat
  {
    if segments == [] then 0
    else Total(segments[..|segments| - 1]) + |segments[|segments| - 1].entities|
  }

  /** The entities of all pages, in order. */
  function Entities(segments: seq<Segment>): seq<Entity>
  {
    if segments == [] then []
    else Entities(segments[..|segments| - 1]) + segments[|segments| - 1].entities
  }

  /** The entities carried by the Write events of a trace, in order. */
  function Written(trace: seq<Event>): seq<Entity>
  {
    if trace == [] then []
    else Written(trace[..|trace| - 1]) + (if trace[|trace| - 1].Write? then trace[|trace| - 1].entities else [])
  }

  /** `retrieved[name]`, with 0 for a table not yet counted. */
  function Count(retrieved: map<Name, nat>, name: Name): nat
  {
    if name in retrieved then retrieved[name] else 0
  }

  /** UpdateCount: the table's entry grows by `n` (created if absent); every other entry is unchanged. */
  function AddCount(retrieved: map<Name, nat>, name: Name, n: nat): (r: map<Name, nat>)
    ensures r.Keys == retrieved.Keys + {name}
    ensures r[name] == Count(retrieved, name) + n
    ensures forall other :: other in retrieved && other != name ==> r[other] == retrieved[other]
  {
    retrieved[name := Count(retrieved, name) + n]
  }

  /** The counter after handling the given responses of one table: untouched when none was handled. */
  function Tally(retrieved: map<Name, nat>, name: Name, handled: seq<Segment>): map<Name, nat>
  {
    if handled == [] then retrieved else AddCount(retrieved, name, Total(handled))
  }

  /** The counter after processing the requested responses of one table (none arrive when there are none). */
  function Counted(retrieved: map<Name, nat>, name: Name, segments: seq<Segment>): map<Name, nat>
  {
    Tally(retrieved, name, Issued(segments))
  }

  lemma AddCountTwice(retrieved: map<Name, nat>, name: Name, a: nat, b: nat)
    ensures AddCount(AddCount(retrieved, name, a), name, b) == AddCount(retrieved, name, a + b)
  {
  }

  /** The characterisation in IssuedCount's contract determines the count. */
  lemma IssuedCountUnique(segments: seq<Segment>, i: nat)
    requires i <= |segments|
    requires segments != [] ==> 0 < i
    requires forall j :: 0 <= j < i - 1 ==> segments[j].token.Some?
    requires i < |segments| ==> segments[i - 1].token.None?
    ensures i == IssuedCount(segments)
  {
    var n := IssuedCount(segments);
  }

  /** A complete response stream (only the last response lacks a token) is requested in full. */
  lemma CompleteStreamFullyIssued(segments: seq<Segment>)
    requires segments != [] && segments[|segments| - 1].token.None?
    requires forall j :: 0 <= j < |segments| - 1 ==> segments[j].token.Some?
    ensures Issued(segments) == segments
  {
    IssuedCountUnique(segments, |segments|);
  }

  lemma {:induction false} NextRequestsOfTokens(table: Name, segments: seq<Segment>)
    requires forall j :: 0 <= j < |segments| ==> segments[j].token.Some?
    ensures |NextRequests(table, segments)| == |segments|
    ensures forall k :: 0 <= k < |segments| ==> NextRequests(table, segments)[k] == Query(table, segments[k].token)
  {
    if segments != [] {
      var init := segments[..|segments| - 1];
      NextRequestsOfTokens(table, init);
    }
  }

  lemma {:induction false} NextRequestsSnoc(table: Name, segments: seq<Segment>, last: Segment)
    ensures NextRequests(table, segments + [last]) == NextRequests(table, segments) + NextRequest(table, last)
  {
    assert (segments + [last])[..|segments|] == segments;
  }

  /**
   * Pagination starts with a null token and, for each requested response k,
   * issues request k + 1 exactly when response k carries a token, sending that token.
   */
  lemma RequestsFollowTokens(table: Name, segments: seq<Segment>)
    ensures Requests(table, segments)[0] == Query(table, None)
    ensures |Requests(table, segments)| <= |Issued(segments)| + 1
    ensures forall k :: 0 <= k < |Issued(segments)| ==>
              (k + 1 < |Requests(table, segments)| <==> Issued(segments)[k].token.Some?)
    ensures forall k :: 0 <= k < |Issued(segments)| && Issued(segments)[k].token.Some? ==>
              Requests(table, segments)[k + 1] == Query(table, Issued(segments)[k].token)
  {
    var issued := Issued(segments);
    if issued != [] {
      var m := |issued| - 1;
      var init := issued[..m];
      assert issued == init + [issued[m]];
      NextRequestsOfTokens(table, init);
      NextRequestsSnoc(table, init, issued[m]);
    }
  }

  lemma {:induction false} WrittenConcat(a: seq<Event>, b: seq<Event>)
    ensures Written(a + b) == Written(a) + Written(b)
    decreases |b|
  {
    if b == [] {
      assert a + b == a;
    } else {
      var init := b[..|b| - 1];
      assert (a + b)[..|a + b| - 1] == a + init;
      assert (a + b)[|a + b| - 1] == b[|b| - 1];
      WrittenConcat(a, init);
    }
  }

  lemma WrittenOfPage(table: Name, response: Segment)
    ensures Written(WriteEvents(table, response)) == response.entities
  {
    if |response.entities| > 0 {
      var one := [Write(table, response.entities)];
      var w := one + [Execute(table)];
      assert w == WriteEvents(table, response);
      assert w[..|w| - 1] == one;
      assert one[..0] == [];
      assert Written(one) == Written([]) + response.entities;
      assert Written(w) == Written(one) + [];
    }
  }

  /** A trace with no Write event writes nothing. */
  lemma {:induction false} NoWrites(trace: seq<Event>)
    requires forall k :: 0 <= k < |trace| ==> !trace[k].Write?
    ensures Written(trace) == []
  {
    if trace != [] {
      NoWrites(trace[..|trace| - 1]);
    }
  }

  /** The page sizes add up to the number of entities the pages hold. */
  lemma {:induction false} TotalCountsEntities(segments: seq<Segment>)
    ensures |Entities(segments)| == Total(segments)
  {
    if segments != [] {
      TotalCountsEntities(segments[..|segments| - 1]);
    }
  }

  /** Every entity of every page is forwarded to the target, in order. */
  lemma {:induction false} PageTraceForwardsEverything(table: Name, segments: seq<Segment>)
    ensures Written(PageTrace(table, segments)) == Entities(segments)
  {
    if segments != [] {
      var init := segments[..|segments| - 1];
      var last := segments[|segments| - 1];
      PageTraceForwardsEverything(table, init);
      WrittenConcat(PageTrace(table, init), WriteEvents(table, last));
      WrittenOfPage(table, last);
    }
  }

  /**
   * WriteToTarget runs only for non-empty pages: every Write carries entities,
   * is about this table and is followed at once by its Execute.
   */
  lemma {:induction false} PageTraceShape(table: Name, segments: seq<Segment>)
    ensures About(PageTrace(table, segments), TableRes(table))
    ensures forall k :: 0 <= k < |PageTrace(table, segments)| && PageTrace(table, segments)[k].Write? ==>
              PageTrace(table, segments)[k].entities != []
              && k + 1 < |PageTrace(table, segments)|
              && PageTrace(table, segments)[k + 1] == Execute(table)
    ensures forall k :: 0 <= k < |PageTrace(table, segments)| ==>
              PageTrace(table, segments)[k].Write? || PageTrace(table, segments)[k].Execute?
  {
    if segments != [] {
      var init := segments[..|segments| - 1];
      var w := WriteEvents(table, segments[|segments| - 1]);
      PageTraceShape(table, init);
      var p := PageTrace(table, init);
      assert PageTrace(table, segments) == p + w;
      forall k | 0 <= k < |p + w| ensures (p + w)[k] == if k < |p| then p[k] else w[k - |p|] {
      }
    }
  }

  /** The final counter of a table is its old value plus the sum of its requested page sizes. */
  lemma CountedIsSum(retrieved: map<Name, nat>, name: Name, segments: seq<Segment>)
    requires segments != []
    ensures name in Counted(retrieved, name, segments)
    ensures Counted(retrieved, name, segments)[name] == Count(retrieved, name) + |Entities(Issued(segments))|
    ensures Counted(retrieved, name, segments)[name] == Count(retrieved, name) + |Written(PageTrace(name, Issued(segments)))|
    ensures forall other :: other != name ==>
              (other in Counted(retrieved, name, segments) <==> other in retrieved)
              && (other in retrieved ==> Counted(retrieved, name, segments)[other] == retrieved[other])
  {
    TotalCountsEntities(Issued(segments));
    PageTraceForwardsEverything(name, Issued(segments));
  }

  /** Handling one more response extends the writes, the follow-up requests and the counter by that response's share. */
  lemma HandleStep(retrieved: map<Name, nat>, table: Name, handled: seq<Segment>, response: Segment)
    ensures PageTrace(table, handled + [response]) == PageTrace(table, handled) + WriteEvents(table, response)
    ensures NextRequests(table, handled + [response]) == NextRequests(table, handled) + NextRequest(table, response)
    ensures Tally(retrieved, table, handled + [response])
         == AddCount(Tally(retrieved, table, handled), table, |response.entities|)
  {
    assert (handled + [response])[..|handled|] == handled;
    if handled != [] {
      AddCountTwice(retrieved, table, Total(handled), |response.entities|);
    }
  }

  /**
   * Loop control of the callback chain: `i` responses have been handled, and
   * `more` says whether the last one handled requested another.
   */
  predicate Progress(segments: seq<Segment>, i: nat, more: bool)
  {
    && i <= IssuedCount(segments)
    && (more ==> i < IssuedCount(segments) || i == |segments|)
    && (!more ==> i == IssuedCount(segments))
  }

  /** Handling a requested response requests another exactly when it carries a token. */
  lemma ProgressStep(segments: seq<Segment>, i: nat)
    requires Progress(segments, i, true) && i < |segments|
    ensures Progress(segments, i + 1, segments[i].token.Some?)
  {
  }

  /** The chain stops after exactly the requested responses. */
  lemma ProgressDone(segments: seq<Segment>, i: nat, more: bool)
    requires Progress(segments, i, more) && !(more && i < |segments|)
    ensures segments[..i] == Issued(segments)
  {
  }

  /** Once the handled responses are the requested ones, they give the requests, writes and counter of the copy. */
  lemma HandledOutcome(retrieved: map<Name, nat>, table: Name, segments: seq<Segment>, handled: seq<Segment>)
    requires handled == Issued(segments)
    ensures Requests(table, segments) == [Query(table, None)] + NextRequests(table, handled)
    ensures PageTrace(table, Issued(segments)) == PageTrace(table, handled)
    ensures Counted(retrieved, table, segments) == Tally(retrieved, table, handled)
  {
  }
}
