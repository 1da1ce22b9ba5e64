/**
 * The table pass (CopyTableStorageFromSource and CopyTables): the side effects,
 * requests and counter updates it causes, as functions of the source tables and
 * the exclusion setting, and their properties.
 */
module TablePass {

  import opened Wrappers
  import opened Storage
  import opened Ordering
  import opened Exclusion
  import opened Paging

  function TableName(t: Table): Name
  {
    t.name
  }

  /** `ListTables().OrderBy(c => c.Name)`. */
  function SortTables(tables: seq<Table>): seq<Table>
  {
    SortBy(tables, TableName)
  }

  /** Whether a table's data is copied: it is not excluded and its query returns a response. */
  predicate DataCopied(t: Table, omitSetting: string)
  {
    !Excluded(t.name, omitSetting) && t.segments != []
  }

  /** CopyTables' effects on the target: create, copy permissions, then (unless excluded) the pages. */
  function TableTrace(t: Table, omitSetting: string): seq<Event>
  {
    [Create(TableRes(t.name)), SetPermissions(TableRes(t.name), t.permissions)]
    + (if Excluded(t.name, omitSetting) then [] else PageTrace(t.name, Issued(t.segments)))
  }

  /** The query requests CopyTables issues. */
  function TableQueries(t: Table, omitSetting: string): seq<Query>
  {
    if Excluded(t.name, omitSetting) then [] else Requests(t.name, t.segments)
  }

  /** The counter after CopyTables. */
  function TableCounts(retrieved: map<Name, nat>, t: Table, omitSetting: string): map<Name, nat>
  {
    if Excluded(t.name, omitSetting) then retrieved else Counted(retrieved, t.name, t.segments)
  }

  function TablePassTrace(tables: seq<Table>, omitSetting: string): seq<Event>
  {
    if tables == [] then []
    else TablePassTrace(tables[..|tables| - 1], omitSetting) + TableTrace(tables[|tables| - 1], omitSetting)
  }

  function TablePassQueries(tables: seq<Table>, omitSetting: string): seq<Query>
  {
    if tables == [] then []
    else TablePassQueries(tables[..|tables| - 1], omitSetting) + TableQueries(tables[|tables| - 1], omitSetting)
  }

  function TablePassCounts(retrieved: map<Name, nat>, tables: seq<Table>, omitSetting: string): map<Name, nat>
  {
    if tables == [] then retrieved
    else TableCounts(TablePassCounts(retrieved, tables[..|tables| - 1], omitSetting), tables[|tables| - 1], omitSetting)
  }

  lemma TableTraceAbout(t: Table, omitSetting: string)
    ensures About(TableTrace(t, omitSetting), TableRes(t.name))
  {
    var head := [Create(TableRes(t.name)), SetPermissions(TableRes(t.name), t.permissions)];
    var pages := if Excluded(t.name, omitSetting) then [] else PageTrace(t.name, Issued(t.segments));
    PageTraceShape(t.name, Issued(t.segments));
    AboutConcat(head, pages, TableRes(t.name));
  }

  /**
   * Every table is created and gets its permissions before the exclusion test;
   * its data is requested and written if and only if it is not excluded.
   */
  lemma ExclusionDecidesDataCopy(t: Table, omitSetting: string)
    ensures |TableTrace(t, omitSetting)| >= 2
    ensures TableTrace(t, omitSetting)[0] == Create(TableRes(t.name))
    ensures TableTrace(t, omitSetting)[1] == SetPermissions(TableRes(t.name), t.permissions)
    ensures Created(TableTrace(t, omitSetting)) == [TableRes(t.name)]
    ensures TableQueries(t, omitSetting) != [] <==> !Excluded(t.name, omitSetting)
    ensures Written(TableTrace(t, omitSetting))
         == if Excluded(t.name, omitSetting) then [] else Entities(Issued(t.segments))
  {
    var head := [Create(TableRes(t.name)), SetPermissions(TableRes(t.name), t.permissions)];
    var pages := if Excluded(t.name, omitSetting) then [] else PageTrace(t.name, Issued(t.segments));
    assert TableTrace(t, omitSetting) == head + pages;
    TableTraceCreates(t, omitSetting);
    WrittenConcat(head, pages);
    NoWrites(head);
    PageTraceForwardsEverything(t.name, Issued(t.segments));
  }

  /** CopyTables creates exactly its own table. */
  lemma TableTraceCreates(t: Table, omitSetting: string)
    ensures Created(TableTrace(t, omitSetting)) == [TableRes(t.name)]
  {
    var head := [Create(TableRes(t.name)), SetPermissions(TableRes(t.name), t.permissions)];
    var pages := if Excluded(t.name, omitSetting) then [] else PageTrace(t.name, Issued(t.segments));
    assert TableTrace(t, omitSetting) == head + pages;
    PageTraceShape(t.name, Issued(t.segments));
    NoCreates(pages);
    CreatedConcat(head, pages);
    assert Created(head) == [TableRes(t.name)] + Created(head[1..]);
    assert head[1..][1..] == [];
  }

  lemma {:induction false} TablePassAboutTables(tables: seq<Table>, omitSetting: string)
    ensures forall k :: 0 <= k < |TablePassTrace(tables, omitSetting)| ==>
              Subject(TablePassTrace(tables, omitSetting)[k]).TableRes?
  {
    if tables != [] {
      var init := tables[..|tables| - 1];
      var last := tables[|tables| - 1];
      TablePassAboutTables(init, omitSetting);
      TableTraceAbout(last, omitSetting);
      var a := TablePassTrace(init, omitSetting);
      var b := TableTrace(last, omitSetting);
      assert TablePassTrace(tables, omitSetting) == a + b;
      forall k | 0 <= k < |a| ensures Subject((a + b)[k]).TableRes? {
        assert (a + b)[k] == a[k];
      }
      forall k | |a| <= k < |a + b| ensures Subject((a + b)[k]).TableRes? {
        assert (a + b)[k] == b[k - |a|];
      }
    }
  }

  /** A resource that is no table of the list is untouched by the table pass. */
  lemma {:induction false} TablePassUntouched(tables: seq<Table>, omitSetting: string, r: Resource)
    requires forall i :: 0 <= i < |tables| ==> r != TableRes(tables[i].name)
    ensures Project(TablePassTrace(tables, omitSetting), r) == []
  {
    if tables != [] {
      var init := tables[..|tables| - 1];
      var last := tables[|tables| - 1];
      TablePassUntouched(init, omitSetting, r);
      ProjectConcat(TablePassTrace(init, omitSetting), TableTrace(last, omitSetting), r);
      TableTraceAbout(last, omitSetting);
      ProjectAbout(TableTrace(last, omitSetting), TableRes(last.name), r);
    }
  }

  /** What the pass does to one table is exactly that table's CopyTables, nothing more. */
  lemma {:induction false} TablePassProjection(tables: seq<Table>, omitSetting: string, i: nat)
    requires DistinctBy(tables, TableName)
    requires i < |tables|
    ensures Project(TablePassTrace(tables, omitSetting), TableRes(tables[i].name)) == TableTrace(tables[i], omitSetting)
  {
    var init := tables[..|tables| - 1];
    var last := tables[|tables| - 1];
    var r := TableRes(tables[i].name);
    ProjectConcat(TablePassTrace(init, omitSetting), TableTrace(last, omitSetting), r);
    TableTraceAbout(last, omitSetting);
    ProjectAbout(TableTrace(last, omitSetting), TableRes(last.name), r);
    assert DistinctBy(init, TableName) by {
      forall a, b | 0 <= a < b < |init| ensures TableName(init[a]) != TableName(init[b]) {
        assert init[a] == tables[a] && init[b] == tables[b];
      }
    }
    if i == |tables| - 1 {
      forall j | 0 <= j < |init| ensures r != TableRes(init[j].name) {
        assert init[j] == tables[j];
      }
      TablePassUntouched(init, omitSetting, r);
      assert Project(TablePassTrace(init, omitSetting), r) + TableTrace(last, omitSetting) == TableTrace(last, omitSetting);
    } else {
      assert init[i] == tables[i];
      TablePassProjection(init, omitSetting, i);
      assert TableName(tables[i]) != TableName(tables[|tables| - 1]);
      assert TableTrace(tables[i], omitSetting) + [] == TableTrace(tables[i], omitSetting);
    }
  }

  /**
   * A trace that creates all but the last table in order, followed by one that
   * creates only the last, creates the whole list in order.
   */
  lemma CreatedSnoc(prev: seq<Event>, next: seq<Event>, tables: seq<Table>)
    requires tables != []
    requires |Created(prev)| == |tables| - 1
    requires forall i :: 0 <= i < |tables| - 1 ==> Created(prev)[i] == TableRes(tables[i].name)
    requires Created(next) == [TableRes(tables[|tables| - 1].name)]
    ensures |Created(prev + next)| == |tables|
    ensures forall i :: 0 <= i < |tables| ==> Created(prev + next)[i] == TableRes(tables[i].name)
  {
    CreatedConcat(prev, next);
  }

  /** Every table of the list is created, once, in list order. */
  lemma {:induction false} TablePassCreates(tables: seq<Table>, omitSetting: string)
    ensures |Created(TablePassTrace(tables, omitSetting))| == |tables|
    ensures forall i :: 0 <= i < |tables| ==> Created(TablePassTrace(tables, omitSetting))[i] == TableRes(tables[i].name)
  {
    if tables != [] {
      var init := tables[..|tables| - 1];
      var last := tables[|tables| - 1];
      TablePassCreates(init, omitSetting);
      TableTraceCreates(last, omitSetting);
      forall i | 0 <= i < |tables| - 1 ensures Created(TablePassTrace(init, omitSetting))[i] == TableRes(tables[i].name) {
        assert init[i] == tables[i];
      }
      CreatedSnoc(TablePassTrace(init, omitSetting), TableTrace(last, omitSetting), tables);
    }
  }

  /** A resource list created in the order of a sorted permutation is in name order and names every element. */
  lemma CreatedInOrder(sorted: seq<Table>, tables: seq<Table>, created: seq<Resource>)
    requires SortedBy(sorted, TableName) && multiset(sorted) == multiset(tables)
    requires |created| == |sorted|
    requires forall i :: 0 <= i < |sorted| ==> created[i] == TableRes(sorted[i].name)
    ensures |created| == |tables|
    ensures forall i :: 0 <= i < |created| ==> created[i].TableRes?
    ensures forall i, j :: 0 <= i < j < |created| && created[i].TableRes? && created[j].TableRes? ==>
              NameLe(created[i].table, created[j].table)
    ensures forall t :: t in tables ==> TableRes(t.name) in created
  {
    assert |sorted| == |multiset(sorted)| == |multiset(tables)| == |tables|;
    forall t | t in tables ensures TableRes(t.name) in created {
      assert t in multiset(sorted);
      var i :| 0 <= i < |sorted| && sorted[i] == t;
      assert created[i] == TableRes(t.name);
    }
  }

  /** Tables are created in ascending name order, and every source table is created. */
  lemma TablesInNameOrder(tables: seq<Table>, omitSetting: string)
    ensures var created := Created(TablePassTrace(SortTables(tables), omitSetting));
            |created| == |tables|
            && (forall i :: 0 <= i < |created| ==> created[i].TableRes?)
            && (forall i, j :: 0 <= i < j < |created| && created[i].TableRes? && created[j].TableRes? ==>
                  NameLe(created[i].table, created[j].table))
            && (forall t :: t in tables ==> TableRes(t.name) in created)
  {
    var sorted := SortTables(tables);
    SortByCorrect(tables, TableName);
    TablePassCreates(sorted, omitSetting);
    CreatedInOrder(sorted, tables, Created(TablePassTrace(sorted, omitSetting)));
  }


  /** Names that are no table of the list keep their counter. */
  lemma {:induction false} TablePassCountsUntouched(retrieved: map<Name, nat>, tables: seq<Table>, omitSetting: string, name: Name)
    requires forall i :: 0 <= i < |tables| ==> tables[i].name != name
    ensures (name in TablePassCounts(retrieved, tables, omitSetting)) == (name in retrieved)
    ensures Count(TablePassCounts(retrieved, tables, omitSetting), name) == Count(retrieved, name)
  {
    if tables != [] {
      TablePassCountsUntouched(retrieved, tables[..|tables| - 1], omitSetting, name);
    }
  }

  /**
   * With distinct table names the pass leaves each table's counter at its old
   * value plus the sum of its requested page sizes when its data is copied,
   * and unchanged when it is excluded.
   */
  lemma {:induction false} TablePassCounters(retrieved: map<Name, nat>, tables: seq<Table>, omitSetting: string, i: nat)
    requires DistinctBy(tables, TableName)
    requires i < |tables|
    ensures (tables[i].name in TablePassCounts(retrieved, tables, omitSetting))
         == (tables[i].name in retrieved || DataCopied(tables[i], omitSetting))
    ensures Count(TablePassCounts(retrieved, tables, omitSetting), tables[i].name)
         == Count(retrieved, tables[i].name)
            + (if DataCopied(tables[i], omitSetting) then Total(Issued(tables[i].segments)) else 0)
  {
    var init := tables[..|tables| - 1];
    var last := tables[|tables| - 1];
    var name := tables[i].name;
    assert DistinctBy(init, TableName) by {
      forall a, b | 0 <= a < b < |init| ensures TableName(init[a]) != TableName(init[b]) {
        assert init[a] == tables[a] && init[b] == tables[b];
      }
    }
    if i == |tables| - 1 {
      forall j | 0 <= j < |init| ensures init[j].name != name {
        assert init[j] == tables[j];
        assert TableName(tables[j]) != TableName(tables[i]);
      }
      TablePassCountsUntouched(retrieved, init, omitSetting, name);
    } else {
      assert init[i] == tables[i];
      TablePassCounters(retrieved, init, omitSetting, i);
      assert TableName(tables[i]) != TableName(last);
    }
  }

  /** Copying one more table extends the pass by that table's effects. */
  lemma PassStep(retrieved: map<Name, nat>, done: seq<Table>, t: Table, omitSetting: string)
    ensures TablePassTrace(done + [t], omitSetting) == TablePassTrace(done, omitSetting) + TableTrace(t, omitSetting)
    ensures TablePassQueries(done + [t], omitSetting) == TablePassQueries(done, omitSetting) + TableQueries(t, omitSetting)
    ensures TablePassCounts(retrieved, done + [t], omitSetting) == TableCounts(TablePassCounts(retrieved, done, omitSetting), t, omitSetting)
  {
    assert (done + [t])[..|done|] == done;
  }

  /** The state after copying `done` and then `t`, from the state after `done` and CopyTables' effect. */
  lemma PassAdvance(t0: seq<Event>, q0: seq<Query>, r0: map<Name, nat>, done: seq<Table>, t: Table, omitSetting: string,
                    tMid: seq<Event>, qMid: seq<Query>, rMid: map<Name, nat>,
                    tNew: seq<Event>, qNew: seq<Query>, rNew: map<Name, nat>)
    requires tMid == t0 + TablePassTrace(done, omitSetting)
    requires qMid == q0 + TablePassQueries(done, omitSetting)
    requires rMid == TablePassCounts(r0, done, omitSetting)
    requires tNew == tMid + TableTrace(t, omitSetting)
    requires qNew == qMid + TableQueries(t, omitSetting)
    requires rNew == TableCounts(rMid, t, omitSetting)
    ensures tNew == t0 + TablePassTrace(done + [t], omitSetting)
    ensures qNew == q0 + TablePassQueries(done + [t], omitSetting)
    ensures rNew == TablePassCounts(r0, done + [t], omitSetting)
  {
    PassStep(r0, done, t, omitSetting);
    AppendAssoc(t0, TablePassTrace(done, omitSetting), TableTrace(t, omitSetting));
    AppendAssoc(q0, TablePassQueries(done, omitSetting), TableQueries(t, omitSetting));
  }
}
