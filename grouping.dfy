/** `_convertToJavaScript` of src/organizations/organizations-service.js: the
    group-by fold that turns flat join rows into one record per organization.

    `GroupSpec` says declaratively what the fold computes: one record per
    distinct row id, in order of first appearance, whose scalar columns come
    from that id's first row and whose `causes` hold the cause of each of
    that id's rows, in row order, except that a leading row without a cause
    contributes nothing. `ConvertToJavaScript` is the loop itself. */
module OrgGrouping {
  import opened Tables

  /** The `id` column of each row. */
  function RowIds(rows: seq<Row>): (ids: seq<Id>)
    ensures |ids| == |rows|
    ensures forall i :: 0 <= i < |rows| ==> ids[i] == rows[i].org.id
  {
    seq(|rows|, i requires 0 <= i < |rows| => rows[i].org.id)
  }

  /** Each id once, in order of first appearance. */
  function Distinct(ids: seq<Id>): (d: seq<Id>)
    ensures forall x :: x in d <==> x in ids
    decreases |ids|
  {
    if ids == [] then []
    else
      var p := Distinct(ids[..|ids| - 1]);
      if ids[|ids| - 1] in ids[..|ids| - 1] then p else p + [ids[|ids| - 1]]
  }

  /** No id occurs twice in `Distinct(ids)`. */
  lemma {:induction false} DistinctUnique(ids: seq<Id>)
    ensures forall i, j :: 0 <= i < j < |Distinct(ids)| ==> Distinct(ids)[i] != Distinct(ids)[j]
    decreases |ids|
  {
    if ids != [] {
      DistinctUnique(ids[..|ids| - 1]);
    }
  }

  /** The rows carrying id `id`, in row order. */
  function RowsOf(rows: seq<Row>, id: Id): (r: seq<Row>)
    ensures forall x :: x in r <==> x in rows && x.org.id == id
    ensures |r| <= |rows|
  {
    if rows == [] then []
    else (if rows[0].org.id == id then [rows[0]] else []) + RowsOf(rows[1..], id)
  }

  /** The `cause_id`/`cause_name` pair of each row, as pushed onto `causes`. */
  function Causes(rs: seq<Row>): (cs: seq<Option<Cause>>)
    ensures |cs| == |rs|
    ensures forall i :: 0 <= i < |rs| ==> cs[i] == rs[i].cause
  {
    seq(|rs|, i requires 0 <= i < |rs| => rs[i].cause)
  }

  /** The position of the first row carrying `id`. */
  ghost function FirstIndex(rows: seq<Row>, id: Id): (i: nat)
    requires exists k :: 0 <= k < |rows| && rows[k].org.id == id
    ensures i < |rows| && rows[i].org.id == id
    ensures forall j :: 0 <= j < i ==> rows[j].org.id != id
  {
    if rows[0].org.id == id then 0
    else
      var k :| 0 <= k < |rows| && rows[k].org.id == id;
      assert rows[1..][k - 1].org.id == id;
      1 + FirstIndex(rows[1..], id)
  }

  /** The first row of `RowsOf` is the first row of `rows` with that id. */
  lemma {:induction false} FirstRowOf(rows: seq<Row>, id: Id)
    requires exists k :: 0 <= k < |rows| && rows[k].org.id == id
    ensures RowsOf(rows, id) != [] && RowsOf(rows, id)[0] == rows[FirstIndex(rows, id)]
  {
    if rows[0].org.id != id {
      var k :| 0 <= k < |rows| && rows[k].org.id == id;
      assert rows[1..][k - 1].org.id == id;
      FirstRowOf(rows[1..], id);
    }
  }

  lemma CausesSplit(rs: seq<Row>)
    requires rs != []
    ensures Causes(rs) == [rs[0].cause] + Causes(rs[1..])
    ensures Causes(rs)[1..] == Causes(rs[1..])
  {
    assert Causes(rs) == [rs[0].cause] + Causes(rs[1..]);
  }

  /** The `causes` list grown from the rows `rs` of one id. */
  function CausesOf(rs: seq<Row>): seq<Option<Cause>>
    requires rs != []
  {
    (if rs[0].cause.Some? then [rs[0].cause] else []) + Causes(rs[1..])
  }

  lemma CausesOfSnoc(rs: seq<Row>, r: Row)
    requires rs != []
    ensures CausesOf(rs + [r]) == CausesOf(rs) + [r.cause]
  {
    assert (rs + [r])[1..] == rs[1..] + [r];
    assert Causes(rs[1..] + [r]) == Causes(rs[1..]) + [r.cause];
  }

  /** The record built for `id`: the first row's columns without the cause
      columns, and a `causes` list started from the first row's cause (or
      empty when it has none) and extended by every later row's cause. */
  function Record(rows: seq<Row>, id: Id): (rec: FullOrg)
    requires id in RowIds(rows)
    ensures rec.org.id == id
  {
    assert rows[IndexIn(RowIds(rows), id)].org.id == id;
    FirstRowOf(rows, id);
    var rs := RowsOf(rows, id);
    FullOrg(rs[0].org, CausesOf(rs))
  }

  /** What the record of `id` holds: the columns of the first row with that
      id, and the cause of every row with that id, in row order, where a
      leading row without a cause contributes nothing. A lone row without a
      cause therefore gives `causes: []`. */
  lemma RecordContents(rows: seq<Row>, id: Id)
    requires id in RowIds(rows)
    ensures Record(rows, id).org == rows[FirstIndex(rows, id)].org
    ensures RowsOf(rows, id) != []
    ensures RowsOf(rows, id)[0].cause.Some? ==> Record(rows, id).causes == Causes(RowsOf(rows, id))
    ensures RowsOf(rows, id)[0].cause.None? ==> Record(rows, id).causes == Causes(RowsOf(rows, id))[1..]
    ensures RowsOf(rows, id) == [Row(Record(rows, id).org, None)] ==> Record(rows, id).causes == []
  {
    assert rows[IndexIn(RowIds(rows), id)].org.id == id;
    FirstRowOf(rows, id);
    CausesSplit(RowsOf(rows, id));
  }

  /** The records for the ids `ids`, in that order. */
  function RecordsFor(rows: seq<Row>, ids: seq<Id>): (recs: seq<FullOrg>)
    requires forall x :: x in ids ==> x in RowIds(rows)
    ensures |recs| == |ids|
    ensures forall k :: 0 <= k < |ids| ==> recs[k] == Record(rows, ids[k])
  {
    seq(|ids|, k requires 0 <= k < |ids| => Record(rows, ids[k]))
  }

  /** What `_convertToJavaScript(rows)` returns. */
  function GroupSpec(rows: seq<Row>): (recs: seq<FullOrg>)
    ensures |recs| == |Distinct(RowIds(rows))|
    ensures forall k :: 0 <= k < |recs| ==> recs[k].org.id == Distinct(RowIds(rows))[k]
  {
    RecordsFor(rows, Distinct(RowIds(rows)))
  }

  /** Every id of the rows has its record. */
  lemma GroupSpecHasRecord(rows: seq<Row>, x: Id)
    requires x in RowIds(rows)
    ensures exists k :: 0 <= k < |GroupSpec(rows)| && GroupSpec(rows)[k].org.id == x
  {
    var d := Distinct(RowIds(rows));
    assert GroupSpec(rows)[IndexIn(d, x)].org.id == x;
  }

  function IndexIn(d: seq<Id>, x: Id): (k: nat)
    requires x in d
    ensures k < |d| && d[k] == x
  {
    if d[0] == x then 0 else 1 + IndexIn(d[1..], x)
  }

  lemma {:induction false} RowsOfConcat(a: seq<Row>, b: seq<Row>, id: Id)
    ensures RowsOf(a + b, id) == RowsOf(a, id) + RowsOf(b, id)
  {
    if a != [] {
      assert (a + b)[1..] == a[1..] + b;
      RowsOfConcat(a[1..], b, id);
    } else {
      assert a + b == b;
    }
  }



  /** One more row leaves the record of every other id as it was. */
  lemma RecordSnocOther(rows: seq<Row>, r: Row, x: Id)
    requires x in RowIds(rows) && x != r.org.id
    ensures x in RowIds(rows + [r])
    ensures Record(rows + [r], x) == Record(rows, x)
  {
    var i := IndexIn(RowIds(rows), x);
    assert RowIds(rows + [r])[i] == x;
    assert RowsOf(rows + [r], x) == RowsOf(rows, x) by {
      RowsOfConcat(rows, [r], x);
      assert RowsOf([r], x) == [] by { assert [r][1..] == []; }
      assert RowsOf(rows, x) + [] == RowsOf(rows, x);
    }
  }

  /** One more row with a seen id pushes its cause onto that id's record. */
  lemma RecordSnocSame(rows: seq<Row>, r: Row)
    requires r.org.id in RowIds(rows)
    ensures r.org.id in RowIds(rows + [r])
    ensures Record(rows + [r], r.org.id)
         == Record(rows, r.org.id).(causes := Record(rows, r.org.id).causes + [r.cause])
  {
    var id := r.org.id;
    assert RowIds(rows + [r])[|rows|] == id;
    RowsOfConcat(rows, [r], id);
    assert RowsOf([r], id) == [r] + RowsOf([r][1..], id);
    var rs := RowsOf(rows, id);
    assert rs != [];
    assert RowsOf(rows + [r], id) == rs + [r];
    assert (rs + [r])[0] == rs[0];
    CausesOfSnoc(rs, r);
  }

  /** One more row with a new id yields a record of its own. */
  lemma RecordSnocNew(rows: seq<Row>, r: Row)
    requires r.org.id !in RowIds(rows)
    ensures r.org.id in RowIds(rows + [r])
    ensures Record(rows + [r], r.org.id) == FullOrg(r.org, if r.cause.Some? then [r.cause] else [])
  {
    var id := r.org.id;
    assert RowIds(rows + [r])[|rows|] == id;
    RowsOfConcat(rows, [r], id);
    assert RowsOf([r], id) == [r] + RowsOf([r][1..], id);
    forall x | x in rows ensures x.org.id != id {
      var i :| 0 <= i < |rows| && rows[i] == x;
      assert RowIds(rows)[i] == x.org.id;
    }
    RowsOfAbsent(rows, id);
    assert RowsOf(rows + [r], id) == [r];
  }

  lemma {:induction false} RowsOfAbsent(rows: seq<Row>, id: Id)
    requires forall x :: x in rows ==> x.org.id != id
    ensures RowsOf(rows, id) == []
  {
    if rows != [] {
      RowsOfAbsent(rows[1..], id);
    }
  }

  /** A row with a new id appends a record whose `causes` is `[cause]`, or
      `[]` when the row has no cause. */
  lemma GroupSpecSnocNew(rows: seq<Row>, r: Row)
    requires r.org.id !in RowIds(rows)
    ensures GroupSpec(rows + [r]) == GroupSpec(rows) + [FullOrg(r.org, if r.cause.Some? then [r.cause] else [])]
  {
    var ids' := RowIds(rows + [r]);
    assert ids'[..|ids'| - 1] == RowIds(rows);
    var d := Distinct(RowIds(rows));
    assert Distinct(ids') == d + [r.org.id];
    forall k | 0 <= k < |d| ensures GroupSpec(rows + [r])[k] == GroupSpec(rows)[k] {
      RecordSnocOther(rows, r, d[k]);
    }
    RecordSnocNew(rows, r);
  }

  /** A row with an id already seen pushes its cause onto the `causes` of the
      record already emitted for that id, at position `j`. */
  lemma GroupSpecSnocSeen(rows: seq<Row>, r: Row, j: nat)
    requires j < |GroupSpec(rows)| && GroupSpec(rows)[j].org.id == r.org.id
    ensures GroupSpec(rows + [r])
         == GroupSpec(rows)[j := GroupSpec(rows)[j].(causes := GroupSpec(rows)[j].causes + [r.cause])]
  {
    var d := Distinct(RowIds(rows));
    RowIdsSnoc(rows, r);
    DistinctSnoc(RowIds(rows), r.org.id);
    DistinctUnique(RowIds(rows));
    forall k | 0 <= k < |d| && k != j ensures Record(rows + [r], d[k]) == Record(rows, d[k]) {
      RecordSnocOther(rows, r, d[k]);
    }
    RecordSnocSame(rows, r);
    RecordsForUpdate(rows, rows + [r], d, j);
  }

  lemma RowIdsSnoc(rows: seq<Row>, r: Row)
    ensures RowIds(rows + [r]) == RowIds(rows) + [r.org.id]
  {
  }

  lemma DistinctSnoc(ids: seq<Id>, x: Id)
    ensures x in ids ==> Distinct(ids + [x]) == Distinct(ids)
    ensures x !in ids ==> Distinct(ids + [x]) == Distinct(ids) + [x]
  {
    assert (ids + [x])[..|ids|] == ids;
  }

  /** Records over the same ids that differ at one position only. */
  lemma RecordsForUpdate(rows: seq<Row>, rows': seq<Row>, d: seq<Id>, j: nat)
    requires forall x :: x in d ==> x in RowIds(rows) && x in RowIds(rows')
    requires j < |d|
    requires forall k :: 0 <= k < |d| && k != j ==> Record(rows', d[k]) == Record(rows, d[k])
    ensures RecordsFor(rows', d) == RecordsFor(rows, d)[j := Record(rows', d[j])]
  {
  }

  /** `orgs.find((elem) => elem.id === id)`: the position of the record for `id`. */
  method FindRecord(orgs: seq<FullOrg>, id: Id) returns (j: nat)
    requires exists k :: 0 <= k < |orgs| && orgs[k].org.id == id
    ensures j < |orgs| && orgs[j].org.id == id
    ensures forall k :: 0 <= k < j ==> orgs[k].org.id != id
  {
    j := 0;
    while orgs[j].org.id != id
      invariant j < |orgs|
      invariant forall k :: 0 <= k < j ==> orgs[k].org.id != id
      invariant exists k :: j <= k < |orgs| && orgs[k].org.id == id
      decreases |orgs| - j
    {
      j := j + 1;
    }
  }

  /** `_convertToJavaScript(rows)`: a single pass that keeps the ids already
      emitted in `seen`, appends a record for a new id and pushes the row's
      cause onto the existing record for a seen one. */
  method ConvertToJavaScript(rows: seq<Row>) returns (orgs: seq<FullOrg>)
    ensures orgs == GroupSpec(rows)
  {
    orgs := [];
    var seen: set<Id> := {};
    var i := 0;
    while i < |rows|
      invariant 0 <= i <= |rows|
      invariant orgs == GroupSpec(rows[..i])
      invariant forall x :: x in seen <==> x in RowIds(rows[..i])
    {
      var row := rows[i];
      var id := row.org.id;
      ghost var done := rows[..i];
      assert rows[..i + 1] == done + [row];
      assert RowIds(done + [row]) == RowIds(done) + [id];
      if id in seen {
        GroupSpecHasRecord(done, id);
        var j := FindRecord(orgs, id);
        GroupSpecSnocSeen(done, row, j);
        orgs := orgs[j := orgs[j].(causes := orgs[j].causes + [row.cause])];
      } else {
        GroupSpecSnocNew(done, row);
        orgs := orgs + [FullOrg(row.org, if row.cause.Some? then [row.cause] else [])];
        seen := seen + {id};
      }
      i := i + 1;
    }
    assert rows[..i] == rows;
  }
}
