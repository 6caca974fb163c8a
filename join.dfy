/** `_joinTables` of src/organizations/organizations-service.js, the left join
    organizations -> org_causes -> causes, and the fixture
    `makeFullOrganizationsArray` of test/organizations-fixtures.js, which
    the tests use as the expected aggregation. The theorem
    `ConvertJoinIsFixture` connects the two through `_convertToJavaScript`.

    SQL leaves the order of the joined rows of one organization open; the
    model emits them in `org_causes` table order, the order the tests
    compare against. */
module OrgJoin {
  import opened Tables
  import opened OrgCausesService
  import opened OrgGrouping

  /** The causes rows with id `id`: the right side of `c.id = oc.cause_id`. */
  function CausesWithId(causes: seq<Cause>, id: Id): (r: seq<Cause>)
    ensures forall c :: c in r <==> c in causes && c.id == id
  {
    if causes == [] then []
    else (if causes[0].id == id then [causes[0]] else []) + CausesWithId(causes[1..], id)
  }

  /** The joined rows of organization `o` for its association rows `links`:
      one row per matching cause, or one row with NULL cause columns when
      the cause does not exist. */
  function LinkRows(o: Org, links: seq<OrgCause>, causes: seq<Cause>): (rows: seq<Row>)
    ensures links != [] ==> rows != []
    ensures forall r :: r in rows ==> r.org == o
    ensures forall r :: r in rows && r.cause.Some? ==>
              r.cause.value in causes && exists l :: l in links && l.causeId == r.cause.value.id
  {
    if links == [] then []
    else
      var m := CausesWithId(causes, links[0].causeId);
      var head := if m == [] then [Row(o, None)]
                  else seq(|m|, k requires 0 <= k < |m| => Row(o, Some(m[k])));
      assert forall r :: r in head && r.cause.Some? ==> r.cause.value in m;
      head + LinkRows(o, links[1..], causes)
  }

  /** The joined rows of one organization: its cause rows, or a single row
      with NULL cause columns when it has no association row. */
  function OrgRows(o: Org, t: DbTables): (rows: seq<Row>)
    ensures rows != []
    ensures forall r :: r in rows ==> r.org == o
    ensures forall r :: r in rows && r.cause.Some? ==>
              r.cause.value in t.causes && OrgCause(o.id, r.cause.value.id) in t.orgCauses
  {
    var links := GetByOrgId(t.orgCauses, o.id);
    if links == [] then [Row(o, None)] else LinkRows(o, links, t.causes)
  }

  /** The join for the organizations `orgs`, in that order. */
  function JoinOrgs(orgs: seq<Org>, t: DbTables): (rows: seq<Row>)
    ensures forall r :: r in rows ==> r.org in orgs
    ensures forall r :: r in rows && r.cause.Some? ==>
              r.cause.value in t.causes && OrgCause(r.org.id, r.cause.value.id) in t.orgCauses
  {
    if orgs == [] then [] else OrgRows(orgs[0], t) + JoinOrgs(orgs[1..], t)
  }

  /** Every organization has at least one joined row. */
  lemma {:induction false} JoinOrgsCovers(orgs: seq<Org>, t: DbTables, o: Org)
    requires o in orgs
    ensures exists r :: r in JoinOrgs(orgs, t) && r.org == o
  {
    var head := OrgRows(orgs[0], t);
    if orgs[0] == o {
      assert head[0] in JoinOrgs(orgs, t);
    } else {
      JoinOrgsCovers(orgs[1..], t, o);
    }
  }

  /** `_joinTables(db)`: every organization appears, each row's cause is a
      cause the organization is associated with. */
  function JoinTables(t: DbTables): (rows: seq<Row>)
    ensures forall r :: r in rows ==> r.org in t.orgs
    ensures forall r :: r in rows && r.cause.Some? ==>
              r.cause.value in t.causes && OrgCause(r.org.id, r.cause.value.id) in t.orgCauses
  {
    JoinOrgs(t.orgs, t)
  }

  /** The fixture's `causes` list of one organization: for each of its
      association rows, in table order, the first cause with that id. */
  function LinkedCauses(links: seq<OrgCause>, causes: seq<Cause>): (cs: seq<Option<Cause>>)
    ensures |cs| == |links|
    ensures forall i :: 0 <= i < |links| ==> cs[i] == FindCause(causes, links[i].causeId)
  {
    seq(|links|, i requires 0 <= i < |links| => FindCause(causes, links[i].causeId))
  }

  /** `makeFullOrganizationsArray(orgs, causes, orgCauses)`: each
      organization, in order, with the causes its association rows name. */
  function MakeFullOrganizations(orgs: seq<Org>, causes: seq<Cause>, orgCauses: seq<OrgCause>): (full: seq<FullOrg>)
    ensures |full| == |orgs|
    ensures forall i :: 0 <= i < |orgs| ==>
              full[i] == FullOrg(orgs[i], LinkedCauses(GetByOrgId(orgCauses, orgs[i].id), causes))
  {
    seq(|orgs|, i requires 0 <= i < |orgs| =>
      FullOrg(orgs[i], LinkedCauses(GetByOrgId(orgCauses, orgs[i].id), causes)))
  }

  /** Every association row resolves to a cause. */
  ghost predicate CausesResolve(t: DbTables) {
    forall l :: l in t.orgCauses ==> HasCause(t.causes, l.causeId)
  }

  lemma {:induction false} CausesWithIdUnique(causes: seq<Cause>, id: Id)
    requires UniqueCauseIds(causes) && HasCause(causes, id)
    ensures CausesWithId(causes, id) == [FindCause(causes, id).value]
  {
    if causes[0].id == id {
      assert !HasCause(causes[1..], id) by {
        forall c | c in causes[1..] ensures c.id != id {
          var k :| 0 <= k < |causes[1..]| && causes[1..][k] == c;
          assert causes[k + 1] == c;
        }
      }
      CausesWithIdAbsent(causes[1..], id);
    } else {
      assert UniqueCauseIds(causes[1..]) by {
        forall i, j | 0 <= i < j < |causes[1..]| ensures causes[1..][i].id != causes[1..][j].id {
          assert causes[1..][i] == causes[i + 1] && causes[1..][j] == causes[j + 1];
        }
      }
      var c :| c in causes && c.id == id;
      assert c in causes[1..];
      CausesWithIdUnique(causes[1..], id);
    }
  }

  lemma {:induction false} CausesWithIdAbsent(causes: seq<Cause>, id: Id)
    requires !HasCause(causes, id)
    ensures CausesWithId(causes, id) == []
  {
    if causes != [] {
      assert causes[0] in causes;
      CausesWithIdAbsent(causes[1..], id);
    }
  }

  /** Over unique cause ids that all resolve, the left join yields exactly
      one row per association row, carrying the cause the fixture finds. */
  lemma {:induction false} LinkRowsResolved(o: Org, links: seq<OrgCause>, causes: seq<Cause>)
    requires UniqueCauseIds(causes)
    requires forall l :: l in links ==> HasCause(causes, l.causeId)
    ensures |LinkRows(o, links, causes)| == |links|
    ensures forall i :: 0 <= i < |links| ==>
              LinkRows(o, links, causes)[i] == Row(o, FindCause(causes, links[i].causeId))
  {
    if links != [] {
      CausesWithIdUnique(causes, links[0].causeId);
      var m := CausesWithId(causes, links[0].causeId);
      var head := seq(|m|, k requires 0 <= k < |m| => Row(o, Some(m[k])));
      assert head == [Row(o, FindCause(causes, links[0].causeId))];
      LinkRowsResolved(o, links[1..], causes);
      var rows := LinkRows(o, links, causes);
      assert rows == head + LinkRows(o, links[1..], causes);
      forall i | 0 <= i < |links| ensures rows[i] == Row(o, FindCause(causes, links[i].causeId)) {
        if i > 0 { assert links[1..][i - 1] == links[i]; }
      }
    }
  }

  lemma {:induction false} RowsOfAll(rows: seq<Row>, id: Id)
    requires forall r :: r in rows ==> r.org.id == id
    ensures RowsOf(rows, id) == rows
  {
    if rows != [] {
      RowsOfAll(rows[1..], id);
    }
  }

  /** A nonempty id sequence holding one id only has that id as its only
      distinct element. */
  lemma {:induction false} DistinctConstant(ids: seq<Id>, x: Id)
    requires ids != [] && forall i :: 0 <= i < |ids| ==> ids[i] == x
    ensures Distinct(ids) == [x]
  {
    if |ids| > 1 {
      DistinctConstant(ids[..|ids| - 1], x);
    }
  }

  /** Distinct ids of two id-disjoint sequences are those of each, one after
      the other. */
  lemma {:induction false} DistinctConcat(a: seq<Id>, b: seq<Id>)
    requires forall x :: x in a ==> x !in b
    ensures Distinct(a + b) == Distinct(a) + Distinct(b)
    decreases |b|
  {
    if b == [] {
      assert a + b == a;
    } else {
      var b' := b[..|b| - 1];
      var y := b[|b| - 1];
      assert (a + b)[..|a + b| - 1] == a + b';
      assert (a + b)[|a + b| - 1] == y;
      assert y in a + b' <==> y in b';
      DistinctConcat(a, b');
    }
  }

  /** Rows none of which carries `x` contribute nothing to `x`'s record. */
  lemma RowsOfNotIn(rows: seq<Row>, x: Id)
    requires x !in RowIds(rows)
    ensures RowsOf(rows, x) == []
  {
    forall r | r in rows ensures r.org.id != x {
      var i :| 0 <= i < |rows| && rows[i] == r;
      assert RowIds(rows)[i] == r.org.id;
    }
    RowsOfAbsent(rows, x);
  }

  lemma RecordConcatLeft(a: seq<Row>, b: seq<Row>, x: Id)
    requires x in RowIds(a) && x !in RowIds(b)
    ensures RowIds(a + b) == RowIds(a) + RowIds(b)
    ensures Record(a + b, x) == Record(a, x)
  {
    assert RowIds(a + b) == RowIds(a) + RowIds(b);
    RowsOfConcat(a, b, x);
    RowsOfNotIn(b, x);
    assert RowsOf(a + b, x) == RowsOf(a, x);
  }

  lemma RecordConcatRight(a: seq<Row>, b: seq<Row>, x: Id)
    requires x !in RowIds(a) && x in RowIds(b)
    ensures RowIds(a + b) == RowIds(a) + RowIds(b)
    ensures Record(a + b, x) == Record(b, x)
  {
    assert RowIds(a + b) == RowIds(a) + RowIds(b);
    RowsOfConcat(a, b, x);
    RowsOfNotIn(a, x);
    assert RowsOf(a + b, x) == RowsOf(b, x);
  }

  /** Grouping two row sequences with no id in common groups each one. */
  lemma GroupSpecConcat(a: seq<Row>, b: seq<Row>)
    requires forall x :: x in RowIds(a) ==> x !in RowIds(b)
    ensures GroupSpec(a + b) == GroupSpec(a) + GroupSpec(b)
  {
    assert RowIds(a + b) == RowIds(a) + RowIds(b);
    DistinctConcat(RowIds(a), RowIds(b));
    var da := Distinct(RowIds(a));
    var db := Distinct(RowIds(b));
    RecordsForConcat(a + b, da, db);
    RecordsForLeft(a, b, da);
    RecordsForRight(a, b, db);
  }

  /** Records for two id lists, one after the other. */
  lemma RecordsForConcat(rows: seq<Row>, x: seq<Id>, y: seq<Id>)
    requires forall i :: i in x + y ==> i in RowIds(rows)
    ensures RecordsFor(rows, x + y) == RecordsFor(rows, x) + RecordsFor(rows, y)
  {
    var r, rx, ry := RecordsFor(rows, x + y), RecordsFor(rows, x), RecordsFor(rows, y);
    forall k | 0 <= k < |r| ensures r[k] == (rx + ry)[k] {
      if k < |x| {
        assert (x + y)[k] == x[k];
      } else {
        assert (x + y)[k] == y[k - |x|];
      }
    }
  }

  /** Appending rows of other ids leaves the records of `a`'s ids alone. */
  lemma RecordsForLeft(a: seq<Row>, b: seq<Row>, ids: seq<Id>)
    requires forall x :: x in ids ==> x in RowIds(a) && x !in RowIds(b)
    ensures forall x :: x in ids ==> x in RowIds(a + b)
    ensures RecordsFor(a + b, ids) == RecordsFor(a, ids)
  {
    assert RowIds(a + b) == RowIds(a) + RowIds(b);
    forall k | 0 <= k < |ids| ensures RecordsFor(a + b, ids)[k] == RecordsFor(a, ids)[k] {
      assert ids[k] in ids;
      RecordConcatLeft(a, b, ids[k]);
    }
  }

  /** Prepending rows of other ids leaves the records of `b`'s ids alone. */
  lemma RecordsForRight(a: seq<Row>, b: seq<Row>, ids: seq<Id>)
    requires forall x :: x in ids ==> x !in RowIds(a) && x in RowIds(b)
    ensures forall x :: x in ids ==> x in RowIds(a + b)
    ensures RecordsFor(a + b, ids) == RecordsFor(b, ids)
  {
    assert RowIds(a + b) == RowIds(a) + RowIds(b);
    forall k | 0 <= k < |ids| ensures RecordsFor(a + b, ids)[k] == RecordsFor(b, ids)[k] {
      assert ids[k] in ids;
      RecordConcatRight(a, b, ids[k]);
    }
  }

  /** Rows that all belong to one organization group into a single record. */
  lemma GroupSingleOrg(rows: seq<Row>, o: Org)
    requires rows != [] && forall r :: r in rows ==> r.org == o
    ensures GroupSpec(rows) == [FullOrg(o, CausesOf(rows))]
  {
    forall i | 0 <= i < |rows| ensures RowIds(rows)[i] == o.id {
      assert rows[i] in rows;
    }
    DistinctConstant(RowIds(rows), o.id);
    RowsOfAll(rows, o.id);
    assert rows[0] in rows;
    assert RowIds(rows)[0] == o.id;
    assert Record(rows, o.id) == FullOrg(o, CausesOf(rows));
  }

  /** The causes grown from one organization's joined rows are the fixture's
      `causes` list for it. */
  lemma OrgRowsCauses(o: Org, t: DbTables)
    requires UniqueCauseIds(t.causes) && CausesResolve(t)
    ensures CausesOf(OrgRows(o, t)) == LinkedCauses(GetByOrgId(t.orgCauses, o.id), t.causes)
  {
    var rows := OrgRows(o, t);
    var links := GetByOrgId(t.orgCauses, o.id);
    if links != [] {
      LinkRowsResolved(o, links, t.causes);
      assert links[0] in t.orgCauses;
      assert rows[0].cause.Some?;
      CausesSplit(rows);
      assert Causes(rows) == LinkedCauses(links, t.causes);
    }
  }

  /** The rows of one organization group into that organization's fixture
      record. */
  lemma GroupOrgRows(o: Org, t: DbTables)
    requires UniqueCauseIds(t.causes) && CausesResolve(t)
    ensures GroupSpec(OrgRows(o, t)) == [FullOrg(o, LinkedCauses(GetByOrgId(t.orgCauses, o.id), t.causes))]
  {
    GroupSingleOrg(OrgRows(o, t), o);
    OrgRowsCauses(o, t);
  }

  /** The joined rows of organizations whose ids all exceed `id` carry no row
      of `id`. */
  lemma JoinOrgsIdsAbove(orgs: seq<Org>, t: DbTables, id: Id)
    requires forall o :: o in orgs ==> o.id > id
    ensures id !in RowIds(JoinOrgs(orgs, t))
  {
    var rows := JoinOrgs(orgs, t);
    forall i | 0 <= i < |rows| ensures RowIds(rows)[i] != id {
      assert rows[i] in rows;
    }
  }

  lemma MakeFullOrganizationsCons(orgs: seq<Org>, causes: seq<Cause>, orgCauses: seq<OrgCause>)
    requires orgs != []
    ensures MakeFullOrganizations(orgs, causes, orgCauses)
         == [FullOrg(orgs[0], LinkedCauses(GetByOrgId(orgCauses, orgs[0].id), causes))]
            + MakeFullOrganizations(orgs[1..], causes, orgCauses)
  {
  }

  /** Over consistent tables, converting the join gives the fixture: every
      organization once, in table order, with the causes its association
      rows name, in table order. Ascending ids are assumed because the
      listing reaches the fold only after `orderBy('o.id')`; what the proof
      uses is that each organization's rows share no id with the rest. */
  lemma {:induction false} ConvertJoinOrgs(orgs: seq<Org>, t: DbTables)
    requires IdsAscending(orgs)
    requires UniqueCauseIds(t.causes) && CausesResolve(t)
    ensures GroupSpec(JoinOrgs(orgs, t)) == MakeFullOrganizations(orgs, t.causes, t.orgCauses)
  {
    if orgs == [] {
      assert GroupSpec([]) == [];
    } else {
      var head := OrgRows(orgs[0], t);
      var rest := JoinOrgs(orgs[1..], t);
      forall o | o in orgs[1..] ensures o.id > orgs[0].id {
        var k :| 0 <= k < |orgs[1..]| && orgs[1..][k] == o;
        assert orgs[k + 1] == o;
      }
      JoinOrgsIdsAbove(orgs[1..], t, orgs[0].id);
      forall x | x in RowIds(head) ensures x !in RowIds(rest) {
        var i := IndexIn(RowIds(head), x);
        assert head[i] in head;
      }
      GroupSpecConcat(head, rest);
      GroupOrgRows(orgs[0], t);
      assert IdsAscending(orgs[1..]);
      ConvertJoinOrgs(orgs[1..], t);
      MakeFullOrganizationsCons(orgs, t.causes, t.orgCauses);
    }
  }

  /** `_convertToJavaScript(_joinTables(db))` equals
      `makeFullOrganizationsArray(orgs, causes, orgCauses)`. */
  lemma ConvertJoinIsFixture(t: DbTables)
    requires Consistent(t)
    ensures GroupSpec(JoinTables(t)) == MakeFullOrganizations(t.orgs, t.causes, t.orgCauses)
  {
    ConvertJoinOrgs(t.orgs, t);
  }
}
