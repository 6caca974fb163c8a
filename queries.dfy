/** The read queries of src/organizations/organizations-service.js:
    `getAllFullOrganizations` (the search-term filter, the cause-name
    filter and `orderBy('o.id')` over the join, then the group-by fold),
    `getById` and `getFullById`.

    `ILIKE '%term%'` is modelled as an ASCII case-insensitive substring
    test; the term is taken literally, without the `%`/`_` wildcards
    or the `\` escape character. */
module OrgQueries {
  import opened Tables
  import opened OrgCausesService
  import opened OrgGrouping
  import opened OrgJoin

  // ---------------------------------------------------------------- ILIKE

  function LowerChar(c: char): (d: char)
    ensures 'A' <= c <= 'Z' ==> d as int == c as int + 32
    ensures !('A' <= c <= 'Z') ==> d == c
  {
    if 'A' <= c <= 'Z' then (c as int + 32) as char else c
  }

  /** ASCII lower-casing, character by character. */
  function Lower(s: string): (r: string)
    ensures |r| == |s|
    ensures forall i :: 0 <= i < |s| ==> r[i] == LowerChar(s[i])
  {
    seq(|s|, i requires 0 <= i < |s| => LowerChar(s[i]))
  }

  /** Lower-casing twice is lower-casing once. */
  lemma LowerIdempotent(s: string)
    ensures Lower(Lower(s)) == Lower(s)
  {
    forall i | 0 <= i < |s| ensures Lower(Lower(s))[i] == Lower(s)[i] {
      assert !('A' <= Lower(s)[i] <= 'Z');
    }
  }

  /** `p` occurs in `s` starting at position `i`. */
  predicate OccursAt(p: string, s: string, i: int) {
    0 <= i && i + |p| <= |s| && s[i..i + |p|] == p
  }

  lemma OccursAtTail(p: string, s: string)
    requires s != []
    ensures forall i :: 0 <= i ==> (OccursAt(p, s[1..], i) <==> OccursAt(p, s, i + 1))
  {
    forall i | 0 <= i ensures OccursAt(p, s[1..], i) <==> OccursAt(p, s, i + 1) {
      if 0 <= i && i + |p| <= |s| - 1 {
        assert s[1..][i..i + |p|] == s[i + 1..i + 1 + |p|];
      }
    }
  }

  /** Whether `p` occurs in `s` as a contiguous piece. */
  function IsSubstring(p: string, s: string): (r: bool)
    ensures r <==> exists i :: OccursAt(p, s, i)
    decreases |s|
  {
    if p <= s then
      assert OccursAt(p, s, 0);
      true
    else if s == [] then false
    else
      OccursAtTail(p, s);
      assert !OccursAt(p, s, 0);
      assert forall i :: OccursAt(p, s, i) ==> i == 0 || OccursAt(p, s[1..], i - 1);
      IsSubstring(p, s[1..])
  }

  /** `value ILIKE '%term%'`, reading every character of the term
      literally: the wildcards `%` and `_` and the escape character `\`
      are not interpreted. The empty term matches everything, and no term
      longer than the value matches it. */
  predicate ILike(term: string, value: string)
    ensures term == "" ==> ILike(term, value)
    ensures ILike(term, value) ==> |term| <= |value|
  {
    assert term == "" ==> OccursAt(Lower(term), Lower(value), 0);
    IsSubstring(Lower(term), Lower(value))
  }

  /** The pattern `'%%'` of the default term `''` matches every value. */
  lemma ILikeEmpty(value: string)
    ensures ILike("", value)
  {
    assert OccursAt(Lower(""), Lower(value), 0);
  }

  /** Matching ignores the case of both the term and the value. */
  lemma ILikeCaseInsensitive(term: string, value: string)
    ensures ILike(Lower(term), value) == ILike(term, value)
    ensures ILike(term, Lower(value)) == ILike(term, value)
  {
    LowerIdempotent(term);
    LowerIdempotent(value);
  }

  // ------------------------------------------------------------- filters

  /** The search-term condition: `org_name`, `org_address` or `org_desc`
      ILIKE `%term%`; a NULL `org_address` matches nothing. */
  predicate MatchesTerm(o: Org, term: string)
    ensures term == "" ==> MatchesTerm(o, term)
    ensures MatchesTerm(o, term) ==>
              |term| <= |o.orgName| || |term| <= |o.orgDesc| ||
              (o.orgAddress.Some? && |term| <= |o.orgAddress.value|)
  {
    || ILike(term, o.orgName)
    || (o.orgAddress.Some? && ILike(term, o.orgAddress.value))
    || ILike(term, o.orgDesc)
  }

  /** The `whereExists` sub-query: the organization has an association row
      to a cause whose name is in `names`. */
  predicate HasAcceptableCause(t: DbTables, orgId: Id, names: seq<string>)
    ensures names == [] ==> !HasAcceptableCause(t, orgId, names)
    ensures HasAcceptableCause(t, orgId, names) ==> HasOrg(t.orgs, orgId) && GetByOrgId(t.orgCauses, orgId) != []
  {
    && HasOrg(t.orgs, orgId)
    && exists l :: l in t.orgCauses && l.orgId == orgId &&
         exists c :: c in t.causes && c.id == l.causeId && c.causeName in names
  }

  /** Whether the organization's rows survive the `where` of
      `getAllFullOrganizations(db, term, causes)`. `causes` is a JavaScript
      value tested for truthiness: `None` is undefined, and `Some(names)`
      is an array, which is truthy even when empty. */
  predicate KeepOrg(t: DbTables, term: string, names: Option<seq<string>>, o: Org)
    ensures term == "" && names.None? ==> KeepOrg(t, term, names, o)
    ensures names == Some([]) ==> !KeepOrg(t, term, names, o)
  {
    MatchesTerm(o, term) && (names.Some? ==> HasAcceptableCause(t, o.id, names.value))
  }

  function Keeper(t: DbTables, term: string, names: Option<seq<string>>): Org -> bool {
    (o: Org) => KeepOrg(t, term, names, o)
  }

  function IdIs(id: Id): Org -> bool {
    (o: Org) => o.id == id
  }

  /** A `where` on organization columns: the rows whose organization passes. */
  function WhereOrg(rows: seq<Row>, keep: Org -> bool): (r: seq<Row>)
    ensures forall x :: x in r <==> x in rows && keep(x.org)
  {
    if rows == [] then []
    else (if keep(rows[0].org) then [rows[0]] else []) + WhereOrg(rows[1..], keep)
  }

  /** The organizations that pass, in table order. */
  function FilterOrgs(orgs: seq<Org>, keep: Org -> bool): (r: seq<Org>)
    ensures forall o :: o in r <==> o in orgs && keep(o)
  {
    if orgs == [] then []
    else (if keep(orgs[0]) then [orgs[0]] else []) + FilterOrgs(orgs[1..], keep)
  }

  lemma {:induction false} FilterOrgsAscending(orgs: seq<Org>, keep: Org -> bool)
    requires IdsAscending(orgs)
    ensures IdsAscending(FilterOrgs(orgs, keep))
  {
    if orgs != [] {
      FilterOrgsAscending(orgs[1..], keep);
      var rest := FilterOrgs(orgs[1..], keep);
      forall o | o in rest ensures orgs[0].id < o.id {
        var k :| 0 <= k < |orgs[1..]| && orgs[1..][k] == o;
        assert orgs[k + 1] == o;
      }
      if keep(orgs[0]) {
        AscendingCons(orgs[0], rest);
      }
    }
  }

  /** An organization below every id of an ascending sequence can lead it. */
  lemma AscendingCons(o: Org, rest: seq<Org>)
    requires IdsAscending(rest) && forall x :: x in rest ==> o.id < x.id
    ensures IdsAscending([o] + rest)
  {
    var r := [o] + rest;
    forall i, j | 0 <= i < j < |r| ensures r[i].id < r[j].id {
      assert r[j] == rest[j - 1];
      if i > 0 { assert r[i] == rest[i - 1]; } else { assert rest[j - 1] in rest; }
    }
  }

  /** A filter every organization passes keeps the table. */
  lemma {:induction false} FilterOrgsAll(orgs: seq<Org>, keep: Org -> bool)
    requires forall o :: o in orgs ==> keep(o)
    ensures FilterOrgs(orgs, keep) == orgs
  {
    if orgs != [] {
      FilterOrgsAll(orgs[1..], keep);
    }
  }

  lemma {:induction false} WhereOrgConcat(a: seq<Row>, b: seq<Row>, keep: Org -> bool)
    ensures WhereOrg(a + b, keep) == WhereOrg(a, keep) + WhereOrg(b, keep)
  {
    if a != [] {
      assert (a + b)[0] == a[0];
      assert (a + b)[1..] == a[1..] + b;
      WhereOrgConcat(a[1..], b, keep);
      if keep(a[0].org) {
        assert [a[0]] + (WhereOrg(a[1..], keep) + WhereOrg(b, keep))
            == ([a[0]] + WhereOrg(a[1..], keep)) + WhereOrg(b, keep);
      }
    } else {
      assert a + b == b;
    }
  }


  /** Rows of a single organization are kept or dropped together. */
  lemma {:induction false} WhereOrgOne(rows: seq<Row>, o: Org, keep: Org -> bool)
    requires forall r :: r in rows ==> r.org == o
    ensures WhereOrg(rows, keep) == if keep(o) then rows else []
  {
    if rows != [] {
      assert rows[0] in rows;
      WhereOrgOne(rows[1..], o, keep);
    }
  }

  /** Filtering the joined rows by organization is joining the filtered
      organizations. */
  lemma {:induction false} WhereJoin(orgs: seq<Org>, t: DbTables, keep: Org -> bool)
    ensures WhereOrg(JoinOrgs(orgs, t), keep) == JoinOrgs(FilterOrgs(orgs, keep), t)
  {
    if orgs != [] {
      var head := OrgRows(orgs[0], t);
      var rest := JoinOrgs(orgs[1..], t);
      assert JoinOrgs(orgs, t) == head + rest;
      WhereOrgConcat(head, rest, keep);
      WhereOrgOne(head, orgs[0], keep);
      WhereJoin(orgs[1..], t, keep);
      FilterOrgsCons(orgs, keep);
      if keep(orgs[0]) {
        JoinOrgsCons(FilterOrgs(orgs, keep), t);
      }
    }
  }

  lemma FilterOrgsCons(orgs: seq<Org>, keep: Org -> bool)
    requires orgs != []
    ensures keep(orgs[0]) ==> FilterOrgs(orgs, keep) != [] && FilterOrgs(orgs, keep)[0] == orgs[0]
                              && FilterOrgs(orgs, keep)[1..] == FilterOrgs(orgs[1..], keep)
    ensures !keep(orgs[0]) ==> FilterOrgs(orgs, keep) == FilterOrgs(orgs[1..], keep)
  {
  }

  lemma JoinOrgsCons(orgs: seq<Org>, t: DbTables)
    requires orgs != []
    ensures JoinOrgs(orgs, t) == OrgRows(orgs[0], t) + JoinOrgs(orgs[1..], t)
  {
  }

  // ------------------------------------------------------------- orderBy

  ghost predicate SortedById(rows: seq<Row>) {
    forall i, j :: 0 <= i < j < |rows| ==> rows[i].org.id <= rows[j].org.id
  }

  /** Inserts `r` before the first row whose id is not smaller. */
  function InsertById(r: Row, rows: seq<Row>): (res: seq<Row>)
    ensures multiset(res) == multiset(rows) + multiset{r}
  {
    if rows == [] || r.org.id <= rows[0].org.id then
      [r] + rows
    else
      assert rows == [rows[0]] + rows[1..];
      [rows[0]] + InsertById(r, rows[1..])
  }

  lemma SortedTail(rows: seq<Row>)
    requires rows != [] && SortedById(rows)
    ensures SortedById(rows[1..])
    ensures forall x :: x in rows[1..] ==> rows[0].org.id <= x.org.id
  {
    forall i, j | 0 <= i < j < |rows[1..]| ensures rows[1..][i].org.id <= rows[1..][j].org.id {
      assert rows[1..][i] == rows[i + 1] && rows[1..][j] == rows[j + 1];
    }
    forall x | x in rows[1..] ensures rows[0].org.id <= x.org.id {
      var k :| 0 <= k < |rows[1..]| && rows[1..][k] == x;
      assert rows[k + 1] == x;
    }
  }

  lemma SortedCons(x: Row, rows: seq<Row>)
    requires SortedById(rows)
    requires forall y :: y in rows ==> x.org.id <= y.org.id
    ensures SortedById([x] + rows)
  {
    var res := [x] + rows;
    forall i, j | 0 <= i < j < |res| ensures res[i].org.id <= res[j].org.id {
      assert res[j] == rows[j - 1];
      if i == 0 { assert rows[j - 1] in rows; } else { assert res[i] == rows[i - 1]; }
    }
  }

  /** Inserting into ascending rows keeps them ascending. */
  lemma {:induction false} InsertByIdSorted(r: Row, rows: seq<Row>)
    requires SortedById(rows)
    ensures SortedById(InsertById(r, rows))
  {
    if rows == [] || r.org.id <= rows[0].org.id {
      if rows != [] {
        SortedTail(rows);
      }
      SortedCons(r, rows);
    } else {
      SortedTail(rows);
      InsertByIdSorted(r, rows[1..]);
      var rest := InsertById(r, rows[1..]);
      forall x | x in rest ensures rows[0].org.id <= x.org.id {
        assert x in multiset(rest);
      }
      SortedCons(rows[0], rest);
    }
  }

  /** `orderBy('o.id')`: the rows in ascending id order. Rows with equal ids
      keep their relative order, the order the join produced. */
  function OrderById(rows: seq<Row>): (res: seq<Row>)
    ensures multiset(res) == multiset(rows)
    ensures SortedById(res)
  {
    if rows == [] then []
    else
      assert rows == [rows[0]] + rows[1..];
      InsertByIdSorted(rows[0], OrderById(rows[1..]));
      InsertById(rows[0], OrderById(rows[1..]))
  }

  /** Rows already in order are left as they are. */
  lemma {:induction false} OrderByIdSorted(rows: seq<Row>)
    requires SortedById(rows)
    ensures OrderById(rows) == rows
  {
    if rows != [] {
      SortedTail(rows);
      OrderByIdSorted(rows[1..]);
      assert rows == [rows[0]] + rows[1..];
    }
  }

  /** The join of organizations in ascending id order is in ascending id order. */
  lemma {:induction false} JoinOrgsSorted(orgs: seq<Org>, t: DbTables)
    requires IdsAscending(orgs)
    ensures SortedById(JoinOrgs(orgs, t))
  {
    if orgs != [] {
      var rest := JoinOrgs(orgs[1..], t);
      JoinOrgsSorted(orgs[1..], t);
      forall r | r in rest ensures orgs[0].id < r.org.id {
        var k :| 0 <= k < |orgs[1..]| && orgs[1..][k] == r.org;
        assert orgs[k + 1] == r.org;
      }
      SortedAfterOneId(OrgRows(orgs[0], t), rest, orgs[0].id);
    }
  }

  /** Rows of one id followed by ascending rows of larger ids are ascending. */
  lemma SortedAfterOneId(head: seq<Row>, rest: seq<Row>, id: Id)
    requires forall r :: r in head ==> r.org.id == id
    requires SortedById(rest)
    requires forall r :: r in rest ==> id < r.org.id
    ensures SortedById(head + rest)
  {
    var rows := head + rest;
    forall i, j | 0 <= i < j < |rows| ensures rows[i].org.id <= rows[j].org.id {
      if j < |head| {
        assert rows[i] == head[i] && rows[j] == head[j];
        assert head[i] in head && head[j] in head;
      } else if i < |head| {
        assert rows[i] == head[i] && rows[j] == rest[j - |head|];
        assert head[i] in head && rest[j - |head|] in rest;
      } else {
        assert rows[i] == rest[i - |head|] && rows[j] == rest[j - |head|];
      }
    }
  }

  /** Distinct ids of an ascending id sequence are strictly ascending. */
  lemma {:induction false} DistinctAscending(ids: seq<Id>)
    requires forall i, j :: 0 <= i < j < |ids| ==> ids[i] <= ids[j]
    ensures forall i, j :: 0 <= i < j < |Distinct(ids)| ==> Distinct(ids)[i] < Distinct(ids)[j]
    decreases |ids|
  {
    if ids != [] {
      var init := ids[..|ids| - 1];
      var x := ids[|ids| - 1];
      assert ids == init + [x];
      DistinctSnoc(init, x);
      DistinctAscending(init);
      var d := Distinct(init);
      if x !in init {
        forall y | y in d ensures y < x {
          var k :| 0 <= k < |init| && init[k] == y;
          assert ids[k] == y;
        }
        var d' := d + [x];
        forall i, j | 0 <= i < j < |d'| ensures d'[i] < d'[j] {
          assert d'[i] == d[i];
          if j == |d| { assert d[i] in d; } else { assert d'[j] == d[j]; }
        }
      }
    }
  }

  /** Grouping rows in ascending id order gives records in strictly
      ascending id order. */
  lemma GroupSpecAscending(rows: seq<Row>)
    requires SortedById(rows)
    ensures forall i, j :: 0 <= i < j < |GroupSpec(rows)| ==> GroupSpec(rows)[i].org.id < GroupSpec(rows)[j].org.id
  {
    DistinctAscending(RowIds(rows));
  }

  // ------------------------------------------------------------- queries

  /** `getAllFullOrganizations(db, term, causes)`: the joined rows that pass
      the term and cause filters, ordered by id, grouped into records. The
      records come out in strictly ascending id order, whatever the tables. */
  function GetAllFullOrganizations(t: DbTables, term: string, names: Option<seq<string>>): (r: seq<FullOrg>)
    ensures forall i, j :: 0 <= i < j < |r| ==> r[i].org.id < r[j].org.id
  {
    var rows := OrderById(WhereOrg(JoinTables(t), Keeper(t, term, names)));
    GroupSpecAscending(rows);
    GroupSpec(rows)
  }

  /** Over consistent tables the listing is the fixture of the organizations
      that pass the filters: each of them once, in table order, with all of
      its causes. */
  lemma GetAllFullIsFixture(t: DbTables, term: string, names: Option<seq<string>>)
    requires Consistent(t)
    ensures GetAllFullOrganizations(t, term, names)
         == MakeFullOrganizations(FilterOrgs(t.orgs, Keeper(t, term, names)), t.causes, t.orgCauses)
  {
    var kept := FilterOrgs(t.orgs, Keeper(t, term, names));
    WhereJoin(t.orgs, t, Keeper(t, term, names));
    FilterOrgsAscending(t.orgs, Keeper(t, term, names));
    JoinOrgsSorted(kept, t);
    OrderByIdSorted(JoinOrgs(kept, t));
    ConvertJoinOrgs(kept, t);
  }

  /** An organization is listed iff it is stored and passes the filters;
      then it is listed with every one of its causes. */
  lemma GetAllFullMembers(t: DbTables, term: string, names: Option<seq<string>>, o: Org)
    requires Consistent(t)
    ensures (exists k :: 0 <= k < |GetAllFullOrganizations(t, term, names)| &&
               GetAllFullOrganizations(t, term, names)[k].org == o)
        <==> o in t.orgs && KeepOrg(t, term, names, o)
    ensures forall f :: f in GetAllFullOrganizations(t, term, names) ==>
              f.causes == LinkedCauses(GetByOrgId(t.orgCauses, f.org.id), t.causes)
  {
    GetAllFullIsFixture(t, term, names);
    MakeFullMembers(FilterOrgs(t.orgs, Keeper(t, term, names)), t.causes, t.orgCauses, o);
  }

  lemma MakeFullMembers(orgs: seq<Org>, causes: seq<Cause>, orgCauses: seq<OrgCause>, o: Org)
    ensures (exists k :: 0 <= k < |MakeFullOrganizations(orgs, causes, orgCauses)| &&
               MakeFullOrganizations(orgs, causes, orgCauses)[k].org == o) <==> o in orgs
    ensures forall f :: f in MakeFullOrganizations(orgs, causes, orgCauses) ==>
              f.causes == LinkedCauses(GetByOrgId(orgCauses, f.org.id), causes)
  {
    var full := MakeFullOrganizations(orgs, causes, orgCauses);
    if o in orgs {
      var k :| 0 <= k < |orgs| && orgs[k] == o;
      assert full[k].org == o;
    }
  }

  /** The default term `''` without a cause list keeps every organization. */
  lemma GetAllFullDefault(t: DbTables)
    requires Consistent(t)
    ensures GetAllFullOrganizations(t, "", None) == MakeFullOrganizations(t.orgs, t.causes, t.orgCauses)
  {
    forall o | o in t.orgs ensures Keeper(t, "", None)(o) {
      ILikeEmpty(o.orgName);
    }
    FilterOrgsAll(t.orgs, Keeper(t, "", None));
    GetAllFullIsFixture(t, "", None);
  }

  /** The cause filter is existence-based: an organization passes it iff
      some cause in its record's `causes` has a name in the list. */
  lemma CauseFilterByRecord(t: DbTables, o: Org, names: seq<string>)
    requires UniqueCauseIds(t.causes) && o in t.orgs
    ensures HasAcceptableCause(t, o.id, names) <==>
            exists c :: c in LinkedCauses(GetByOrgId(t.orgCauses, o.id), t.causes) && c.Some? && c.value.causeName in names
  {
    var cs := LinkedCauses(GetByOrgId(t.orgCauses, o.id), t.causes);
    if HasAcceptableCause(t, o.id, names) {
      AcceptableCauseInRecord(t, o.id, names);
    }
    if exists c :: c in cs && c.Some? && c.value.causeName in names {
      var c :| c in cs && c.Some? && c.value.causeName in names;
      RecordCauseAcceptable(t, o, names, c);
    }
  }

  lemma AcceptableCauseInRecord(t: DbTables, orgId: Id, names: seq<string>)
    requires UniqueCauseIds(t.causes) && HasAcceptableCause(t, orgId, names)
    ensures exists c :: c in LinkedCauses(GetByOrgId(t.orgCauses, orgId), t.causes) && c.Some? && c.value.causeName in names
  {
    var l :| l in t.orgCauses && l.orgId == orgId &&
      exists c :: c in t.causes && c.id == l.causeId && c.causeName in names;
    var c :| c in t.causes && c.id == l.causeId && c.causeName in names;
    LinkedCauseOf(t, l, c);
    assert Some(c).value.causeName in names;
  }

  /** The cause an association row names is among its organization's causes. */
  lemma LinkedCauseOf(t: DbTables, l: OrgCause, c: Cause)
    requires UniqueCauseIds(t.causes) && l in t.orgCauses && c in t.causes && c.id == l.causeId
    ensures Some(c) in LinkedCauses(GetByOrgId(t.orgCauses, l.orgId), t.causes)
  {
    var links := GetByOrgId(t.orgCauses, l.orgId);
    assert l in links;
    var i :| 0 <= i < |links| && links[i] == l;
    FindCauseFinds(t.causes, c);
    assert LinkedCauses(links, t.causes)[i] == Some(c);
  }

  /** With unique ids, looking a stored cause up by its id finds it. */
  lemma FindCauseFinds(causes: seq<Cause>, c: Cause)
    requires UniqueCauseIds(causes) && c in causes
    ensures FindCause(causes, c.id) == Some(c)
  {
    assert HasCause(causes, c.id);
  }

  lemma RecordCauseAcceptable(t: DbTables, o: Org, names: seq<string>, c: Option<Cause>)
    requires o in t.orgs
    requires c in LinkedCauses(GetByOrgId(t.orgCauses, o.id), t.causes) && c.Some? && c.value.causeName in names
    ensures HasAcceptableCause(t, o.id, names)
  {
    var links := GetByOrgId(t.orgCauses, o.id);
    var cs := LinkedCauses(links, t.causes);
    var i :| 0 <= i < |cs| && cs[i] == c;
    var l := links[i];
    assert l in t.orgCauses && l.orgId == o.id;
    assert c.value in t.causes && c.value.id == l.causeId;
  }

  /** `getById(db, id)`: the first organization with that id, or undefined. */
  function GetById(orgs: seq<Org>, id: Id): (r: Option<Org>)
    ensures r.Some? <==> HasOrg(orgs, id)
    ensures r.Some? ==> r.value in orgs && r.value.id == id
  {
    if orgs == [] then None
    else if orgs[0].id == id then Some(orgs[0])
    else
      assert HasOrg(orgs, id) ==> HasOrg(orgs[1..], id) by {
        if HasOrg(orgs, id) {
          var o :| o in orgs && o.id == id;
          assert o in orgs[1..];
        }
      }
      GetById(orgs[1..], id)
  }

  /** `getById` returns the first row with that id. */
  lemma {:induction false} GetByIdFirst(orgs: seq<Org>, id: Id)
    requires HasOrg(orgs, id)
    ensures exists k :: 0 <= k < |orgs| && orgs[k] == GetById(orgs, id).value &&
                        forall j :: 0 <= j < k ==> orgs[j].id != id
  {
    if orgs[0].id != id {
      GetByIdFirst(orgs[1..], id);
      var k :| 0 <= k < |orgs[1..]| && orgs[1..][k] == GetById(orgs, id).value &&
               forall j :: 0 <= j < k ==> orgs[1..][j].id != id;
      assert orgs[k + 1] == GetById(orgs, id).value;
      forall j | 1 <= j < k + 1 ensures orgs[j].id != id {
        assert orgs[j] == orgs[1..][j - 1];
      }
    }
  }

  /** `getFullById(db, id)`: the first record of the joined rows with that
      id, or undefined. */
  function GetFullById(t: DbTables, id: Id): (r: Option<FullOrg>)
    ensures !HasOrg(t.orgs, id) ==> r == None
    ensures r.Some? ==> r.value.org.id == id
  {
    var rows := WhereOrg(JoinTables(t), IdIs(id));
    var recs := GroupSpec(rows);
    if recs == [] then None
    else
      assert recs[0].org.id == id && HasOrg(t.orgs, id) by {
        var x := Distinct(RowIds(rows))[0];
        assert x in RowIds(rows);
        var k :| 0 <= k < |rows| && RowIds(rows)[k] == x;
        assert rows[k] in rows;
        assert rows[k].org in t.orgs;
      }
      Some(recs[0])
  }

  /** Over consistent tables only the organization with that id passes. */
  lemma {:induction false} FilterById(orgs: seq<Org>, id: Id)
    requires IdsAscending(orgs)
    ensures HasOrg(orgs, id) ==> FilterOrgs(orgs, IdIs(id)) == [GetById(orgs, id).value]
    ensures !HasOrg(orgs, id) ==> FilterOrgs(orgs, IdIs(id)) == []
  {
    if orgs != [] {
      forall o | o in orgs[1..] ensures orgs[0].id < o.id {
        var k :| 0 <= k < |orgs[1..]| && orgs[1..][k] == o;
        assert orgs[k + 1] == o;
      }
      assert IdsAscending(orgs[1..]);
      if orgs[0].id == id {
        FilterOrgsNone(orgs[1..], IdIs(id));
      } else {
        assert HasOrg(orgs, id) ==> HasOrg(orgs[1..], id) by {
          if HasOrg(orgs, id) {
            var o :| o in orgs && o.id == id;
            assert o in orgs[1..];
          }
        }
        FilterById(orgs[1..], id);
      }
    }
  }

  /** A filter no organization passes keeps nothing. */
  lemma {:induction false} FilterOrgsNone(orgs: seq<Org>, keep: Org -> bool)
    requires forall o :: o in orgs ==> !keep(o)
    ensures FilterOrgs(orgs, keep) == []
  {
    if orgs != [] {
      assert orgs[0] in orgs;
      FilterOrgsNone(orgs[1..], keep);
    }
  }

  /** `getFullById(db, id)` is that organization's fixture record, or
      undefined when no organization has the id. */
  lemma GetFullByIdIsFixture(t: DbTables, id: Id)
    requires Consistent(t)
    ensures !HasOrg(t.orgs, id) ==> GetFullById(t, id) == None
    ensures HasOrg(t.orgs, id) ==>
              GetFullById(t, id) == Some(FullOrg(GetById(t.orgs, id).value,
                                                 LinkedCauses(GetByOrgId(t.orgCauses, id), t.causes)))
  {
    WhereJoin(t.orgs, t, IdIs(id));
    FilterById(t.orgs, id);
    var kept := FilterOrgs(t.orgs, IdIs(id));
    FilterOrgsAscending(t.orgs, IdIs(id));
    ConvertJoinOrgs(kept, t);
  }

  /** The record `getFullById` returns carries the row `getById` returns. */
  lemma GetFullByIdAgreesWithGetById(t: DbTables, id: Id)
    requires Consistent(t)
    ensures GetFullById(t, id).Some? <==> GetById(t.orgs, id).Some?
    ensures GetFullById(t, id).Some? ==> GetFullById(t, id).value.org == GetById(t.orgs, id).value
  {
    GetFullByIdIsFixture(t, id);
  }
}
