/** The write operations of src/organizations/organizations-service.js:
    `insertOrganization`, `updateOrganization` and `deleteOrganization`,
    as methods that change the tables of a `Db`, each tied to a pure
    transition on `DbTables` (`InsertTables`, `UpdateTables`,
    `DeleteTables`) about which the listed properties are proved.

    The `Promise.all` fan-outs of the source run their statements
    concurrently; the model runs them one after the other, in array
    order, and stops at the first statement the store refuses. */
module OrgWrites {
  import opened Tables
  import opened OrgCausesService
  import opened OrgGrouping
  import opened OrgJoin
  import opened OrgQueries

  /** The request payload of `insertOrganization`: the scalar columns and
      the cause objects whose `id`s become association rows. `causes` is
      `None` when the payload has no `causes` field; the POST validator
      does not check for it. */
  datatype NewOrganization = NewOrganization(
    orgName: string,
    website: Option<string>,
    phone: Option<string>,
    email: Option<string>,
    orgAddress: Option<string>,
    orgDesc: string,
    causes: Option<seq<Cause>>)

  /** The scalar fields of an update; `None` is an undefined field, which
      knex leaves out of the `UPDATE`. */
  datatype OrgPatch = OrgPatch(
    orgName: Option<string>,
    website: Option<string>,
    phone: Option<string>,
    email: Option<string>,
    orgAddress: Option<string>,
    orgDesc: Option<string>)
  {
    predicate Supplied() {
      orgName.Some? || website.Some? || phone.Some? || email.Some? || orgAddress.Some? || orgDesc.Some?
    }
  }

  predicate AllCausesExist(table: seq<Cause>, cs: seq<Cause>) {
    forall c :: c in cs ==> HasCause(table, c.id)
  }

  predicate DistinctCauseIds(cs: seq<Cause>) {
    forall i, j :: 0 <= i < j < |cs| ==> cs[i].id != cs[j].id
  }

  /** `{ org_id: id, cause_id: cause.id }` for each cause, in order. */
  function NewLinks(id: Id, cs: seq<Cause>): (links: seq<OrgCause>)
    ensures |links| == |cs|
    ensures forall i :: 0 <= i < |cs| ==> links[i].orgId == id && links[i].causeId == cs[i].id
  {
    seq(|cs|, i requires 0 <= i < |cs| => OrgCause(id, cs[i].id))
  }

  lemma NewLinksPrefix(id: Id, cs: seq<Cause>, k: nat)
    requires k <= |cs|
    ensures NewLinks(id, cs)[..k] == NewLinks(id, cs[..k])
  {
  }

  /** The `for (const cause of causes) orgCauses.push(...)` loop of
      `insertOrganization`. */
  method BuildOrgCauses(id: Id, cs: seq<Cause>) returns (links: seq<OrgCause>)
    ensures links == NewLinks(id, cs)
  {
    links := [];
    for k := 0 to |cs|
      invariant links == NewLinks(id, cs[..k])
    {
      links := links + [OrgCause(id, cs[k].id)];
    }
    assert cs[..|cs|] == cs;
  }

  // ------------------------------------------------ inserting association rows

  /** The store accepts `l` after `prev` has been appended to `t`'s table. */
  predicate Accepts(t: DbTables, prev: seq<OrgCause>, l: OrgCause) {
    l !in t.orgCauses && l !in prev && HasOrg(t.orgs, l.orgId) && HasCause(t.causes, l.causeId)
  }

  /** The store accepts every row of `links`, inserted in order into `t`. */
  predicate Insertable(t: DbTables, links: seq<OrgCause>)
    decreases |links|
  {
    links == [] ||
    (Insertable(t, links[..|links| - 1]) && Accepts(t, links[..|links| - 1], links[|links| - 1]))
  }

  lemma {:induction false} InsertablePrefix(t: DbTables, links: seq<OrgCause>, k: nat)
    requires k <= |links| && Insertable(t, links)
    ensures Insertable(t, links[..k])
    decreases |links|
  {
    if k < |links| {
      assert links[..|links| - 1][..k] == links[..k];
      InsertablePrefix(t, links[..|links| - 1], k);
    } else {
      assert links[..k] == links;
    }
  }

  /** Inserts `links` one `insertOrgCause` after the other. On the first
      refusal it stops and reports it; the rows inserted before stay. */
  method InsertLinks(db: Db, links: seq<OrgCause>) returns (err: Option<Error>)
    requires db.Valid()
    modifies db
    ensures db.Valid()
    ensures db.organizations == old(db.organizations) && db.causes == old(db.causes)
    ensures db.nextId == old(db.nextId)
    ensures err.None? <==> Insertable(old(db.Snapshot()), links)
    ensures err.None? ==> db.orgCauses == old(db.orgCauses) + links
    ensures err.Some? ==> exists k :: 0 <= k < |links| && db.orgCauses == old(db.orgCauses) + links[..k]
  {
    ghost var t0 := db.Snapshot();
    var k := 0;
    while k < |links|
      invariant 0 <= k <= |links|
      invariant db.Valid()
      invariant db.organizations == t0.orgs && db.causes == t0.causes && db.nextId == old(db.nextId)
      invariant db.orgCauses == t0.orgCauses + links[..k]
      invariant Insertable(t0, links[..k])
    {
      assert links[..k + 1][..k] == links[..k];
      var r := InsertOrgCause(db, links[k]);
      if r.Err? {
        if Insertable(t0, links) {
          InsertablePrefix(t0, links, k + 1);
        }
        return Some(r.error);
      }
      assert db.orgCauses == t0.orgCauses + links[..k + 1];
      k := k + 1;
    }
    assert links[..k] == links;
    return None;
  }

  /** For an organization with no association row yet, the store accepts
      its new rows iff it exists (or there are none), every cause exists
      and no cause is given twice. */
  lemma {:induction false} NewLinksInsertable(t: DbTables, id: Id, cs: seq<Cause>)
    requires forall l :: l in t.orgCauses ==> l.orgId != id
    ensures Insertable(t, NewLinks(id, cs)) <==>
            (cs == [] || HasOrg(t.orgs, id)) && AllCausesExist(t.causes, cs) && DistinctCauseIds(cs)
    decreases |cs|
  {
    if cs != [] {
      var init := cs[..|cs| - 1];
      NewLinksInsertable(t, id, init);
      NewLinksStep(t, id, cs);
      DistinctCauseIdsSnoc(cs);
      AllCausesExistSnoc(t.causes, cs);
    }
  }

  /** One more cause: its row is accepted iff the organization and the
      cause exist and no earlier cause has the same id. */
  lemma NewLinksStep(t: DbTables, id: Id, cs: seq<Cause>)
    requires forall l :: l in t.orgCauses ==> l.orgId != id
    requires cs != []
    ensures Insertable(t, NewLinks(id, cs)) <==>
            && Insertable(t, NewLinks(id, cs[..|cs| - 1]))
            && HasOrg(t.orgs, id) && HasCause(t.causes, cs[|cs| - 1].id)
            && forall i :: 0 <= i < |cs| - 1 ==> cs[i].id != cs[|cs| - 1].id
  {
    var init, c := cs[..|cs| - 1], cs[|cs| - 1];
    var links := NewLinks(id, cs);
    NewLinksPrefix(id, cs, |cs| - 1);
    assert links[..|links| - 1] == NewLinks(id, init);
    assert links[|links| - 1] == OrgCause(id, c.id);
    assert OrgCause(id, c.id) !in t.orgCauses;
    NewLinksHasCause(id, init, c);
    assert forall i :: 0 <= i < |init| ==> init[i] == cs[i];
  }

  lemma AllCausesExistSnoc(table: seq<Cause>, cs: seq<Cause>)
    requires cs != []
    ensures AllCausesExist(table, cs) <==>
            AllCausesExist(table, cs[..|cs| - 1]) && HasCause(table, cs[|cs| - 1].id)
  {
    assert cs == cs[..|cs| - 1] + [cs[|cs| - 1]];
  }

  /** The new rows hold the pair of a cause iff some given cause has its id. */
  lemma NewLinksHasCause(id: Id, cs: seq<Cause>, c: Cause)
    ensures OrgCause(id, c.id) in NewLinks(id, cs) <==> exists i :: 0 <= i < |cs| && cs[i].id == c.id
  {
    var l := OrgCause(id, c.id);
    if l in NewLinks(id, cs) {
      var i :| 0 <= i < |cs| && NewLinks(id, cs)[i] == l;
      assert cs[i].id == c.id;
    }
    if exists i :: 0 <= i < |cs| && cs[i].id == c.id {
      var i :| 0 <= i < |cs| && cs[i].id == c.id;
      assert NewLinks(id, cs)[i] == l;
    }
  }

  /** Cause ids stay distinct after appending a cause iff its id is new. */
  lemma DistinctCauseIdsSnoc(cs: seq<Cause>)
    requires cs != []
    ensures DistinctCauseIds(cs) <==>
            DistinctCauseIds(cs[..|cs| - 1]) && forall i :: 0 <= i < |cs| - 1 ==> cs[i].id != cs[|cs| - 1].id
  {
    var init, c := cs[..|cs| - 1], cs[|cs| - 1];
    if DistinctCauseIds(init) && forall i :: 0 <= i < |init| ==> init[i].id != c.id {
      forall i, j | 0 <= i < j < |cs| ensures cs[i].id != cs[j].id {
        assert cs[i] == init[i];
        if j < |init| { assert cs[j] == init[j]; }
      }
    }
    if DistinctCauseIds(cs) {
      forall i, j | 0 <= i < j < |init| ensures init[i].id != init[j].id {
        assert cs[i] == init[i] && cs[j] == init[j];
      }
      forall i | 0 <= i < |init| ensures init[i].id != c.id {
        assert cs[i] == init[i];
      }
    }
  }

  // ------------------------------------------------------------ insert

  /** The tables after a successful `insertOrganization`: the new row
      appended, and its association rows appended in payload order. */
  function InsertTables(t: DbTables, row: Org, cs: seq<Cause>): (t': DbTables)
    ensures t'.causes == t.causes
  {
    DbTables(t.orgs + [row], t.causes, t.orgCauses + NewLinks(row.id, cs))
  }

  /** `insertOrganization(db, fullOrg)`: in one transaction, inserts the
      organization row under the next serial id, then one association row
      per cause. Iterating over an absent `causes` throws a `TypeError`
      after the row is inserted. The transaction succeeds iff the causes
      are given, every cause exists and none is given twice; otherwise it
      rolls back and the tables are as before (the serial counter is not
      rolled back). */
  method InsertOrganization(db: Db, org: NewOrganization) returns (r: Result<Org>)
    requires db.Valid()
    modifies db
    ensures db.Valid()
    ensures db.nextId == old(db.nextId) + 1
    ensures db.causes == old(db.causes)
    ensures r.Ok? <==> org.causes.Some? && AllCausesExist(old(db.causes), org.causes.value) &&
                       DistinctCauseIds(org.causes.value)
    ensures org.causes.None? ==> r == Err(TypeError)
    ensures r.Ok? ==> r.value == Org(old(db.nextId), org.orgName, org.website, org.phone, org.email,
                                     org.orgAddress, org.orgDesc)
    ensures r.Ok? ==> db.Snapshot() == InsertTables(old(db.Snapshot()), r.value, org.causes.value)
    ensures r.Err? ==> db.organizations == old(db.organizations) && db.orgCauses == old(db.orgCauses)
  {
    var before := db.Snapshot();
    var id := db.nextId;
    var row := Org(id, org.orgName, org.website, org.phone, org.email, org.orgAddress, org.orgDesc);
    db.nextId := db.nextId + 1;
    FreshIdUnlinked(before, id);
    db.organizations := db.organizations + [row];
    AppendOrgKeepsConsistent(before, row);
    assert HasOrg(db.organizations, id) by {
      assert row in db.organizations;
    }
    if org.causes.None? {
      db.organizations := before.orgs;
      return Err(TypeError);
    }
    var causes := org.causes.value;
    var links := BuildOrgCauses(id, causes);
    NewLinksInsertable(db.Snapshot(), id, causes);
    var err := InsertLinks(db, links);
    if err.Some? {
      db.organizations := before.orgs;
      db.orgCauses := before.orgCauses;
      return Err(err.value);
    }
    r := Ok(row);
  }

  /** In a valid database no association row names the next serial id. */
  lemma FreshIdUnlinked(t: DbTables, id: Id)
    requires Consistent(t) && forall o :: o in t.orgs ==> o.id < id
    ensures forall l :: l in t.orgCauses ==> l.orgId != id
  {
    forall l | l in t.orgCauses ensures l.orgId != id {
      assert HasOrg(t.orgs, l.orgId);
    }
  }

  lemma AppendOrgKeepsConsistent(t: DbTables, row: Org)
    requires Consistent(t) && forall o :: o in t.orgs ==> o.id < row.id
    ensures Consistent(DbTables(t.orgs + [row], t.causes, t.orgCauses))
  {
    var orgs := t.orgs + [row];
    forall i, j | 0 <= i < j < |orgs| ensures orgs[i].id < orgs[j].id {
      assert orgs[i] == t.orgs[i];
      if j < |t.orgs| { assert orgs[j] == t.orgs[j]; } else { assert t.orgs[i] in t.orgs; }
    }
    forall l | l in t.orgCauses ensures HasOrg(orgs, l.orgId) {
      var o :| o in t.orgs && o.id == l.orgId;
      assert o in orgs;
    }
  }

  /** Round trip: after an insert, `getByOrgId` returns exactly the new
      association rows, in payload order, and `getFullById` returns the new
      row with the causes they name. */
  lemma InsertRoundTrip(t: DbTables, row: Org, cs: seq<Cause>)
    requires Consistent(t) && Consistent(InsertTables(t, row, cs))
    requires forall o :: o in t.orgs ==> o.id < row.id
    ensures GetByOrgId(InsertTables(t, row, cs).orgCauses, row.id) == NewLinks(row.id, cs)
    ensures GetFullById(InsertTables(t, row, cs), row.id)
         == Some(FullOrg(row, LinkedCauses(NewLinks(row.id, cs), t.causes)))
  {
    var t' := InsertTables(t, row, cs);
    FreshIdUnlinked(t, row.id);
    GetByOrgIdConcat(t.orgCauses, NewLinks(row.id, cs), row.id);
    GetByOrgIdNone(t.orgCauses, row.id);
    GetByOrgIdAll(NewLinks(row.id, cs), row.id);
    assert row in t'.orgs;
    GetFullByIdIsFixture(t', row.id);
    var found := GetById(t'.orgs, row.id).value;
    assert found == row by {
      assert found in t'.orgs;
      assert found != row ==> found in t.orgs;
    }
  }

  lemma {:induction false} GetByOrgIdNone(table: seq<OrgCause>, orgId: Id)
    requires forall l :: l in table ==> l.orgId != orgId
    ensures GetByOrgId(table, orgId) == []
  {
    if table != [] {
      assert table[0] in table;
      GetByOrgIdNone(table[1..], orgId);
    }
  }

  lemma {:induction false} GetByOrgIdAll(table: seq<OrgCause>, orgId: Id)
    requires forall i :: 0 <= i < |table| ==> table[i].orgId == orgId
    ensures GetByOrgId(table, orgId) == table
  {
    if table != [] {
      GetByOrgIdAll(table[1..], orgId);
    }
  }

  // ------------------------------------------------------------ update

  /** The organization with the supplied fields overwritten and the others kept. */
  function ApplyPatch(o: Org, p: OrgPatch): (o': Org)
    ensures o'.id == o.id
  {
    Org(o.id,
        if p.orgName.Some? then p.orgName.value else o.orgName,
        if p.website.Some? then p.website else o.website,
        if p.phone.Some? then p.phone else o.phone,
        if p.email.Some? then p.email else o.email,
        if p.orgAddress.Some? then p.orgAddress else o.orgAddress,
        if p.orgDesc.Some? then p.orgDesc.value else o.orgDesc)
  }

  /** A supplied field is overwritten and an unsupplied one kept; patching
      twice is patching once. */
  lemma ApplyPatchFields(o: Org, p: OrgPatch)
    ensures p.orgName.Some? ==> ApplyPatch(o, p).orgName == p.orgName.value
    ensures p.orgName.None? ==> ApplyPatch(o, p).orgName == o.orgName
    ensures p.website.Some? ==> ApplyPatch(o, p).website == p.website
    ensures p.website.None? ==> ApplyPatch(o, p).website == o.website
    ensures p.phone.Some? ==> ApplyPatch(o, p).phone == p.phone
    ensures p.phone.None? ==> ApplyPatch(o, p).phone == o.phone
    ensures p.email.Some? ==> ApplyPatch(o, p).email == p.email
    ensures p.email.None? ==> ApplyPatch(o, p).email == o.email
    ensures p.orgAddress.Some? ==> ApplyPatch(o, p).orgAddress == p.orgAddress
    ensures p.orgAddress.None? ==> ApplyPatch(o, p).orgAddress == o.orgAddress
    ensures p.orgDesc.Some? ==> ApplyPatch(o, p).orgDesc == p.orgDesc.value
    ensures p.orgDesc.None? ==> ApplyPatch(o, p).orgDesc == o.orgDesc
    ensures ApplyPatch(ApplyPatch(o, p), p) == ApplyPatch(o, p)
  {
  }

  /** `.where({ id }).update(orgNewFields)` on the organizations table. */
  function PatchOrgs(orgs: seq<Org>, id: Id, p: OrgPatch): (r: seq<Org>)
    ensures |r| == |orgs|
    ensures forall i :: 0 <= i < |orgs| ==> r[i].id == orgs[i].id
    ensures forall i :: 0 <= i < |orgs| && orgs[i].id != id ==> r[i] == orgs[i]
  {
    seq(|orgs|, i requires 0 <= i < |orgs| => if orgs[i].id == id then ApplyPatch(orgs[i], p) else orgs[i])
  }

  lemma PatchOrgsHasOrg(orgs: seq<Org>, id: Id, p: OrgPatch)
    ensures forall x :: HasOrg(PatchOrgs(orgs, id, p), x) <==> HasOrg(orgs, x)
    ensures IdsAscending(orgs) ==> IdsAscending(PatchOrgs(orgs, id, p))
  {
    var r := PatchOrgs(orgs, id, p);
    forall x ensures HasOrg(r, x) <==> HasOrg(orgs, x) {
      if HasOrg(r, x) {
        var o :| o in r && o.id == x;
        var i :| 0 <= i < |r| && r[i] == o;
        assert orgs[i] in orgs;
      }
      if HasOrg(orgs, x) {
        var o :| o in orgs && o.id == x;
        var i :| 0 <= i < |orgs| && orgs[i] == o;
        assert r[i] in r;
      }
    }
  }

  /** The tables after a successful `updateOrganization(db, id, fields)`:
      the row patched and, when `causes` is non-empty, the organization's
      association rows replaced by one per cause, appended in order. */
  function UpdateTables(t: DbTables, id: Id, p: OrgPatch, cs: seq<Cause>): (t': DbTables)
    ensures t'.causes == t.causes
    ensures cs == [] ==> t'.orgCauses == t.orgCauses
  {
    DbTables(PatchOrgs(t.orgs, id, p), t.causes,
             if cs == [] then t.orgCauses else WithoutOrg(t.orgCauses, id) + NewLinks(id, cs))
  }

  /** The association rows left after deleting `drop` pair by pair. */
  function WithoutLinks(table: seq<OrgCause>, drop: seq<OrgCause>): (r: seq<OrgCause>)
    ensures forall p :: p in r <==> p in table && p !in drop
  {
    if table == [] then []
    else (if table[0] in drop then [] else [table[0]]) + WithoutLinks(table[1..], drop)
  }

  lemma {:induction false} WithoutLinksNone(table: seq<OrgCause>)
    ensures WithoutLinks(table, []) == table
  {
    if table != [] {
      WithoutLinksNone(table[1..]);
    }
  }

  lemma {:induction false} WithoutLinksSnoc(table: seq<OrgCause>, drop: seq<OrgCause>, l: OrgCause)
    ensures WithoutPair(WithoutLinks(table, drop), l.orgId, l.causeId) == WithoutLinks(table, drop + [l])
  {
    if table != [] {
      WithoutLinksSnoc(table[1..], drop, l);
      var head := if table[0] in drop then [] else [table[0]];
      var rest := WithoutLinks(table[1..], drop);
      assert WithoutLinks(table, drop) == head + rest;
      WithoutPairConcat(head, rest, l.orgId, l.causeId);
    }
  }

  lemma {:induction false} WithoutPairConcat(a: seq<OrgCause>, b: seq<OrgCause>, o: Id, c: Id)
    ensures WithoutPair(a + b, o, c) == WithoutPair(a, o, c) + WithoutPair(b, o, c)
  {
    if a != [] {
      assert (a + b)[0] == a[0];
      assert (a + b)[1..] == a[1..] + b;
      WithoutPairConcat(a[1..], b, o, c);
      if a[0] != OrgCause(o, c) {
        assert [a[0]] + (WithoutPair(a[1..], o, c) + WithoutPair(b, o, c))
            == ([a[0]] + WithoutPair(a[1..], o, c)) + WithoutPair(b, o, c);
      }
    } else {
      assert a + b == b;
    }
  }

  /** Deleting every row `getByOrgId` returned leaves the rows of the other
      organizations. */
  lemma {:induction false} WithoutLinksByOrg(table: seq<OrgCause>, drop: seq<OrgCause>, id: Id)
    requires forall p :: p in table ==> (p in drop <==> p.orgId == id)
    ensures WithoutLinks(table, drop) == WithoutOrg(table, id)
  {
    if table != [] {
      assert table[0] in table;
      WithoutLinksByOrg(table[1..], drop, id);
    }
  }

  /** The tables with the organization rows replaced by rows carrying the
      same ids, in the same order, stay consistent. */
  lemma SameIdsKeepConsistent(t: DbTables, orgs: seq<Org>)
    requires Consistent(t) && |orgs| == |t.orgs|
    requires forall i :: 0 <= i < |orgs| ==> orgs[i].id == t.orgs[i].id
    ensures Consistent(DbTables(orgs, t.causes, t.orgCauses))
    ensures forall x :: HasOrg(orgs, x) <==> HasOrg(t.orgs, x)
  {
    forall x ensures HasOrg(orgs, x) <==> HasOrg(t.orgs, x) {
      if HasOrg(orgs, x) {
        var o :| o in orgs && o.id == x;
        var i :| 0 <= i < |orgs| && orgs[i] == o;
        assert t.orgs[i] in t.orgs;
      }
      if HasOrg(t.orgs, x) {
        var o :| o in t.orgs && o.id == x;
        var i :| 0 <= i < |t.orgs| && t.orgs[i] == o;
        assert orgs[i] in orgs;
      }
    }
  }

  /** The first half of replacing an organization's association rows:
      `getByOrgId`, then `deleteOrgCause` for each row it returned. */
  method DeleteOrgLinks(db: Db, id: Id)
    requires db.Valid()
    modifies db
    ensures db.Valid()
    ensures db.organizations == old(db.organizations) && db.causes == old(db.causes)
    ensures db.nextId == old(db.nextId)
    ensures db.orgCauses == WithoutOrg(old(db.orgCauses), id)
  {
    ghost var t0 := db.orgCauses;
    WithoutLinksNone(t0);
    var oldLinks := GetByOrgId(db.orgCauses, id);
    var k := 0;
    while k < |oldLinks|
      invariant 0 <= k <= |oldLinks|
      invariant db.Valid()
      invariant db.organizations == old(db.organizations) && db.causes == old(db.causes)
      invariant db.nextId == old(db.nextId)
      invariant db.orgCauses == WithoutLinks(t0, oldLinks[..k])
    {
      assert oldLinks[k] in oldLinks;
      DeleteStep(t0, oldLinks, id, k);
      var _ := DeleteOrgCause(db, id, oldLinks[k].causeId);
      k := k + 1;
    }
    assert oldLinks[..k] == oldLinks;
    WithoutLinksByOrg(t0, oldLinks, id);
  }

  lemma DeleteStep(table: seq<OrgCause>, links: seq<OrgCause>, id: Id, k: nat)
    requires k < |links| && links[k].orgId == id
    ensures WithoutPair(WithoutLinks(table, links[..k]), id, links[k].causeId) == WithoutLinks(table, links[..k + 1])
  {
    assert links[..k + 1] == links[..k] + [links[k]];
    WithoutLinksSnoc(table, links[..k], links[k]);
  }

  /** `updateOrganization(db, id, fields)`. `causes.map` runs before the
      transaction, so an undefined `causes` throws a TypeError and nothing
      changes. Otherwise the row is patched; when `causes` is non-empty the
      organization's association rows are deleted one by one and the new
      ones inserted. Only the row update runs inside the transaction: when
      an insert is refused the row update is rolled back, while the
      association rows deleted and inserted so far stay. */
  method UpdateOrganization(db: Db, id: Id, p: OrgPatch, causes: Option<seq<Cause>>) returns (err: Option<Error>)
    requires db.Valid() && p.Supplied()
    modifies db
    ensures db.Valid()
    ensures db.causes == old(db.causes) && db.nextId == old(db.nextId)
    ensures causes.None? ==> err == Some(TypeError) && db.orgCauses == old(db.orgCauses)
    ensures err.None? <==>
            causes.Some? &&
            (causes.value == [] ||
             (HasOrg(old(db.organizations), id) && AllCausesExist(old(db.causes), causes.value) &&
              DistinctCauseIds(causes.value)))
    ensures err.None? ==> db.Snapshot() == UpdateTables(old(db.Snapshot()), id, p, causes.value)
    ensures err.Some? ==> db.organizations == old(db.organizations)
  {
    if causes.None? {
      return Some(TypeError);
    }
    var cs := causes.value;
    var newLinks := NewLinks(id, cs);
    var oldOrgs := db.organizations;
    var patched := PatchOrgs(oldOrgs, id, p);
    SameIdsKeepConsistent(db.Snapshot(), patched);
    db.organizations := patched;
    if |newLinks| > 0 {
      DeleteOrgLinks(db, id);
      NewLinksInsertable(db.Snapshot(), id, cs);
      var e := InsertLinks(db, newLinks);
      if e.Some? {
        SameIdsKeepConsistent(db.Snapshot(), oldOrgs);
        db.organizations := oldOrgs;
        return e;
      }
    }
    return None;
  }

  /** Repeating an update gives the same tables, and succeeds again. */
  lemma UpdateIdempotent(t: DbTables, id: Id, p: OrgPatch, cs: seq<Cause>)
    ensures UpdateTables(UpdateTables(t, id, p, cs), id, p, cs) == UpdateTables(t, id, p, cs)
    ensures HasOrg(UpdateTables(t, id, p, cs).orgs, id) <==> HasOrg(t.orgs, id)
  {
    PatchOrgsHasOrg(t.orgs, id, p);
    PatchOrgsIdempotent(t.orgs, id, p);
    if cs != [] {
      ReplaceLinksIdempotent(t.orgCauses, id, cs);
    }
  }

  lemma PatchOrgsIdempotent(orgs: seq<Org>, id: Id, p: OrgPatch)
    ensures PatchOrgs(PatchOrgs(orgs, id, p), id, p) == PatchOrgs(orgs, id, p)
  {
    var o1 := PatchOrgs(orgs, id, p);
    var o2 := PatchOrgs(o1, id, p);
    forall i | 0 <= i < |o2| ensures o2[i] == o1[i] {
      if orgs[i].id == id {
        ApplyPatchFields(orgs[i], p);
      }
    }
  }

  lemma ReplaceLinksIdempotent(table: seq<OrgCause>, id: Id, cs: seq<Cause>)
    ensures WithoutOrg(WithoutOrg(table, id) + NewLinks(id, cs), id) + NewLinks(id, cs)
         == WithoutOrg(table, id) + NewLinks(id, cs)
  {
    var links := NewLinks(id, cs);
    var kept := WithoutOrg(table, id);
    assert WithoutOrg(kept, id) == kept by { WithoutOrgNoop(kept, id); }
    assert WithoutOrg(links, id) == [] by { WithoutOrgEmpty(links, id); }
    WithoutOrgConcat(kept, links, id);
    assert kept + [] == kept;
  }

  lemma {:induction false} WithoutOrgEmpty(table: seq<OrgCause>, id: Id)
    requires forall i :: 0 <= i < |table| ==> table[i].orgId == id
    ensures WithoutOrg(table, id) == []
  {
    if table != [] {
      WithoutOrgEmpty(table[1..], id);
    }
  }

  /** An update touches only its own organization: every other row and
      every other organization's association rows are as before; its own
      row is the patched one, and its association rows are the new ones
      when causes were given. */
  lemma UpdateEffect(t: DbTables, id: Id, p: OrgPatch, cs: seq<Cause>, other: Id)
    requires IdsAscending(t.orgs) && other != id
    ensures GetById(UpdateTables(t, id, p, cs).orgs, other) == GetById(t.orgs, other)
    ensures GetByOrgId(UpdateTables(t, id, p, cs).orgCauses, other) == GetByOrgId(t.orgCauses, other)
    ensures HasOrg(t.orgs, id) ==>
              GetById(UpdateTables(t, id, p, cs).orgs, id) == Some(ApplyPatch(GetById(t.orgs, id).value, p))
    ensures cs != [] ==> GetByOrgId(UpdateTables(t, id, p, cs).orgCauses, id) == NewLinks(id, cs)
  {
    var t1 := UpdateTables(t, id, p, cs);
    PatchOrgsHasOrg(t.orgs, id, p);
    GetByIdPatched(t.orgs, id, p, other);
    GetByIdPatched(t.orgs, id, p, id);
    if cs != [] {
      var links := NewLinks(id, cs);
      GetByOrgIdConcat(WithoutOrg(t.orgCauses, id), links, other);
      GetByOrgIdConcat(WithoutOrg(t.orgCauses, id), links, id);
      WithoutOrgByOrg(t.orgCauses, id, other);
      GetByOrgIdNone(links, other);
      GetByOrgIdAll(links, id);
    }
  }

  /** `getById` after the row update: the patched row for `id`, the old
      row for any other id. */
  lemma {:induction false} GetByIdPatched(orgs: seq<Org>, id: Id, p: OrgPatch, x: Id)
    ensures GetById(PatchOrgs(orgs, id, p), x).Some? == GetById(orgs, x).Some?
    ensures GetById(orgs, x).Some? ==>
              GetById(PatchOrgs(orgs, id, p), x).value
              == if x == id then ApplyPatch(GetById(orgs, x).value, p) else GetById(orgs, x).value
  {
    if orgs != [] {
      GetByIdPatched(orgs[1..], id, p, x);
      assert PatchOrgs(orgs, id, p)[1..] == PatchOrgs(orgs[1..], id, p);
    }
  }

  // ------------------------------------------------------------ delete

  function OtherThan(id: Id): Org -> bool {
    (o: Org) => o.id != id
  }

  /** The tables after `deleteOrganization(db, id)`: the row gone, and with
      it (by the cascade on `org_causes.org_id`) its association rows. */
  function DeleteTables(t: DbTables, id: Id): (t': DbTables)
    ensures t'.causes == t.causes
    ensures forall o :: o in t'.orgs <==> o in t.orgs && o.id != id
    ensures forall l :: l in t'.orgCauses <==> l in t.orgCauses && l.orgId != id
  {
    DbTables(FilterOrgs(t.orgs, OtherThan(id)), t.causes, WithoutOrg(t.orgCauses, id))
  }

  lemma {:induction false} FilterOrgsSplit(orgs: seq<Org>, id: Id)
    ensures |FilterOrgs(orgs, IdIs(id))| + |FilterOrgs(orgs, OtherThan(id))| == |orgs|
  {
    if orgs != [] {
      FilterOrgsSplit(orgs[1..], id);
    }
  }

  /** With unique ids, the delete removes one row when the id is stored and
      none otherwise. */
  lemma DeleteCount(orgs: seq<Org>, id: Id)
    requires IdsAscending(orgs)
    ensures |orgs| - |FilterOrgs(orgs, OtherThan(id))| == if HasOrg(orgs, id) then 1 else 0
  {
    FilterOrgsSplit(orgs, id);
    FilterById(orgs, id);
  }

  lemma WithoutOrgKeepsDistinct(table: seq<OrgCause>, id: Id)
    requires NoDuplicatePairs(table)
    ensures NoDuplicatePairs(WithoutOrg(table, id))
    decreases |table|
  {
    if table != [] {
      WithoutOrgKeepsDistinct(table[1..], id);
      var rest := WithoutOrg(table[1..], id);
      assert table[0] !in rest;
      var head := if table[0].orgId == id then [] else [table[0]];
      assert WithoutOrg(table, id) == head + rest;
    }
  }

  /** Deleting keeps the tables consistent. */
  lemma DeleteKeepsConsistent(t: DbTables, id: Id)
    requires Consistent(t)
    ensures Consistent(DeleteTables(t, id))
  {
    var t' := DeleteTables(t, id);
    FilterOrgsAscending(t.orgs, OtherThan(id));
    WithoutOrgKeepsDistinct(t.orgCauses, id);
    forall l | l in t'.orgCauses ensures HasOrg(t'.orgs, l.orgId) {
      var o :| o in t.orgs && o.id == l.orgId;
      assert o in t'.orgs;
    }
  }

  /** `deleteOrganization(db, id)`: deletes the row with that id and
      returns how many rows were deleted, one or none. */
  method DeleteOrganization(db: Db, id: Id) returns (count: nat)
    requires db.Valid()
    modifies db
    ensures db.Valid()
    ensures db.Snapshot() == DeleteTables(old(db.Snapshot()), id)
    ensures db.nextId == old(db.nextId)
    ensures count == |old(db.organizations)| - |db.organizations|
    ensures count == if HasOrg(old(db.organizations), id) then 1 else 0
  {
    var before := db.organizations;
    DeleteKeepsConsistent(db.Snapshot(), id);
    DeleteCount(before, id);
    db.organizations := FilterOrgs(db.organizations, OtherThan(id));
    db.orgCauses := WithoutOrg(db.orgCauses, id);
    count := |before| - |db.organizations|;
  }

  /** After a delete the organization has no association rows, is in no
      listing, and every other organization is listed as before, in order,
      with all of its causes. */
  lemma DeleteEffect(t: DbTables, id: Id, term: string, names: Option<seq<string>>)
    requires Consistent(t)
    ensures GetByOrgId(DeleteTables(t, id).orgCauses, id) == []
    ensures GetFullById(DeleteTables(t, id), id) == None
    ensures forall f :: f in GetAllFullOrganizations(DeleteTables(t, id), term, names) ==> f.org.id != id
    ensures GetAllFullOrganizations(DeleteTables(t, id), "", None)
         == MakeFullOrganizations(FilterOrgs(t.orgs, OtherThan(id)), t.causes, t.orgCauses)
  {
    DeleteKeepsConsistent(t, id);
    WithoutOrgByOrg(t.orgCauses, id, id);
    GetFullByIdIsFixture(DeleteTables(t, id), id);
    DeletedNotListed(t, id, term, names);
    DeleteDefaultListing(t, id);
  }

  lemma DeletedNotListed(t: DbTables, id: Id, term: string, names: Option<seq<string>>)
    requires Consistent(DeleteTables(t, id))
    ensures forall f :: f in GetAllFullOrganizations(DeleteTables(t, id), term, names) ==> f.org.id != id
  {
    var t' := DeleteTables(t, id);
    var r := GetAllFullOrganizations(t', term, names);
    forall f | f in r ensures f.org.id != id {
      var k :| 0 <= k < |r| && r[k] == f;
      GetAllFullMembers(t', term, names, f.org);
    }
  }

  lemma DeleteDefaultListing(t: DbTables, id: Id)
    requires Consistent(DeleteTables(t, id))
    ensures GetAllFullOrganizations(DeleteTables(t, id), "", None)
         == MakeFullOrganizations(FilterOrgs(t.orgs, OtherThan(id)), t.causes, t.orgCauses)
  {
    var t' := DeleteTables(t, id);
    GetAllFullDefault(t');
    var kept := FilterOrgs(t.orgs, OtherThan(id));
    forall i | 0 <= i < |kept|
      ensures GetByOrgId(t'.orgCauses, kept[i].id) == GetByOrgId(t.orgCauses, kept[i].id)
    {
      assert kept[i] in kept;
      WithoutOrgByOrg(t.orgCauses, id, kept[i].id);
    }
  }
}
