/** The junction-table accessor of src/org_causes/org_causes-service.js: three
    filters over the `org_causes` table and the two statements that insert or
    delete one pair. */
module OrgCausesService {
  import opened Tables

  /** `getAllOrgCauses`: every row of the table, in table order. */
  function GetAllOrgCauses(db: Db): (r: seq<OrgCause>)
    reads db
    ensures |r| == |db.orgCauses|
    ensures forall i :: 0 <= i < |r| ==> r[i] == db.orgCauses[i]
  {
    db.orgCauses
  }

  /** `getByOrgId`: the rows whose `org_id` is `orgId`, in table order. */
  function GetByOrgId(table: seq<OrgCause>, orgId: Id): (r: seq<OrgCause>)
    ensures forall p :: p in r <==> p in table && p.orgId == orgId
    ensures |r| <= |table|
  {
    if table == [] then []
    else (if table[0].orgId == orgId then [table[0]] else []) + GetByOrgId(table[1..], orgId)
  }

  /** `getByOrgId` returns the whole table iff every row belongs to `orgId`. */
  lemma {:induction false} GetByOrgIdKeepsAll(table: seq<OrgCause>, orgId: Id)
    ensures |GetByOrgId(table, orgId)| == |table| <==> forall p :: p in table ==> p.orgId == orgId
  {
    if table != [] {
      GetByOrgIdKeepsAll(table[1..], orgId);
      assert table[0] in table;
      assert forall p :: p in table[1..] ==> p in table;
      assert forall p :: p in table ==> p == table[0] || p in table[1..];
    }
  }

  /** `getByCauseId`: the rows whose `cause_id` is `causeId`, in table order. */
  function GetByCauseId(table: seq<OrgCause>, causeId: Id): (r: seq<OrgCause>)
    ensures forall p :: p in r <==> p in table && p.causeId == causeId
    ensures |r| <= |table|
  {
    if table == [] then []
    else (if table[0].causeId == causeId then [table[0]] else []) + GetByCauseId(table[1..], causeId)
  }

  /** `getByCauseId` returns the whole table iff every row names `causeId`. */
  lemma {:induction false} GetByCauseIdKeepsAll(table: seq<OrgCause>, causeId: Id)
    ensures |GetByCauseId(table, causeId)| == |table| <==> forall p :: p in table ==> p.causeId == causeId
  {
    if table != [] {
      GetByCauseIdKeepsAll(table[1..], causeId);
      assert table[0] in table;
      assert forall p :: p in table[1..] ==> p in table;
      assert forall p :: p in table ==> p == table[0] || p in table[1..];
    }
  }

  /** The table after `deleteOrgCause(orgId, causeId)`: every other row, in order. */
  function WithoutPair(table: seq<OrgCause>, orgId: Id, causeId: Id): (r: seq<OrgCause>)
    ensures forall p :: p in r <==> p in table && p != OrgCause(orgId, causeId)
    ensures |r| <= |table|
    ensures OrgCause(orgId, causeId) !in table ==> r == table
  {
    if table == [] then []
    else (if table[0] == OrgCause(orgId, causeId) then [] else [table[0]])
         + WithoutPair(table[1..], orgId, causeId)
  }

  /** The table without any row of organization `orgId`, in order: what the
      cascade on deleting that organization leaves. */
  function WithoutOrg(table: seq<OrgCause>, orgId: Id): (r: seq<OrgCause>)
    ensures forall p :: p in r <==> p in table && p.orgId != orgId
    ensures |r| <= |table|
  {
    if table == [] then []
    else (if table[0].orgId == orgId then [] else [table[0]]) + WithoutOrg(table[1..], orgId)
  }

  /** Filtering distributes over concatenation: together with the membership
      clauses above this pins `GetByOrgId` down as the order-keeping filter. */
  lemma {:induction false} GetByOrgIdConcat(a: seq<OrgCause>, b: seq<OrgCause>, orgId: Id)
    ensures GetByOrgId(a + b, orgId) == GetByOrgId(a, orgId) + GetByOrgId(b, orgId)
  {
    if a != [] {
      assert (a + b)[0] == a[0];
      assert (a + b)[1..] == a[1..] + b;
      GetByOrgIdConcat(a[1..], b, orgId);
      if a[0].orgId == orgId {
        assert [a[0]] + (GetByOrgId(a[1..], orgId) + GetByOrgId(b, orgId))
            == ([a[0]] + GetByOrgId(a[1..], orgId)) + GetByOrgId(b, orgId);
      }
    } else {
      assert a + b == b;
    }
  }


  lemma {:induction false} GetByCauseIdConcat(a: seq<OrgCause>, b: seq<OrgCause>, causeId: Id)
    ensures GetByCauseId(a + b, causeId) == GetByCauseId(a, causeId) + GetByCauseId(b, causeId)
  {
    if a != [] {
      assert (a + b)[0] == a[0];
      assert (a + b)[1..] == a[1..] + b;
      GetByCauseIdConcat(a[1..], b, causeId);
      if a[0].causeId == causeId {
        assert [a[0]] + (GetByCauseId(a[1..], causeId) + GetByCauseId(b, causeId))
            == ([a[0]] + GetByCauseId(a[1..], causeId)) + GetByCauseId(b, causeId);
      }
    } else {
      assert a + b == b;
    }
  }


  lemma {:induction false} WithoutOrgConcat(a: seq<OrgCause>, b: seq<OrgCause>, orgId: Id)
    ensures WithoutOrg(a + b, orgId) == WithoutOrg(a, orgId) + WithoutOrg(b, orgId)
  {
    if a != [] {
      assert (a + b)[0] == a[0];
      assert (a + b)[1..] == a[1..] + b;
      WithoutOrgConcat(a[1..], b, orgId);
      if a[0].orgId != orgId {
        assert [a[0]] + (WithoutOrg(a[1..], orgId) + WithoutOrg(b, orgId))
            == ([a[0]] + WithoutOrg(a[1..], orgId)) + WithoutOrg(b, orgId);
      }
    } else {
      assert a + b == b;
    }
  }


  /** Rows already free of `orgId` are left as they are. */
  lemma {:induction false} WithoutOrgNoop(table: seq<OrgCause>, orgId: Id)
    requires forall p :: p in table ==> p.orgId != orgId
    ensures WithoutOrg(table, orgId) == table
  {
    if table != [] {
      WithoutOrgNoop(table[1..], orgId);
    }
  }

  /** Deleting every row of an organization, then asking for its rows, gives none;
      the rows of other organizations are untouched. */
  lemma {:induction false} WithoutOrgByOrg(table: seq<OrgCause>, orgId: Id, other: Id)
    ensures GetByOrgId(WithoutOrg(table, orgId), orgId) == []
    ensures other != orgId ==> GetByOrgId(WithoutOrg(table, orgId), other) == GetByOrgId(table, other)
  {
    if table != [] {
      WithoutOrgByOrg(table[1..], orgId, other);
      var head := if table[0].orgId == orgId then [] else [table[0]];
      GetByOrgIdConcat(head, WithoutOrg(table[1..], orgId), orgId);
      GetByOrgIdConcat(head, WithoutOrg(table[1..], orgId), other);
    }
  }

  /** `insertOrgCause(p)`: appends `p` and returns it. The store refuses a
      pair it already holds and a pair whose organization or cause does not
      exist; the table is then unchanged. */
  method InsertOrgCause(db: Db, p: OrgCause) returns (r: Result<OrgCause>)
    requires db.Valid()
    modifies db
    ensures db.Valid()
    ensures db.organizations == old(db.organizations) && db.causes == old(db.causes)
    ensures db.nextId == old(db.nextId)
    ensures r.Ok? <==> p !in old(db.orgCauses) && HasOrg(db.organizations, p.orgId) && HasCause(db.causes, p.causeId)
    ensures r.Ok? ==> r.value == p && db.orgCauses == old(db.orgCauses) + [p]
    ensures r.Err? ==> db.orgCauses == old(db.orgCauses)
    ensures r.Err? && p in old(db.orgCauses) ==> r.error == DuplicateAssociation
    ensures r.Err? && p !in old(db.orgCauses) ==> r.error == MissingReference
  {
    if p in db.orgCauses {
      return Err(DuplicateAssociation);
    }
    if !(HasOrg(db.organizations, p.orgId) && HasCause(db.causes, p.causeId)) {
      return Err(MissingReference);
    }
    db.orgCauses := db.orgCauses + [p];
    r := Ok(p);
  }

  /** `deleteOrgCause(orgId, causeId)`: removes that pair if present and
      returns the number of rows deleted; an absent pair changes nothing. */
  method DeleteOrgCause(db: Db, orgId: Id, causeId: Id) returns (deleted: nat)
    requires db.Valid()
    modifies db
    ensures db.Valid()
    ensures db.organizations == old(db.organizations) && db.causes == old(db.causes)
    ensures db.nextId == old(db.nextId)
    ensures db.orgCauses == WithoutPair(old(db.orgCauses), orgId, causeId)
    ensures deleted == |old(db.orgCauses)| - |db.orgCauses|
    ensures deleted == 0 <==> OrgCause(orgId, causeId) !in old(db.orgCauses)
  {
    var before := db.orgCauses;
    db.orgCauses := WithoutPair(db.orgCauses, orgId, causeId);
    WithoutPairKeepsDistinct(before, orgId, causeId);
    if OrgCause(orgId, causeId) in before {
      WithoutPairShrinks(before, orgId, causeId);
    }
    deleted := |before| - |db.orgCauses|;
  }

  lemma {:induction false} WithoutPairKeepsDistinct(table: seq<OrgCause>, orgId: Id, causeId: Id)
    requires NoDuplicatePairs(table)
    ensures NoDuplicatePairs(WithoutPair(table, orgId, causeId))
  {
    if table != [] {
      WithoutPairKeepsDistinct(table[1..], orgId, causeId);
      var rest := WithoutPair(table[1..], orgId, causeId);
      var head := if table[0] == OrgCause(orgId, causeId) then [] else [table[0]];
      assert table[0] !in rest;
      assert WithoutPair(table, orgId, causeId) == head + rest;
    }
  }

  lemma {:induction false} WithoutPairShrinks(table: seq<OrgCause>, orgId: Id, causeId: Id)
    requires OrgCause(orgId, causeId) in table
    ensures |WithoutPair(table, orgId, causeId)| < |table|
  {
    if table[0] != OrgCause(orgId, causeId) {
      WithoutPairShrinks(table[1..], orgId, causeId);
    }
  }
}
