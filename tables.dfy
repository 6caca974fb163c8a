/** The relational state the services work on: the `organizations`, `causes`
    and `org_causes` tables held as sequences, the flat rows of the
    organization/cause join, and the aggregated "full organization" record. */
module Tables {

  datatype Option<+T> = None | Some(value: T)

  /** The error kinds the services surface. */
  datatype Error =
    | DuplicateAssociation   // an (org_id, cause_id) pair that is already stored
    | MissingReference       // an org_causes row naming an organization or cause that does not exist
    | TypeError              // a JavaScript TypeError, e.g. calling `.map` on an undefined `causes`

  datatype Result<+T> = Ok(value: T) | Err(error: Error)

  /** Ids are generated by a serial column, so they start at 1; in particular
      every id is truthy in JavaScript. */
  type Id = x: int | x > 0 witness 1

  /** A row of `organizations`. `org_name` and `org_desc` are required; the
      other text columns may be NULL (`None`). */
  datatype Org = Org(
    id: Id,
    orgName: string,
    website: Option<string>,
    phone: Option<string>,
    email: Option<string>,
    orgAddress: Option<string>,
    orgDesc: string)

  /** A row of `causes`. */
  datatype Cause = Cause(id: Id, causeName: string)

  /** A row of the `org_causes` junction table; the pair is its identity. */
  datatype OrgCause = OrgCause(orgId: Id, causeId: Id)

  /** One row of the left join organizations -> org_causes -> causes: the
      organization's columns plus `cause_id`/`cause_name`, both NULL
      (`None`) when no cause row was joined. */
  datatype Row = Row(org: Org, cause: Option<Cause>)

  /** An organization with a `causes` list. An element is `None` where the
      JavaScript object holds a null-valued (or undefined) cause. */
  datatype FullOrg = FullOrg(org: Org, causes: seq<Option<Cause>>)

  /** The three tables at one moment. */
  datatype DbTables = DbTables(orgs: seq<Org>, causes: seq<Cause>, orgCauses: seq<OrgCause>)

  /** The organizations table is kept in the order `orderBy('o.id')` gives. */
  ghost predicate IdsAscending(orgs: seq<Org>) {
    forall i, j :: 0 <= i < j < |orgs| ==> orgs[i].id < orgs[j].id
  }

  ghost predicate UniqueCauseIds(causes: seq<Cause>) {
    forall i, j :: 0 <= i < j < |causes| ==> causes[i].id != causes[j].id
  }

  ghost predicate NoDuplicatePairs(links: seq<OrgCause>) {
    forall i, j :: 0 <= i < j < |links| ==> links[i] != links[j]
  }

  predicate HasOrg(orgs: seq<Org>, id: Id) {
    exists o :: o in orgs && o.id == id
  }

  predicate HasCause(causes: seq<Cause>, id: Id) {
    exists c :: c in causes && c.id == id
  }

  /** Every association row references an existing organization and cause. */
  ghost predicate LinksResolve(t: DbTables) {
    forall l :: l in t.orgCauses ==> HasOrg(t.orgs, l.orgId) && HasCause(t.causes, l.causeId)
  }

  /** The integrity constraints of the store. */
  ghost predicate Consistent(t: DbTables) {
    && IdsAscending(t.orgs)
    && UniqueCauseIds(t.causes)
    && NoDuplicatePairs(t.orgCauses)
    && LinksResolve(t)
  }

  /** `causes.find((cause) => cause.id === id)`: the first cause with that id,
      or undefined. */
  function FindCause(causes: seq<Cause>, id: Id): (r: Option<Cause>)
    ensures r.Some? <==> HasCause(causes, id)
    ensures r.Some? ==> r.value in causes && r.value.id == id
    ensures r.Some? && UniqueCauseIds(causes) ==> forall c :: c in causes && c.id == id ==> c == r.value
  {
    if causes == [] then None
    else if causes[0].id == id then Some(causes[0])
    else FindCause(causes[1..], id)
  }

  /** The database: the three tables and the serial counter behind
      `organizations.id`. */
  class Db {
    var organizations: seq<Org>
    var causes: seq<Cause>
    var orgCauses: seq<OrgCause>
    var nextId: Id

    function Snapshot(): DbTables
      reads this
    {
      DbTables(organizations, causes, orgCauses)
    }

    ghost predicate Valid()
      reads this
    {
      && Consistent(Snapshot())
      && forall o :: o in organizations ==> o.id < nextId
    }

    /** A database whose `causes` table is filled and whose other tables were
        truncated with RESTART IDENTITY. */
    constructor (causes: seq<Cause>)
      requires UniqueCauseIds(causes)
      ensures Valid()
      ensures organizations == [] && this.causes == causes && orgCauses == [] && nextId == 1
    {
      organizations := [];
      this.causes := causes;
      orgCauses := [];
      nextId := 1;
    }
  }
}
