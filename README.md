# Volunteer finder API: organizations, their causes and request validation

The volunteer finder API stores volunteer organizations in three tables:
- `organizations` holds the scalar fields of an organization;
- `causes` holds the cause names;
- `org_causes` is the junction table linking an organization id to a cause id.

This project models the part of the backend that holds logic:

- **Organization aggregation** (`src/organizations/organizations-service.js`):
  - the left join of organizations → org_causes → causes (`OrgJoin`);
  - the fold that groups the joined rows into one record per organization with a `causes` list (`OrgGrouping`);
  - the search-term and cause-name filters, the ordering by id, and the lookups by id (`OrgQueries`);
  - insert, update and delete of an organization, as methods over a database object (`OrgWrites`).
- **Junction-table accessor** (`src/org_causes/org_causes-service.js`). It offers list, filter by organization, filter by cause, insert a pair and delete a pair (`OrgCausesService`).
- **Request validation** (`src/util.js`). It provides the validator combinators `validateRequired`, `validateString` and `validateNumber`; the generic `validate`; and the POST and PATCH organization validators (`Validation`).

The database is replaced by in-memory tables:
- `Tables.Db` is a class whose sequence fields the write methods reassign.
- `Tables.DbTables` is a value snapshot of those tables, used by the query functions and by the specifications of the writes.
- An `Id` is a positive integer.
- A nullable column is an `Option`.

Table consistency (`Tables.Consistent`) has four parts:
- ids are strictly ascending in the organizations table;
- cause ids are unique;
- pairs in `org_causes` are unique;
- every pair refers to a stored organization and a stored cause.

The model assumes this consistency: a primary key on organizations and on causes, a unique pair in `org_causes`, foreign keys, and organization rows stored in id order. No schema is part of the source, and nothing there keeps rows in id order. Every write method proves that it keeps the consistency.

The group-by fold `_convertToJavaScript` has a declarative specification, `OrgGrouping.GroupSpec`:
- one record per distinct id, in order of first appearance;
- the record's scalar fields come from that id's first row;
- its causes are the causes of that id's rows, in row order;
- a lone row with no cause gives an empty list.

The imperative loop `OrgGrouping.ConvertToJavaScript` is proved equal to it.

The test fixture `makeFullOrganizationsArray` is modelled as `OrgJoin.MakeFullOrganizations`. Grouping the join of consistent tables is proved equal to it. The listing and lookup queries are then stated in terms of that fixture.

The validator works over a small JavaScript value type (`Undefined | Null | Bool | Num | Str | Other`) with an explicit falsiness predicate. A validator *kind* (`Required`, `IsString`, `IsNumber`) replaces the source's test of the function name `validateRequired`.

## Model

| member | source | states |
|---|---|---|
| Tables.FindCause | test/organizations-fixtures.js:177-179 | a cause is found iff one with that id is stored; the found cause is stored and has that id, and is the only one when cause ids are unique |
| OrgCausesService.GetAllOrgCauses | src/org_causes/org_causes-service.js:2-4 | returns every junction row, element by element, so an empty table gives an empty list |
| OrgCausesService.GetByOrgId | src/org_causes/org_causes-service.js:5-7 | a row is returned iff it is in the table and has that organization id; never more rows than the table |
| OrgCausesService.GetByOrgIdKeepsAll | src/org_causes/org_causes-service.js:5-7 | the result is as long as the table iff every row has that organization id |
| OrgCausesService.GetByOrgIdConcat | src/org_causes/org_causes-service.js:5-7 | filtering by organization keeps table order: it distributes over concatenation |
| OrgCausesService.GetByCauseId | src/org_causes/org_causes-service.js:8-10 | a row is returned iff it is in the table and has that cause id; never more rows than the table |
| OrgCausesService.GetByCauseIdKeepsAll | src/org_causes/org_causes-service.js:8-10 | the result is as long as the table iff every row has that cause id |
| OrgCausesService.GetByCauseIdConcat | src/org_causes/org_causes-service.js:8-10 | filtering by cause keeps table order: it distributes over concatenation |
| OrgCausesService.WithoutPair | src/org_causes/org_causes-service.js:15-17 | the rows left by a pair delete are exactly the rows different from the pair; deleting an absent pair leaves the table unchanged |
| OrgCausesService.WithoutPairKeepsDistinct | src/org_causes/org_causes-service.js:15-17 | deleting a pair keeps the pairs of the table unique |
| OrgCausesService.WithoutPairShrinks | src/org_causes/org_causes-service.js:15-17 | deleting a stored pair removes at least one row |
| OrgCausesService.InsertOrgCause | src/org_causes/org_causes-service.js:11-14 | the insert succeeds iff the pair is new and both its organization and cause exist; on success the pair is returned and appended after all earlier rows; a duplicate is refused as a duplicate and a dangling reference as a missing reference, with the table unchanged |
| OrgCausesService.DeleteOrgCause | src/org_causes/org_causes-service.js:15-17 | the table becomes exactly the rows other than the pair, in order; the returned count is the number of rows removed, and it is 0 iff the pair was absent |
| OrgCausesService.WithoutOrg | src/organizations/organizations-service.js:179-181 | the rows left after removing an organization's associations are exactly those of other organizations |
| OrgCausesService.WithoutOrgConcat | src/organizations/organizations-service.js:179-181 | removing an organization's associations keeps table order |
| OrgCausesService.WithoutOrgNoop | src/organizations/organizations-service.js:179-181 | removing the associations of an organization that has none changes nothing |
| OrgCausesService.WithoutOrgByOrg | src/organizations/organizations-service.js:179-181 | afterwards that organization has no associations and every other organization keeps exactly its own |
| OrgGrouping.RowIds | src/organizations/organizations-service.js:194 | the id column of the rows, one per row |
| OrgGrouping.Distinct | src/organizations/organizations-service.js:192-197 | the ids seen, each once: an id is in it iff it occurs in the input |
| OrgGrouping.DistinctUnique | src/organizations/organizations-service.js:192-197 | no id appears twice in the list of seen ids |
| OrgGrouping.RowsOf | src/organizations/organizations-service.js:197-203 | a row belongs to an id's group iff it is in the input with that id |
| OrgGrouping.FirstRowOf | src/organizations/organizations-service.js:204-207 | the first row of an id's group is the first input row with that id |
| OrgGrouping.Record | src/organizations/organizations-service.js:204-218 | the record built for an id carries that id |
| OrgGrouping.RecordContents | src/organizations/organizations-service.js:197-218 | a record's scalar fields come from its id's first row; its causes are the causes of all of that id's rows in order, minus a leading null cause; a lone row with a null cause gives an empty cause list |
| OrgGrouping.GroupSpec | src/organizations/organizations-service.js:188-225 | one record per distinct id, in order of first appearance |
| OrgGrouping.GroupSpecHasRecord | src/organizations/organizations-service.js:188-225 | every id in the rows has a record |
| OrgGrouping.GroupSpecSnocNew | src/organizations/organizations-service.js:204-220 | a row with an unseen id appends a new record with the row's scalar fields and its cause, or with no cause when the cause is null |
| OrgGrouping.GroupSpecSnocSeen | src/organizations/organizations-service.js:197-203 | a row with a seen id only appends its cause to that id's record |
| OrgGrouping.FindRecord | src/organizations/organizations-service.js:198 | finds the first record with the given id |
| OrgGrouping.ConvertToJavaScript | src/organizations/organizations-service.js:188-225 | the loop with its `seen` set returns exactly the grouping specification of its rows |
| OrgJoin.LinkRows | src/organizations/organizations-service.js:19-20 | an organization's joined rows all carry that organization; each cause in them is stored and linked to it |
| OrgJoin.OrgRows | src/organizations/organizations-service.js:18-20 | the left join gives every organization at least one row; the causes of its rows are stored and linked to it |
| OrgJoin.JoinTables | src/organizations/organizations-service.js:5-21 | every joined row carries a stored organization, and every cause in a row is stored and linked to that organization |
| OrgJoin.JoinOrgsCovers | src/organizations/organizations-service.js:18-20 | no organization is lost by the left join |
| OrgJoin.LinkRowsResolved | src/organizations/organizations-service.js:19-20 | with resolvable links, an organization gets exactly one row per association, carrying that association's cause |
| OrgJoin.LinkedCauses | test/organizations-fixtures.js:172-179 | one cause per association, looked up by cause id |
| OrgJoin.MakeFullOrganizations | test/organizations-fixtures.js:165-183 | one record per organization, in table order, carrying the causes of its associations in junction-table order |
| OrgJoin.GroupSpecConcat | src/organizations/organizations-service.js:188-225 | grouping rows of disjoint organizations is grouping each part |
| OrgJoin.GroupOrgRows | src/organizations/organizations-service.js:188-225 | grouping one organization's joined rows gives one record with the fixture's causes, including the empty list |
| OrgJoin.ConvertJoinOrgs | src/organizations/organizations-service.js:5-21 | for organizations in ascending id order, grouping their join equals the fixture reference |
| OrgJoin.ConvertJoinIsFixture | test/organizations-fixtures.js:165-183 | over consistent tables, grouping the join equals the fixture: each organization appears once, with the causes named by its junction rows |
| OrgQueries.Lower | src/organizations/organizations-service.js:30-32 | lower-cases ASCII letters and keeps every other character, position by position |
| OrgQueries.LowerIdempotent | src/organizations/organizations-service.js:30-32 | lower-casing twice is lower-casing once |
| OrgQueries.IsSubstring | src/organizations/organizations-service.js:30-32 | true iff the pattern occurs at some position of the text |
| OrgQueries.ILikeEmpty | src/organizations/organizations-service.js:27 | the default empty search term matches every value |
| OrgQueries.ILikeCaseInsensitive | src/organizations/organizations-service.js:30-32 | the match ignores ASCII case on both sides |
| OrgQueries.ILike | src/organizations/organizations-service.js:30-32 | the empty term matches every value, and a term longer than the value never matches; `IsSubstring` and `ILikeCaseInsensitive` give the substring and case-insensitivity reading |
| OrgQueries.MatchesTerm | src/organizations/organizations-service.js:28-33 | the empty term keeps every organization, and a term longer than the name, description and address keeps none; a NULL address matches nothing; `GetAllFullMembers` states the listing it yields |
| OrgQueries.HasAcceptableCause | src/organizations/organizations-service.js:37-60 | an empty name list admits no organization, and an admitted organization is stored and has at least one association; `CauseFilterByRecord` ties it to the causes of the organization's own record |
| OrgQueries.KeepOrg | src/organizations/organizations-service.js:27-60 | the default empty term with no cause list keeps every organization, while an empty cause array, which is truthy, keeps none; `GetAllFullMembers` states that exactly the kept organizations are listed |
| OrgQueries.WhereOrg | src/organizations/organizations-service.js:28-60 | a joined row is kept iff its organization passes the filter |
| OrgQueries.FilterOrgs | src/organizations/organizations-service.js:28-60 | an organization is kept iff it passes the filter |
| OrgQueries.WhereJoin | src/organizations/organizations-service.js:28-60 | filtering joined rows by organization equals joining the filtered organizations |
| OrgQueries.FilterOrgsAscending | src/organizations/organizations-service.js:62 | filtering keeps ids ascending |
| OrgQueries.OrderById | src/organizations/organizations-service.js:62 | ordering by id returns a permutation of the rows that is sorted by id |
| OrgQueries.OrderByIdSorted | src/organizations/organizations-service.js:62 | ordering rows that are already sorted by id leaves them as they are |
| OrgQueries.JoinOrgsSorted | src/organizations/organizations-service.js:5-21 | the join of organizations in ascending id order is sorted by id |
| OrgQueries.GroupSpecAscending | src/organizations/organizations-service.js:62 | grouping rows sorted by id gives records in strictly ascending id order |
| OrgQueries.GetAllFullOrganizations | src/organizations/organizations-service.js:27-63 | the listing is strictly ascending by id |
| OrgQueries.GetAllFullIsFixture | src/organizations/organizations-service.js:27-63 | over consistent tables, the listing is the fixture reference applied to the organizations that pass the term and cause filters |
| OrgQueries.GetAllFullMembers | src/organizations/organizations-service.js:27-63 | an organization is listed iff it is stored and its name, address or description contains the term case-insensitively and, when cause names are given, it has one of them; a listed organization carries all of its causes |
| OrgQueries.GetAllFullDefault | src/organizations/organizations-service.js:27 | with the default empty term and no cause list, every organization is listed with its causes |
| OrgQueries.CauseFilterByRecord | src/organizations/organizations-service.js:37-60 | the existence filter admits an organization iff one of the causes in its own record has an accepted name |
| OrgQueries.GetById | src/organizations/organizations-service.js:64-66 | an organization is found iff one with that id is stored; the found row is stored and has that id |
| OrgQueries.GetByIdFirst | src/organizations/organizations-service.js:64-66 | the found row is the first stored row with that id |
| OrgQueries.FilterById | src/organizations/organizations-service.js:69 | over ascending ids, the id filter keeps exactly the one organization with that id, or none |
| OrgQueries.GetFullById | src/organizations/organizations-service.js:68-72 | gives undefined when no organization has the id, and otherwise a record carrying that id; `GetFullByIdIsFixture` states that the record is the fixture's |
| OrgQueries.GetFullByIdIsFixture | src/organizations/organizations-service.js:68-72 | over consistent tables, the full lookup gives nothing for an unknown id and otherwise the organization with the causes of its junction rows |
| OrgQueries.GetFullByIdAgreesWithGetById | src/organizations/organizations-service.js:64-72 | the full lookup finds an organization iff the plain lookup does, with the same scalar fields |
| OrgWrites.NewLinks | src/organizations/organizations-service.js:104-110 | one association per supplied cause, in order, each linking the new id to that cause |
| OrgWrites.BuildOrgCauses | src/organizations/organizations-service.js:104-110 | the push loop builds exactly those associations |
| OrgWrites.InsertLinks | src/organizations/organizations-service.js:112-115 | inserting the associations one after another succeeds iff each is new and resolves; on success all are appended in order, otherwise only a prefix was appended before the refusal |
| OrgWrites.NewLinksInsertable | src/organizations/organizations-service.js:103-115 | for a fresh id, the new associations can all be inserted iff every supplied cause exists and no cause is supplied twice |
| OrgWrites.InsertTables | src/organizations/organizations-service.js:100-117 | the insert's effect leaves the causes table unchanged |
| OrgWrites.InsertOrganization | src/organizations/organizations-service.js:80-118 | a payload without `causes` fails with a TypeError; otherwise the insert succeeds iff all supplied causes exist and are distinct; the returned row has the next serial id and exactly the supplied scalar fields; on success the tables become the row appended and one association per cause appended in order; on failure the transaction leaves both tables unchanged; the serial counter advances either way |
| OrgWrites.AppendOrgKeepsConsistent | src/organizations/organizations-service.js:101 | appending a row with an id above all stored ids keeps the tables consistent |
| OrgWrites.InsertRoundTrip | src/organizations/organizations-service.js:80-118 | after an insert, the new organization's associations are exactly one per supplied cause, and its full lookup returns the inserted row with those causes |
| OrgWrites.ApplyPatch | src/organizations/organizations-service.js:154-158 | a patch never changes the id |
| OrgWrites.ApplyPatchFields | src/organizations/organizations-service.js:138-158 | each supplied scalar field is overwritten and each unsupplied one kept; applying the same patch twice is applying it once |
| OrgWrites.PatchOrgs | src/organizations/organizations-service.js:155-158 | the update touches only rows with that id and keeps every id |
| OrgWrites.PatchOrgsHasOrg | src/organizations/organizations-service.js:155-158 | the update neither adds nor removes an organization and keeps ids ascending |
| OrgWrites.UpdateTables | src/organizations/organizations-service.js:154-177 | the update leaves the causes table unchanged, and leaves the associations unchanged when no causes are supplied |
| OrgWrites.WithoutLinks | src/organizations/organizations-service.js:163-167 | the rows left after deleting a list of pairs are exactly the rows not in that list |
| OrgWrites.WithoutLinksByOrg | src/organizations/organizations-service.js:161-167 | deleting every pair read for an organization removes exactly that organization's associations |
| OrgWrites.DeleteOrgLinks | src/organizations/organizations-service.js:161-167 | reading an organization's associations and deleting them one by one leaves exactly the other organizations' associations |
| OrgWrites.UpdateOrganization | src/organizations/organizations-service.js:127-178 | absent causes fail before any write; otherwise the update succeeds iff the cause list is empty, or the organization exists and every supplied cause exists and is distinct; on success the tables become the specified update; on failure the organization row is rolled back |
| OrgWrites.UpdateIdempotent | src/organizations/organizations-service.js:127-178 | repeating the same update gives the same tables, and an update neither creates nor removes the organization |
| OrgWrites.UpdateEffect | src/organizations/organizations-service.js:127-178 | other organizations' rows and associations are unchanged; the organization becomes its patched row; with a non-empty cause list its associations become exactly one per supplied cause |
| OrgWrites.DeleteTables | src/organizations/organizations-service.js:179-181 | after a delete, exactly the other organizations and the other organizations' associations remain |
| OrgWrites.DeleteCount | src/organizations/organizations-service.js:179-181 | over ascending ids, a delete removes one organization if the id is stored and none otherwise |
| OrgWrites.DeleteKeepsConsistent | src/organizations/organizations-service.js:179-181 | a delete keeps the tables consistent |
| OrgWrites.DeleteOrganization | src/organizations/organizations-service.js:179-181 | the tables become the specified delete; the returned count is 1 if the organization was stored and 0 otherwise |
| OrgWrites.DeleteEffect | src/organizations/organizations-service.js:179-181 | afterwards the organization has no associations, its full lookup gives nothing, it appears in no listing, and the default listing is the fixture over the remaining organizations |
| Validation.Check | src/util.js:1-17 | the required check reports iff the value is falsy, the string check iff it is not a string, the number check iff it is not a number, each with its exact message |
| Validation.Messages | src/util.js:34-35 | a field yields at most one message per validator; `MessagesMembers`, `MessagesConcat` and `MessagesOne` state that the messages are exactly those of the failing validators, in validator order |
| Validation.MessagesMembers | src/util.js:34-35 | a message appears iff some validator of the field returns it |
| Validation.MessagesConcat | src/util.js:34-35 | messages come in validator order: a concatenated validator list gives the first part's messages followed by the second's |
| Validation.MessagesOne | src/util.js:34-35 | a single validator contributes exactly its message when it reports one, and nothing otherwise |
| Validation.MessagesEmpty | src/util.js:34-35 | a field yields no message iff every one of its validators passes |
| Validation.FieldErrors | src/util.js:26-37 | a field without a required check whose value is falsy yields nothing; otherwise it yields the messages of all its validators in order |
| Validation.ValidationErrors | src/util.js:24-41 | a body whose every field is unrequired and falsy yields no errors; `ValidationErrorsConcat` and `ValidationErrorsEmpty` give the ordering and emptiness, and `Validate` is proved equal to it |
| Validation.ValidationErrorsConcat | src/util.js:24-41 | errors are ordered by field order: validating a concatenation of rules concatenates their errors |
| Validation.ValidationErrorsEmpty | src/util.js:24-41 | there are no errors iff no field yields one |
| Validation.Validate | src/util.js:24-41 | the loop returns exactly the specified errors |
| Validation.ValidateOrganizationPost | src/util.js:43-51 | returns the specified errors; they are empty iff the name and description are non-empty strings, the creator is a non-zero number, and website, phone, email and address are each falsy or a string |
| Validation.PostAccepts | src/util.js:43-51 | the POST rules accept a body iff it meets the conditions above |
| Validation.PostRuleChecks | src/util.js:43-51 | each of the seven POST rules passes iff its own field meets its condition |
| Validation.MissingOrgName | test/organizations-endpoints.spec.js:277-278 | a body without a name starts with "'org_name' is missing from the request body" followed by "'org_name' must be a string" |
| Validation.MissingRequiredString | src/util.js:1-11 | a missing required string field yields the missing message and then the must-be-a-string message |
| Validation.ProvidedCount | src/util.js:57 | counts the truthy values: zero iff every value is falsy |
| Validation.PatchErrors | src/util.js:53-75 | the "Request body must include" message appears iff no value in the body is truthy; `PatchOnlyTypeErrors` states that the other errors are type errors |
| Validation.ValidateOrganizationPatch | src/util.js:53-75 | a body with no truthy value yields exactly the single request-body message; otherwise the PATCH field checks run |
| Validation.PatchOnlyTypeErrors | src/util.js:63-74 | once some value is truthy, every PATCH error is a must-be-a-string or must-be-a-number message, never a missing message |
| Validation.PatchUnknownKeyCounts | src/util.js:57 | a truthy value under a key that is no organization field counts as provided, and the body then has no errors |

## Left out

- The Express routers, `app.js` and `server.js` are HTTP routing, middleware, logging and `listen`. They hold no logic of the core.
- XSS sanitisation in the routers uses an outside library whose escaping rules are not visible. It is not modelled.
- The causes and users services are one-line knex wrappers. The causes table is a sequence the join reads. Users are never joined by this code.
- `getAllOrganizations` (src/organizations/organizations-service.js:22-24) returns the raw organizations table. It appears only inside `GetById`.
- SQL text, the query builder and `returning('*')` are not modelled. Each query is modelled by its result.
- OrgJoin.JoinTables fixes one row order within an organization: junction-table order. SQL leaves this order open, because only `o.id` is ordered, and the tests compare against junction-table order.
- OrgQueries.ILike is ASCII case-insensitive substring matching that reads every character of the term literally. The wildcards `%` and `_` inside a search term are not modelled. Nor is the escape character `\`: in the pattern `%term%` it escapes the next character, so a term holding `\` (or ending in it) gives a different listing in the real system. Locale case folding is not modelled either.
- OrgWrites.InsertLinks runs the `Promise.all` fan-out of inserts one after another and stops at the first refusal. Concurrent interleaving is not modelled.
- OrgWrites.UpdateOrganization requires at least one supplied scalar field. What knex does with an update that has nothing to set is not modelled.
- OrgWrites.UpdateOrganization rolls back only the organization row on failure. The source replaces associations through `db` rather than the transaction (src/organizations/organizations-service.js:162, 166, 172), so associations deleted or inserted before a refusal stay changed. The contract therefore does not claim that the update is all-or-nothing.
- OrgWrites.ApplyPatch treats a field as supplied when it is present. Clearing a nullable column to NULL through a patch is not modelled.
- OrgWrites.DeleteOrganization removes the organization and its associations. The source deletes through the joined query (src/organizations/organizations-service.js:180). Removing the associations relies on a cascade in a schema that is not part of this model. Only the effect the tests check is modelled.
- Tables.Db keeps the serial counter as `nextId`. A failed insert does not roll it back, matching a database sequence. Fresh ids are this counter, not any unused id. Seeding organizations with explicit ids, which leaves the counter below the stored ids, is outside the model: a valid `Tables.Db` keeps every stored id below the counter, and its constructor seeds only causes.
- Consistency of the tables is a precondition rather than an enforced constraint. This covers unique pairs, foreign keys and ascending ids. The database schema is not part of this model.
- The `creator` column is validated by the POST validator, but the service never writes or joins it. The model follows the service.
- Validation.JsValue has integers only. Floating-point numbers and `NaN`, which is a falsy number, are not modelled.
