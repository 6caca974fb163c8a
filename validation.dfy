/** The request-body validator of src/util.js: three curried field
    validators, the generic `validate` loop that runs them field by field,
    and the two organization validators built on it.

    Request bodies are JavaScript objects; the model holds them as maps
    from key to a small JavaScript value type, where a missing key reads
    as `undefined`. */
module Validation {
  import opened Tables

  /** The JavaScript values a parsed JSON body can hold. `Other` is any
      object or array; numbers are modelled as integers (no NaN). */
  datatype JsValue = Undefined | Null | Bool(b: bool) | Num(n: int) | Str(s: string) | Other

  /** JavaScript falsiness: undefined, null, false, 0 and ''. */
  predicate Falsy(v: JsValue) {
    v.Undefined? || v.Null? || v == Bool(false) || v == Num(0) || v == Str("")
  }

  type Entity = map<string, JsValue>

  /** `entity[key]`. */
  function Get(e: Entity, key: string): JsValue {
    if key in e then e[key] else Undefined
  }

  /** `validateRequired`, `validateString` and `validateNumber`; the first is
      the one `validate` looks for by name. */
  datatype Validator = Required | IsString | IsNumber

  function MissingMessage(field: string): string {
    "'" + field + "' is missing from the request body"
  }

  function MustBeMessage(field: string, kind: string): string {
    "'" + field + "' must be a " + kind
  }

  /** `v(fieldName)(value)`: a message, or undefined when the value passes. */
  function Check(v: Validator, field: string, value: JsValue): (m: Option<string>)
    ensures v == Required ==> (m.Some? <==> Falsy(value))
    ensures v == IsString ==> (m.Some? <==> !value.Str?)
    ensures v == IsNumber ==> (m.Some? <==> !value.Num?)
    ensures m.Some? ==> m.value == match v
                                   case Required => MissingMessage(field)
                                   case IsString => MustBeMessage(field, "string")
                                   case IsNumber => MustBeMessage(field, "number")
  {
    match v
    case Required => if Falsy(value) then Some(MissingMessage(field)) else None
    case IsString => if !value.Str? then Some(MustBeMessage(field, "string")) else None
    case IsNumber => if !value.Num? then Some(MustBeMessage(field, "number")) else None
  }

  /** `fs.map((v) => v(fieldName)).map((f) => f(value)).filter(Boolean)`:
      the messages of the failing validators, in validator order. */
  function Messages(vs: seq<Validator>, field: string, value: JsValue): (ms: seq<string>)
    ensures |ms| <= |vs|
  {
    if vs == [] then []
    else
      var head := Check(vs[0], field, value);
      (if head.Some? then [head.value] else []) + Messages(vs[1..], field, value)
  }

  /** No message iff every validator passes. */
  lemma {:induction false} MessagesEmpty(vs: seq<Validator>, field: string, value: JsValue)
    ensures Messages(vs, field, value) == [] <==> forall i :: 0 <= i < |vs| ==> Check(vs[i], field, value).None?
  {
    if vs != [] {
      MessagesEmpty(vs[1..], field, value);
      assert forall i :: 1 <= i < |vs| ==> vs[i] == vs[1..][i - 1];
    }
  }

  /** A message appears iff some validator of the list returns it. */
  lemma {:induction false} MessagesMembers(vs: seq<Validator>, field: string, value: JsValue)
    ensures forall m :: m in Messages(vs, field, value) <==>
              exists i :: 0 <= i < |vs| && Check(vs[i], field, value) == Some(m)
  {
    if vs != [] {
      MessagesMembers(vs[1..], field, value);
      forall m ensures m in Messages(vs, field, value) <==>
                       exists i :: 0 <= i < |vs| && Check(vs[i], field, value) == Some(m)
      {
        if exists i :: 0 <= i < |vs| && Check(vs[i], field, value) == Some(m) {
          var i :| 0 <= i < |vs| && Check(vs[i], field, value) == Some(m);
          if i > 0 {
            assert vs[1..][i - 1] == vs[i];
          }
        }
      }
    }
  }

  /** Messages come in validator order: the messages of a concatenated
      list are those of the first part followed by those of the second. */
  lemma {:induction false} MessagesConcat(a: seq<Validator>, b: seq<Validator>, field: string, value: JsValue)
    ensures Messages(a + b, field, value) == Messages(a, field, value) + Messages(b, field, value)
  {
    if a == [] {
      assert a + b == b;
    } else {
      assert (a + b)[0] == a[0];
      assert (a + b)[1..] == a[1..] + b;
      MessagesConcat(a[1..], b, field, value);
      var head := Check(a[0], field, value);
      var h := if head.Some? then [head.value] else [];
      assert Messages(a + b, field, value) == h + Messages(a[1..] + b, field, value);
      assert h + (Messages(a[1..], field, value) + Messages(b, field, value))
          == (h + Messages(a[1..], field, value)) + Messages(b, field, value);
    }
  }

  /** A single validator contributes its message, if it reports one. */
  lemma MessagesOne(v: Validator, field: string, value: JsValue)
    ensures Messages([v], field, value) ==
            if Check(v, field, value).Some? then [Check(v, field, value).value] else []
  {
    assert [v][1..] == [];
  }

  /** One entry of the validator list: a field name and its validators. */
  datatype Rule = Rule(field: string, validators: seq<Validator>)

  /** The messages one rule contributes: none when the field is not
      required and its value is falsy, otherwise those of every validator. */
  function FieldErrors(r: Rule, e: Entity): (ms: seq<string>)
    ensures Required !in r.validators && Falsy(Get(e, r.field)) ==> ms == []
    ensures Required in r.validators || !Falsy(Get(e, r.field)) ==> ms == Messages(r.validators, r.field, Get(e, r.field))
  {
    if Required !in r.validators && Falsy(Get(e, r.field)) then []
    else Messages(r.validators, r.field, Get(e, r.field))
  }

  /** What `validate(rules)(entity)` returns: the messages of each rule, in
      rule order. */
  function ValidationErrors(rules: seq<Rule>, e: Entity): (errs: seq<string>)
    ensures (forall r :: r in rules ==> Required !in r.validators && Falsy(Get(e, r.field))) ==> errs == []
  {
    if rules == [] then []
    else
      assert forall r :: r in rules[1..] ==> r in rules;
      FieldErrors(rules[0], e) + ValidationErrors(rules[1..], e)
  }

  /** Errors are grouped by rule, in rule order. */
  lemma {:induction false} ValidationErrorsConcat(a: seq<Rule>, b: seq<Rule>, e: Entity)
    ensures ValidationErrors(a + b, e) == ValidationErrors(a, e) + ValidationErrors(b, e)
  {
    if a != [] {
      assert (a + b)[1..] == a[1..] + b;
      ValidationErrorsConcat(a[1..], b, e);
    } else {
      assert a + b == b;
    }
  }


  /** No errors iff no rule contributes one. */
  lemma {:induction false} ValidationErrorsEmpty(rules: seq<Rule>, e: Entity)
    ensures ValidationErrors(rules, e) == [] <==> forall i :: 0 <= i < |rules| ==> FieldErrors(rules[i], e) == []
  {
    if rules != [] {
      ValidationErrorsEmpty(rules[1..], e);
      assert forall i :: 1 <= i < |rules| ==> rules[i] == rules[1..][i - 1];
    }
  }

  /** `validate(validators)(entity)`: the loop over the rules. */
  method Validate(rules: seq<Rule>, e: Entity) returns (errors: seq<string>)
    ensures errors == ValidationErrors(rules, e)
  {
    errors := [];
    for i := 0 to |rules|
      invariant errors == ValidationErrors(rules[..i], e)
    {
      var r := rules[i];
      var fieldRequired := Required in r.validators;
      if !fieldRequired && Falsy(Get(e, r.field)) {
        // skipped
      } else {
        errors := errors + Messages(r.validators, r.field, Get(e, r.field));
      }
      ValidateStep(rules, i, e);
    }
    assert rules[..|rules|] == rules;
  }

  /** One more rule appends that rule's messages. */
  lemma ValidateStep(rules: seq<Rule>, i: nat, e: Entity)
    requires i < |rules|
    ensures ValidationErrors(rules[..i + 1], e) == ValidationErrors(rules[..i], e) + FieldErrors(rules[i], e)
  {
    assert rules[..i + 1] == rules[..i] + [rules[i]];
    ValidationErrorsConcat(rules[..i], [rules[i]], e);
    assert ValidationErrors([rules[i]], e) == FieldErrors(rules[i], e) + ValidationErrors([], e);
  }

  const PostRules: seq<Rule> := [
    Rule("org_name", [Required, IsString]),
    Rule("website", [IsString]),
    Rule("phone", [IsString]),
    Rule("email", [IsString]),
    Rule("org_address", [IsString]),
    Rule("org_desc", [Required, IsString]),
    Rule("creator", [Required, IsNumber])
  ]

  const PatchRules: seq<Rule> := [
    Rule("org_name", [IsString]),
    Rule("website", [IsString]),
    Rule("phone", [IsString]),
    Rule("email", [IsString]),
    Rule("org_address", [IsString]),
    Rule("org_desc", [IsString]),
    Rule("creator", [IsNumber])
  ]

  const PatchEmptyMessage: string :=
    "Request body must include " + "'org_name', 'website', 'phone', 'email', 'org_address', 'org_desc', or 'creator'"

  /** A non-empty string. */
  predicate FilledString(v: JsValue) {
    v.Str? && v.s != ""
  }

  /** A value an optional text field accepts: falsy, or a string. */
  predicate OptionalText(v: JsValue) {
    Falsy(v) || v.Str?
  }

  /** The condition under which the POST body passes. */
  predicate PostValid(e: Entity) {
    && FilledString(Get(e, "org_name"))
    && FilledString(Get(e, "org_desc"))
    && Get(e, "creator").Num? && Get(e, "creator").n != 0
    && OptionalText(Get(e, "website"))
    && OptionalText(Get(e, "phone"))
    && OptionalText(Get(e, "email"))
    && OptionalText(Get(e, "org_address"))
  }

  /** `validateOrganizationPost(body)`. */
  method ValidateOrganizationPost(e: Entity) returns (errors: seq<string>)
    ensures errors == ValidationErrors(PostRules, e)
    ensures errors == [] <==> PostValid(e)
  {
    errors := Validate(PostRules, e);
    PostAccepts(e);
  }

  /** The POST body passes iff `org_name` and `org_desc` are non-empty
      strings, `creator` is a non-zero number and each optional text field
      is falsy or a string. */
  lemma PostAccepts(e: Entity)
    ensures ValidationErrors(PostRules, e) == [] <==> PostValid(e)
  {
    ValidationErrorsEmpty(PostRules, e);
    if ValidationErrors(PostRules, e) == [] {
      PostAcceptsOnlyValid(e);
    }
    if PostValid(e) {
      PostAcceptsValid(e);
    }
  }

  lemma PostAcceptsOnlyValid(e: Entity)
    requires forall i :: 0 <= i < |PostRules| ==> FieldErrors(PostRules[i], e) == []
    ensures PostValid(e)
  {
    PostRuleChecks(e);
  }

  lemma PostAcceptsValid(e: Entity)
    requires PostValid(e)
    ensures forall i :: 0 <= i < |PostRules| ==> FieldErrors(PostRules[i], e) == []
  {
    PostRuleChecks(e);
    forall i | 0 <= i < |PostRules| ensures FieldErrors(PostRules[i], e) == [] {
      if i == 0 {} else if i == 1 {} else if i == 2 {} else if i == 3 {}
      else if i == 4 {} else if i == 5 {} else {}
    }
  }

  /** What each POST rule accepts on its own. */
  lemma PostRuleChecks(e: Entity)
    ensures FieldErrors(PostRules[0], e) == [] <==> FilledString(Get(e, "org_name"))
    ensures FieldErrors(PostRules[1], e) == [] <==> OptionalText(Get(e, "website"))
    ensures FieldErrors(PostRules[2], e) == [] <==> OptionalText(Get(e, "phone"))
    ensures FieldErrors(PostRules[3], e) == [] <==> OptionalText(Get(e, "email"))
    ensures FieldErrors(PostRules[4], e) == [] <==> OptionalText(Get(e, "org_address"))
    ensures FieldErrors(PostRules[5], e) == [] <==> FilledString(Get(e, "org_desc"))
    ensures FieldErrors(PostRules[6], e) == [] <==> Get(e, "creator").Num? && Get(e, "creator").n != 0
  {
    PostRequiredChecks(e);
    PostOptionalChecks(e);
  }

  lemma PostRequiredChecks(e: Entity)
    ensures FieldErrors(PostRules[0], e) == [] <==> FilledString(Get(e, "org_name"))
    ensures FieldErrors(PostRules[5], e) == [] <==> FilledString(Get(e, "org_desc"))
    ensures FieldErrors(PostRules[6], e) == [] <==> Get(e, "creator").Num? && Get(e, "creator").n != 0
  {
    RequiredTyped(e, "org_name", IsString);
    RequiredTyped(e, "org_desc", IsString);
    RequiredTyped(e, "creator", IsNumber);
  }

  lemma PostOptionalChecks(e: Entity)
    ensures FieldErrors(PostRules[1], e) == [] <==> OptionalText(Get(e, "website"))
    ensures FieldErrors(PostRules[2], e) == [] <==> OptionalText(Get(e, "phone"))
    ensures FieldErrors(PostRules[3], e) == [] <==> OptionalText(Get(e, "email"))
    ensures FieldErrors(PostRules[4], e) == [] <==> OptionalText(Get(e, "org_address"))
  {
    OptionalString(e, "website");
    OptionalString(e, "phone");
    OptionalString(e, "email");
    OptionalString(e, "org_address");
  }

  lemma RequiredTyped(e: Entity, field: string, v: Validator)
    requires v != Required
    ensures FieldErrors(Rule(field, [Required, v]), e) == [] <==>
            !Falsy(Get(e, field)) && Check(v, field, Get(e, field)).None?
  {
    var vs := [Required, v];
    assert Required in vs;
    assert vs[1] == v;
    MessagesEmpty(vs, field, Get(e, field));
  }

  lemma OptionalString(e: Entity, field: string)
    ensures FieldErrors(Rule(field, [IsString]), e) == [] <==> OptionalText(Get(e, field))
  {
    assert [IsString][0] == IsString;
    MessagesEmpty([IsString], field, Get(e, field));
  }

  /** A missing required string field yields the "missing" message and
      then the "must be a string" message, in that order, ahead of the
      messages of later fields. */
  lemma MissingOrgName(e: Entity)
    requires "org_name" !in e
    ensures ValidationErrors(PostRules, e)[..2]
         == ["'org_name' is missing from the request body", "'org_name' must be a string"]
  {
    var r := PostRules[0];
    assert ValidationErrors(PostRules, e) == FieldErrors(r, e) + ValidationErrors(PostRules[1..], e);
    MissingRequiredString(e, "org_name");
    assert r == Rule("org_name", [Required, IsString]);
    OrgNameMissingText();
    OrgNameMustBeText();
    var rest := ValidationErrors(PostRules[1..], e);
    assert (FieldErrors(r, e) + rest)[..2] == FieldErrors(r, e);
  }

  lemma OrgNameMissingText()
    ensures MissingMessage("org_name") == "'org_name' is missing from the request body"
  {
  }

  lemma OrgNameMustBeText()
    ensures MustBeMessage("org_name", "string") == "'org_name' must be a string"
  {
  }

  /** An absent required string field contributes exactly its two messages. */
  lemma MissingRequiredString(e: Entity, field: string)
    requires field !in e
    ensures FieldErrors(Rule(field, [Required, IsString]), e)
         == [MissingMessage(field), MustBeMessage(field, "string")]
  {
    var vs := [Required, IsString];
    assert Required in vs;
    assert Get(e, field) == Undefined;
    assert Messages(vs, field, Undefined)
        == [MissingMessage(field)] + Messages(vs[1..], field, Undefined);
    assert Messages(vs[1..], field, Undefined)
        == [MustBeMessage(field, "string")] + Messages(vs[2..], field, Undefined);
  }

  /** The number of truthy values in the body,
      `Object.values(newFields).filter(Boolean).length`. */
  function ProvidedCount(e: Entity): (n: nat)
    ensures n == 0 <==> forall k :: k in e ==> Falsy(e[k])
  {
    var provided := set k | k in e && !Falsy(e[k]);
    assert (exists k :: k in e && !Falsy(e[k])) ==> provided != {} by {
      if exists k :: k in e && !Falsy(e[k]) {
        var k :| k in e && !Falsy(e[k]);
        assert k in provided;
      }
    }
    |provided|
  }

  /** What `validateOrganizationPatch(body)` returns. */
  function PatchErrors(e: Entity): (errs: seq<string>)
    ensures PatchEmptyMessage in errs <==> ProvidedCount(e) == 0
  {
    if ProvidedCount(e) == 0 then [PatchEmptyMessage]
    else
      PatchEmptyNotAFieldError(e);
      ValidationErrors(PatchRules, e)
  }

  lemma PatchEmptyNotAFieldError(e: Entity)
    ensures PatchEmptyMessage !in ValidationErrors(PatchRules, e)
  {
    PatchRulesOptional();
    TypeErrorsQuoted(PatchRules, e);
    assert PatchEmptyMessage[0] == 'R';
  }

  /** Without a required check every message names its field in quotes,
      so it starts with a quote character. */
  lemma TypeErrorsQuoted(rules: seq<Rule>, e: Entity)
    requires forall r :: r in rules ==> Required !in r.validators
    ensures forall m :: m in ValidationErrors(rules, e) ==> |m| > 0 && m[0] == '\''
  {
    NoRequiredNoMissing(rules, e);
    forall m | m in ValidationErrors(rules, e) ensures |m| > 0 && m[0] == '\'' {
      var r :| r in rules && (m == MustBeMessage(r.field, "string") || m == MustBeMessage(r.field, "number"));
    }
  }

  /** No PATCH rule has a required check. */
  lemma PatchRulesOptional()
    ensures forall r :: r in PatchRules ==> Required !in r.validators
  {
  }

  /** `validateOrganizationPatch(body)`: the single "must include" message
      when no value is truthy, without running any field check; otherwise
      the type errors of the patch rules. */
  method ValidateOrganizationPatch(e: Entity) returns (errors: seq<string>)
    ensures errors == PatchErrors(e)
    ensures (forall k :: k in e ==> Falsy(e[k])) ==> errors == [PatchEmptyMessage]
    ensures (exists k :: k in e && !Falsy(e[k])) ==> errors == ValidationErrors(PatchRules, e)
  {
    errors := [];
    var numFields := ProvidedCount(e);
    if numFields == 0 {
      errors := errors + [PatchEmptyMessage];
      return errors;
    }
    var fieldErrors := Validate(PatchRules, e);
    errors := errors + fieldErrors;
  }

  /** Past the "must include" check only type errors are possible: every
      message says that some field must be a string or a number. */
  lemma PatchOnlyTypeErrors(e: Entity)
    requires exists k :: k in e && !Falsy(e[k])
    ensures forall m :: m in PatchErrors(e) ==>
              exists r :: r in PatchRules && (m == MustBeMessage(r.field, "string") || m == MustBeMessage(r.field, "number"))
  {
    NoRequiredNoMissing(PatchRules, e);
  }

  lemma {:induction false} NoRequiredNoMissing(rules: seq<Rule>, e: Entity)
    requires forall r :: r in rules ==> Required !in r.validators
    ensures forall m :: m in ValidationErrors(rules, e) ==>
              exists r :: r in rules && (m == MustBeMessage(r.field, "string") || m == MustBeMessage(r.field, "number"))
  {
    if rules != [] {
      NoRequiredNoMissing(rules[1..], e);
      MessagesAreTypeErrors(rules[0].validators, rules[0].field, Get(e, rules[0].field));
      assert ValidationErrors(rules, e) == FieldErrors(rules[0], e) + ValidationErrors(rules[1..], e);
      forall m | m in ValidationErrors(rules, e)
        ensures exists r :: r in rules && (m == MustBeMessage(r.field, "string") || m == MustBeMessage(r.field, "number"))
      {
        if m in FieldErrors(rules[0], e) {
          assert rules[0] in rules;
        } else {
          var r :| r in rules[1..] && (m == MustBeMessage(r.field, "string") || m == MustBeMessage(r.field, "number"));
          assert r in rules;
        }
      }
    }
  }

  lemma {:induction false} MessagesAreTypeErrors(vs: seq<Validator>, field: string, value: JsValue)
    requires Required !in vs
    ensures forall m :: m in Messages(vs, field, value) ==>
              m == MustBeMessage(field, "string") || m == MustBeMessage(field, "number")
  {
    if vs != [] {
      assert vs[0] in vs;
      assert forall v :: v in vs[1..] ==> v in vs;
      MessagesAreTypeErrors(vs[1..], field, value);
    }
  }

  /** Any truthy value counts as provided, even under a key that is not an
      organization field: a body holding only such a key, for instance a
      non-empty `causes` list, passes the patch validator. */
  lemma PatchUnknownKeyCounts(key: string, v: JsValue)
    requires !Falsy(v)
    requires forall r :: r in PatchRules ==> r.field != key
    ensures PatchErrors(map[key := v]) == []
  {
    var e := map[key := v];
    assert key in e;
    ValidationErrorsEmpty(PatchRules, e);
    forall i | 0 <= i < |PatchRules| ensures FieldErrors(PatchRules[i], e) == [] {
      assert PatchRules[i] in PatchRules;
      assert Get(e, PatchRules[i].field) == Undefined;
    }
  }
}
