/** The configuration store and schema-description assembler of
    `backend/db_service.py`. The module-level `state` singleton becomes an
    explicit immutable record: a setter returns the updated record or the
    error it raises, and the assembler reads a record it is given. */
module DbService {
  import opened Wrappers
  import opened PyText

  /** A value as `json.load` produces it. */
  datatype Json =
    | JNull
    | JBool(b: bool)
    | JNumber(n: int)
    | JString(s: string)
    | JArray(items: seq<Json>)
    | JObject(members: seq<(string, Json)>)

  /** The configuration record: parsed metadata, the table name (Python
      `None` until set), the business rules in order, and the parsed
      fallback schema. */
  datatype SchemaState = SchemaState(
    metadata: Json,
    tableName: Option<string>,
    businessRules: seq<string>,
    fallbackSchema: Json)

  /** The argument handed to `set_business_rules`: a Python list (its
      elements as the text `str()` gives them) or any other value. */
  datatype RulesValue = RuleList(items: seq<string>) | NotAList

  /** The errors the setters raise. */
  datatype ConfigError = EmptyTableName | RulesNotAList

  /** The record as `SchemaState()` builds it: empty objects, no table
      name, no rules. */
  function InitialState(): (r: SchemaState)
    ensures Valid(r)
  {
    SchemaState(JObject([]), None, [], JObject([]))
  }

  /** The message carried by the raised `ValueError`. */
  function ErrorMessage(e: ConfigError): (m: string)
    ensures |m| > 8 && m[..8] == "[ERROR] "
  {
    match e
    case EmptyTableName => "[ERROR] Table name cannot be empty."
    case RulesNotAList => "[ERROR] Business rules must be a list."
  }

  /** The record's invariant: a table name, once set, is non-empty. */
  predicate Valid(st: SchemaState) {
    st.tableName != Some("")
  }

  /** `set_table_name`: a falsy name (`None` or "") raises and the record
      stays as it was; any other name replaces the table name and nothing
      else. */
  function SetTableName(st: SchemaState, name: Option<string>): (r: Result<SchemaState, ConfigError>)
    ensures r.Failure? <==> name == None || name == Some("")
    ensures r.Failure? ==> r.error == EmptyTableName
    ensures r.Success? ==> && r.value.tableName == name
                           && r.value.metadata == st.metadata
                           && r.value.businessRules == st.businessRules
                           && r.value.fallbackSchema == st.fallbackSchema
    ensures r.Success? ==> Valid(r.value)
  {
    if name.None? || name.value == "" then Failure(EmptyTableName)
    else Success(st.(tableName := name))
  }

  /** `set_business_rules`: anything but a list raises and the record stays
      as it was; any list, the empty one included, replaces the rules as
      given and nothing else. */
  function SetBusinessRules(st: SchemaState, rules: RulesValue): (r: Result<SchemaState, ConfigError>)
    ensures r.Failure? <==> rules.NotAList?
    ensures r.Failure? ==> r.error == RulesNotAList
    ensures r.Success? ==> && r.value.businessRules == rules.items
                           && r.value.metadata == st.metadata
                           && r.value.tableName == st.tableName
                           && r.value.fallbackSchema == st.fallbackSchema
    ensures r.Success? && Valid(st) ==> Valid(r.value)
  {
    match rules
    case NotAList => Failure(RulesNotAList)
    case RuleList(items) => Success(st.(businessRules := items))
  }

  /** The two setters touch disjoint fields: applying them in either order
      gives the same record, and each one's verdict does not depend on the
      other having run. */
  lemma SettersCommute(st: SchemaState, name: Option<string>, rules: RulesValue)
    ensures SetTableName(st, name).Success? && SetBusinessRules(st, rules).Success? ==>
      && SetBusinessRules(SetTableName(st, name).value, rules).Success?
      && SetTableName(SetBusinessRules(st, rules).value, name).Success?
      && SetBusinessRules(SetTableName(st, name).value, rules).value
         == SetTableName(SetBusinessRules(st, rules).value, name).value
  {
  }

  // ---------------------------------------------------------------------
  // Assembling the schema description

  const SchemaHeader: string := "### SCHEMA DESCRIPTION ###\n"
  const TableHeader: string := "### TABLE NAME ###\n"
  const MetadataHeader: string := "### LOCAL METADATA.json ###\n"
  const RulesHeader: string := "### BUSINESS RULES ###\n"
  const SectionBreak: string := "\n\n"

  /** The condition `frontend_schema and frontend_schema.strip()`. On a
      non-string argument without a `.strip()` method, such as any other
      JSON value, the condition is falsy or `.strip()` raises. The handler
      catches that exactly as it catches the missing schema, so such an
      argument is modelled as None. */
  predicate UsesFrontendSchema(frontend: Option<string>) {
    frontend.Some? && frontend.value != "" && Strip(frontend.value) != ""
  }

  /** The schema section: the caller's text, verbatim and untrimmed, when it
      has a non-whitespace character; the serialised fallback schema when it
      is absent, empty or whitespace only. `dump` stands for
      `json.dumps(..., indent=2)`. */
  function FinalSchema(st: SchemaState, frontend: Option<string>, dump: Json -> string): (r: string)
    ensures frontend.Some? && !IsBlank(frontend.value) ==> r == frontend.value
    ensures frontend.None? || IsBlank(frontend.value) ==> r == dump(st.fallbackSchema)
  {
    FallbackExactlyWhenBlank(frontend);
    if UsesFrontendSchema(frontend) then frontend.value else dump(st.fallbackSchema)
  }

  /** The fallback warning is printed exactly when the caller's schema is
      blank or missing. */
  lemma FallbackExactlyWhenBlank(frontend: Option<string>)
    ensures !UsesFrontendSchema(frontend) <==> frontend.None? || IsBlank(frontend.value)
  {
    if frontend.Some? {
      StripSpec(frontend.value);
    }
  }

  /** The text `f"{state.table_name}"` gives: the name, or `None` when
      unset. The rendering cannot tell an unset name from a table that is
      really called `None`. */
  function TableNameText(name: Option<string>): (r: string)
    ensures name.Some? ==> r == name.value
    ensures r == "None" <==> name == None || name == Some("None")
  {
    match name
    case None => "None"
    case Some(n) => n
  }

  /** One bulleted line of the rules section. */
  function RuleLine(rule: string): (r: string) {
    "- " + rule + "\n"
  }

  /** The rules section body, built as the loop builds it: one line
      appended per rule, in list order. */
  function RenderRules(rules: seq<string>): (r: string)
    ensures r == [] <==> rules == []
  {
    if rules == [] then "" else RenderRules(rules[..|rules| - 1]) + RuleLine(rules[|rules| - 1])
  }

  /** Rendering a concatenation of rule lists is concatenating their
      renderings, so the lines appear in list order, one per rule. */
  lemma {:induction false} RenderRulesAppend(a: seq<string>, b: seq<string>)
    ensures RenderRules(a + b) == RenderRules(a) + RenderRules(b)
    decreases |b|
  {
    if b == [] {
      assert a + b == a;
    } else {
      var b' := b[..|b| - 1];
      assert (a + b)[..|a + b| - 1] == a + b';
      assert (a + b)[|a + b| - 1] == b[|b| - 1];
      RenderRulesAppend(a, b');
      assert RenderRules(b) == RenderRules(b') + RuleLine(b[|b| - 1]);
    }
  }

  /** The rendering of a non-empty list starts with the first rule's line. */
  lemma RenderRulesFirst(rules: seq<string>)
    requires rules != []
    ensures RenderRules(rules) == RuleLine(rules[0]) + RenderRules(rules[1..])
  {
    assert rules == [rules[0]] + rules[1..];
    RenderRulesAppend([rules[0]], rules[1..]);
    assert RenderRules([rules[0]]) == RuleLine(rules[0]);
  }

  /** `build_final_schema_description`: the four headed sections in their
      fixed order. The record is only read. */
  function BuildFinalSchemaDescription(st: SchemaState, frontend: Option<string>, dump: Json -> string): (r: string)
    ensures |SchemaHeader| <= |r| && r[..|SchemaHeader|] == SchemaHeader
  {
    var description := SchemaHeader + FinalSchema(st, frontend, dump) + SectionBreak;
    var description := description + TableHeader + TableNameText(st.tableName) + SectionBreak;
    var description := description + MetadataHeader + dump(st.metadata) + SectionBreak;
    description + RulesHeader + RenderRules(st.businessRules)
  }
}
