# Schema assembly and SQL extraction, modelled in Dafny

The backend turns a question into SQL with the help of a language model.
Two deterministic pieces sit on either side of the model call, and this
project models both:

- **The configuration store and schema assembler** (`backend/db_service.py`).
  The `SchemaState` record has four fields: metadata, table name, business
  rules and fallback schema. Two validating setters write it. The assembler
  `build_final_schema_description` picks the caller's schema or the
  serialised fallback. It then concatenates four headed sections in a fixed
  order.
- **SQL extraction** (`backend/llm_services.py`, the tail of
  `generate_sql_query`). The reply is searched with
  `re.search(r"(SELECT[\s\S]*?;)", text, re.IGNORECASE)`. The stripped
  match is returned, or the stripped reply when nothing matches.

Modules:

- `Wrappers` (`wrappers.dfy`): `Option` and `Result`.
- `PyText` (`text.dfy`): the pieces of Python's `str` that the code relies
  on.
  - `str.isspace()` over its full character set.
  - `str.strip()`, defined by its cut points and characterised in
    `StripSpec`.
  - Leftmost search for a substring or a character.
- `DbService` (`db_service.dfy`):
  - The record, the setters and the assembler.
  - The module-level singleton becomes an explicit immutable record.
  - A setter returns `Success(newRecord)` or `Failure(error)` for the
    `ValueError` it raises.
  - The assembler is a pure function of the record, so it cannot modify
    it.
  - `json.dumps(..., indent=2)` is the function parameter `dump`.
- `SchemaLayout` (`schema_layout.dfy`): the exact layout of the
  description, plus an independent reader that splits a description back
  into its sections. The reader is the assembler's inverse. It shows the
  headers delimit the sections unambiguously whenever the schema,
  table-name and metadata texts contain no `#` and every rule is a single
  line.
- `SqlExtraction` (`sql_extraction.dfy`): the regular-expression semantics.
  - The match begins at the leftmost position where `SELECT` occurs in any
    letter case and some `;` follows.
  - The lazy `[\s\S]*?` ends the match at the first `;` after the keyword.
  - `ExtractSql` is stated against these definitions rather than its own
    body.

## Model

| member | source | states |
|---|---|---|
| DbService.InitialState | backend/db_service.py:8-12 | The record before any setter runs satisfies the invariant `Valid`: the table name is unset rather than empty. |
| DbService.ErrorMessage | backend/db_service.py:42-50 | Both validation errors carry a message that begins with `[ERROR] `. |
| DbService.SetTableName | backend/db_service.py:40-44 | Fails with `EmptyTableName` exactly when the name is falsy (`None` or `""`). Otherwise the table name becomes exactly the given name and no other field changes. A record produced this way never holds an empty name. |
| DbService.SetBusinessRules | backend/db_service.py:47-51 | Fails with `RulesNotAList` exactly when the argument is not a list. Any list, the empty one included, is stored as given and no other field changes. |
| DbService.SettersCommute | backend/db_service.py:40-51 | The setters write disjoint fields. When both accept their arguments, applying them in either order yields the same record. |
| DbService.FinalSchema | backend/db_service.py:56-62 | The schema section is the caller's string, verbatim and untrimmed, when it has a non-whitespace character. When the string is absent, empty or whitespace only, it is the serialised fallback schema. |
| DbService.FallbackExactlyWhenBlank | backend/db_service.py:57-63 | `frontend_schema and frontend_schema.strip()` is false exactly when the schema is absent or blank. That is exactly when the fallback and its warning are used. |
| DbService.TableNameText | backend/db_service.py:69 | A set table name renders verbatim. The text `None` appears exactly when the name is unset or is literally `None`, so the rendering cannot tell those two apart. |
| DbService.RenderRules | backend/db_service.py:74-76 | The rules section body is empty exactly when there are no rules. |
| DbService.BuildFinalSchemaDescription | backend/db_service.py:54-78 | The description always opens with the schema header `### SCHEMA DESCRIPTION ###`. Its full layout is stated in `SchemaLayout`. |
| DbService.RenderRulesAppend | backend/db_service.py:74-76 | The rules loop is a homomorphism. Rendering `a + b` gives the rendering of `a` followed by that of `b`, so there is one line per rule, in list order. |
| DbService.RenderRulesFirst | backend/db_service.py:74-76 | A non-empty rule list renders as the first rule's `- rule` line followed by the rendering of the rest. |
| SchemaLayout.DescriptionLayout | backend/db_service.py:65-76 | The description is the schema header, then the schema, `\n\n`, table header, table-name text, `\n\n`, metadata header, `dump(metadata)`, `\n\n`, rules header and rule lines. |
| SchemaLayout.HeadersInOrder | backend/db_service.py:65-74 | All four headers occur, at strictly increasing positions, whatever the record and schema hold. |
| SchemaLayout.SchemaSection | backend/db_service.py:57-66 | Right after the first header comes the caller's schema verbatim when it is non-blank, and the serialised fallback schema otherwise. |
| SchemaLayout.EndsWithRules | backend/db_service.py:74-78 | The description ends with the rules header followed by the rule lines. With an empty rule list it ends with the rules header itself. |
| SchemaLayout.UnsetTableNameRendersNone | backend/db_service.py:68-69 | With the table name unset, the text `### TABLE NAME ###\nNone\n\n` occurs in the description. |
| SchemaLayout.InitialDescription | backend/db_service.py:8-12 | Before any setter runs, the description names the table `None` and ends with the rules header and no rule lines. |
| SchemaLayout.ParseRenderRules | backend/db_service.py:74-76 | Reading the rules section back line by line recovers the rule list exactly, provided no rule contains a line break. |
| SchemaLayout.ReadBuildRoundTrip | backend/db_service.py:54-78 | The reader splits an assembled description into the chosen schema, table-name text, serialised metadata and original rule list. This holds when those texts contain no `#` and the rules are single lines. |
| PyText.Strip | backend/llm_services.py:77-79 | `str.strip()` never lengthens its input. Its full characterisation is `StripSpec`. |
| PyText.StripSpec | backend/llm_services.py:77-79 | `str.strip()` removes only whitespace at the two ends. Its result neither starts nor ends with whitespace. It is `""` exactly when the input is blank. |
| PyText.StripUnique | backend/llm_services.py:79 | Any cut that removes only whitespace and leaves a trimmed string is the result of `strip()`, so `StripSpec` determines the function. |
| PyText.StripIdempotent | backend/llm_services.py:79 | Stripping twice is stripping once. |
| PyText.StripTrimmed | backend/llm_services.py:77 | A string with no whitespace at either end strips to itself. |
| PyText.StripBlank | backend/db_service.py:57 | A whitespace-only string strips to `""`, the falsy value that sends the assembler to the fallback. |
| PyText.CharFrom | backend/llm_services.py:75 | Gives the first index at or after `from` holding the character, with no earlier one in between. This is how the lazy `[\s\S]*?;` finds its `;`. |
| SqlExtraction.FirstSelectFrom | backend/llm_services.py:75 | Gives the leftmost index at or after `from` where `SELECT` occurs in any letter case. |
| SqlExtraction.Search | backend/llm_services.py:75 | `re.search` returns a lazy match, ended by the first `;` after the keyword. No position before its start begins a match. It returns nothing exactly when no position begins a match. |
| SqlExtraction.ExtractSql | backend/llm_services.py:75-79 | With a match, the result is exactly the matched text. Without one, it is the stripped reply. |
| SqlExtraction.MatchIsTrimmed | backend/llm_services.py:77 | The `.strip()` applied to a match changes nothing: the match starts with a letter and ends with `;`. |
| SqlExtraction.SearchFirstSelect | backend/llm_services.py:75 | Given the first keyword position `i` and the first `;` after it at `j`, the search returns the match `(i, j)`. |
| SqlExtraction.ExtractSqlFirstSelect | backend/llm_services.py:75-77 | When the first keyword is at `i` and the first `;` after it is at `j`, the result is `text[i..j+1]`. |
| SqlExtraction.ExtractSqlFallback | backend/llm_services.py:79 | When no position begins a match, the result is the reply stripped of surrounding whitespace. |
| SqlExtraction.ExtractSqlShape | backend/llm_services.py:75 | A matched result begins with `select` in some letter case, ends with `;` and contains no other `;`. |
| SqlExtraction.ExtractSqlIsInfix | backend/llm_services.py:75-79 | The result is a contiguous substring of the reply and never longer than it. |
| SqlExtraction.ExtractSqlIdempotent | backend/llm_services.py:75-79 | Extracting from an extraction's result returns that result unchanged. |
| SqlExtraction.ExtractSqlInsideWord | backend/llm_services.py:75 | There is no word-boundary check: in `preselect 1;` the keyword inside `preselect` starts the match, giving `select 1;`. |
| SqlExtraction.ExtractSqlFromChatter | backend/llm_services.py:75-77 | `Sure! SELECT * FROM T;` yields exactly `SELECT * FROM T;`. |
| SqlExtraction.ExtractSqlNoStatement | backend/llm_services.py:79 | ` I cannot answer\n` has no statement and yields `I cannot answer`. |

## Left out

- `load_metadata` and `load_fallback_schema` (backend/db_service.py:16-37) are left out. They do file-existence checks, file reads and `json.load`, which are I/O and parsing. The record's `metadata` and `fallbackSchema` are given `Json` values.
- `json.dumps(..., indent=2)` (backend/db_service.py:62, 72) is the parameter `dump: Json -> string`. Its formatting is not modelled. The round trip assumes its output contains no `#`.
- The warning `print` (backend/db_service.py:63) is console output. `FallbackExactlyWhenBlank` states exactly when it happens.
- The global `state` singleton and in-place mutation (backend/db_service.py:13) are replaced by an explicit record passed in and returned.
- SetTableName: names are modelled as `Option<string>`. The source also stores a truthy non-string value as is and later prints it with `str()`. Such values are outside the model.
- SetBusinessRules: the elements of an accepted list are modelled as the text `str()` gives them. Any non-list value is the single case `NotAList`.
- SetBusinessRules: the source stores the caller's list object by reference (backend/db_service.py:51), so later mutations by the caller would show through. The model stores a copy of the value. The only caller passes a fresh list literal (backend/llm_services.py:31-37), so the difference is not observable there.
- FinalSchema: a non-string `frontend_schema` that has no `.strip()` method is modelled as `None`. The source sends such a value to the same fallback, through the falsy test or through the exception `.strip()` raises. This covers every non-string JSON value the route at backend/llm_services.py:85 can pass.
- BuildFinalSchemaDescription: a non-string schema that does have a `.strip()` method, such as `bytes`, is outside the model. For `b"x"` the test at backend/db_service.py:57 succeeds and line 58 keeps the bytes. Then `final_schema + "\n\n"` at line 66 raises `TypeError` outside the `try`.
- SqlExtraction.MatchesIgnoreCase: case-insensitive matching covers the ASCII case variants of `select` and the long s (U+017F), which Python's engine equates with `s`. No other Unicode case equivalence is modelled.
- The rest of `backend/llm_services.py` is left out: the Flask app, CORS and the `/api/query` route, the prompt template and the hosted-model call, and the start-up configuration. They are framework, network or foreign-library code. The reply text, chosen at line 72, is the input of `ExtractSql`.
- Despite its name, `backend/db_service.py` contains no database connection or query code, so nothing of that kind is modelled.
