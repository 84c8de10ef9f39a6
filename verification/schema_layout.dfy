/** The layout of the text `build_final_schema_description` returns, and a
    reader that splits such a text back into its sections. The reader is the
    assembler's inverse: it shows that the four headers delimit the four
    sections unambiguously whenever the schema, table-name and metadata
    texts contain no `#` and no rule spans several lines. */
module SchemaLayout {
  import opened Wrappers
  import opened PyText
  import opened DbService

  /** What a description carries: the schema text, the table-name text, the
      serialised metadata and the business rules. */
  datatype Sections = Sections(schema: string, tableName: string, metadata: string, rules: seq<string>)

  /** The text that ends one section and opens the next. */
  const TableMarker: string := SectionBreak + TableHeader
  const MetadataMarker: string := SectionBreak + MetadataHeader
  const RulesMarker: string := SectionBreak + RulesHeader

  /** No `#` occurs in `s`. */
  predicate HashFree(s: string) {
    forall k :: 0 <= k < |s| ==> s[k] != '#'
  }

  /** No line break occurs in `s`. */
  predicate SingleLine(s: string) {
    forall k :: 0 <= k < |s| ==> s[k] != '\n'
  }

  /** A section text followed by the marker that closes it and by the
      rest of the text. */
  function Section(content: string, marker: string, rest: string): (r: string) {
    content + marker + rest
  }

  /** Four section texts joined by an opening header and three markers. */
  function Join(header: string, m1: string, m2: string, m3: string,
                schema: string, table: string, meta: string, rulesText: string): (r: string) {
    header + Section(schema, m1, Section(table, m2, Section(meta, m3, rulesText)))
  }

  /** A description laid out from its four section texts. */
  function Layout(schema: string, table: string, meta: string, rulesText: string): (r: string) {
    Join(SchemaHeader, TableMarker, MetadataMarker, RulesMarker, schema, table, meta, rulesText)
  }

  /** Appending piece by piece, with the same break before each later
      header, gives the join whose markers are break plus header. */
  lemma FlatJoin(h: string, b: string, th: string, mh: string, rh: string,
                 s: string, t: string, m: string, r: string)
    ensures h + s + b + th + t + b + mh + m + b + rh + r
      == Join(h, b + th, b + mh, b + rh, s, t, m, r)
  {
    var r2 := Section(m, b + rh, r);
    assert r2 == m + b + rh + r;
    var r1 := Section(t, b + mh, r2);
    assert r1 == t + b + mh + m + b + rh + r;
    var body := Section(s, b + th, r1);
    assert body == s + b + th + t + b + mh + m + b + rh + r;
  }

  /** The assembled description is the layout of its four section texts. */
  lemma DescriptionLayout(st: SchemaState, frontend: Option<string>, dump: Json -> string)
    ensures BuildFinalSchemaDescription(st, frontend, dump)
      == Layout(FinalSchema(st, frontend, dump), TableNameText(st.tableName),
                dump(st.metadata), RenderRules(st.businessRules))
  {
    FlatJoin(SchemaHeader, SectionBreak, TableHeader, MetadataHeader, RulesHeader,
             FinalSchema(st, frontend, dump), TableNameText(st.tableName),
             dump(st.metadata), RenderRules(st.businessRules));
  }

  /** In any layout the four headers occur in order. */
  lemma LayoutHeaders(schema: string, table: string, meta: string, rulesText: string)
    ensures var d := Layout(schema, table, meta, rulesText);
      exists p2, p3, p4 ::
        && 0 < p2 < p3 < p4
        && OccursAt(d, SchemaHeader, 0)
        && OccursAt(d, TableHeader, p2)
        && OccursAt(d, MetadataHeader, p3)
        && OccursAt(d, RulesHeader, p4)
  {
    var d := Layout(schema, table, meta, rulesText);
    var p2 := |SchemaHeader| + |schema| + |SectionBreak|;
    var p3 := p2 + |TableHeader| + |table| + |SectionBreak|;
    var p4 := p3 + |MetadataHeader| + |meta| + |SectionBreak|;
    assert d[..|SchemaHeader|] == SchemaHeader;
    assert d[p2..p2 + |TableHeader|] == TableHeader;
    assert d[p3..p3 + |MetadataHeader|] == MetadataHeader;
    assert d[p4..p4 + |RulesHeader|] == RulesHeader;
    assert OccursAt(d, TableHeader, p2) && OccursAt(d, MetadataHeader, p3) && OccursAt(d, RulesHeader, p4);
  }

  /** All four headers occur, in order, whatever the record and the
      caller's schema hold. */
  lemma HeadersInOrder(st: SchemaState, frontend: Option<string>, dump: Json -> string)
    ensures var d := BuildFinalSchemaDescription(st, frontend, dump);
      exists p2, p3, p4 ::
        && 0 < p2 < p3 < p4
        && OccursAt(d, SchemaHeader, 0)
        && OccursAt(d, TableHeader, p2)
        && OccursAt(d, MetadataHeader, p3)
        && OccursAt(d, RulesHeader, p4)
  {
    DescriptionLayout(st, frontend, dump);
    LayoutHeaders(FinalSchema(st, frontend, dump), TableNameText(st.tableName),
                  dump(st.metadata), RenderRules(st.businessRules));
  }

  /** The schema section, right after the first header, is the caller's
      schema verbatim when it is non-blank and the serialised fallback
      schema otherwise. */
  lemma SchemaSection(st: SchemaState, frontend: Option<string>, dump: Json -> string)
    ensures var d := BuildFinalSchemaDescription(st, frontend, dump);
      && (frontend.Some? && !IsBlank(frontend.value) ==> OccursAt(d, frontend.value, |SchemaHeader|))
      && (frontend.None? || IsBlank(frontend.value) ==> OccursAt(d, dump(st.fallbackSchema), |SchemaHeader|))
  {
    var s := FinalSchema(st, frontend, dump);
    DescriptionLayout(st, frontend, dump);
    var d := Layout(s, TableNameText(st.tableName), dump(st.metadata), RenderRules(st.businessRules));
    assert d[|SchemaHeader|..|SchemaHeader| + |s|] == s;
  }

  /** The description ends with the rules header followed by the rule
      lines; with no rules it ends with the header itself. */
  lemma EndsWithRules(st: SchemaState, frontend: Option<string>, dump: Json -> string)
    ensures EndsWith(BuildFinalSchemaDescription(st, frontend, dump),
                     RulesHeader + RenderRules(st.businessRules))
    ensures st.businessRules == [] ==>
      EndsWith(BuildFinalSchemaDescription(st, frontend, dump), RulesHeader)
  {
    var d := BuildFinalSchemaDescription(st, frontend, dump);
    var rulesText := RenderRules(st.businessRules);
    var prefix := SchemaHeader + FinalSchema(st, frontend, dump) + SectionBreak
      + TableHeader + TableNameText(st.tableName) + SectionBreak
      + MetadataHeader + dump(st.metadata) + SectionBreak;
    assert d == prefix + RulesHeader + rulesText;
    SuffixOfAppend(d, prefix, RulesHeader, rulesText);
  }

  /** `y + z` ends `x + y + z`, and `y` alone does when `z` is empty. */
  lemma SuffixOfAppend(d: string, x: string, y: string, z: string)
    requires d == x + y + z
    ensures EndsWith(d, y + z)
    ensures z == [] ==> EndsWith(d, y)
  {
    assert d[|x|..] == y + z;
    if z == [] {
      assert y + z == y;
    }
  }

  /** An unset table name appears as the literal text `None` between the
      table-name header and the blank line that closes its section. */
  lemma UnsetTableNameRendersNone(st: SchemaState, frontend: Option<string>, dump: Json -> string)
    requires st.tableName.None?
    ensures var d := BuildFinalSchemaDescription(st, frontend, dump);
      exists p :: OccursAt(d, TableHeader + "None" + SectionBreak, p)
  {
    DescriptionLayout(st, frontend, dump);
    var s := FinalSchema(st, frontend, dump);
    var d := Layout(s, "None", dump(st.metadata), RenderRules(st.businessRules));
    var piece := TableHeader + "None" + SectionBreak;
    var p := |SchemaHeader| + |s| + |SectionBreak|;
    assert d[p..p + |piece|] == piece;
    assert OccursAt(d, piece, p);
  }

  /** Before any setter runs, the description names the table `None` and
      ends with an empty rules section. */
  lemma InitialDescription(frontend: Option<string>, dump: Json -> string)
    ensures var d := BuildFinalSchemaDescription(InitialState(), frontend, dump);
      && (exists p :: OccursAt(d, TableHeader + "None" + SectionBreak, p))
      && EndsWith(d, RulesHeader)
  {
    UnsetTableNameRendersNone(InitialState(), frontend, dump);
    EndsWithRules(InitialState(), frontend, dump);
  }

  // ---------------------------------------------------------------------
  // Reading a description back

  /** Splits a rules section body into its rules: a sequence of lines, each
      `- ` followed by the rule and a line break. */
  function ParseRules(s: string): (r: Option<seq<string>>)
    decreases |s|
  {
    if s == [] then Some([])
    else if |s| < 2 || s[0] != '-' || s[1] != ' ' then None
    else
      match CharFrom(s, '\n', 2)
      case None => None
      case Some(j) =>
        match ParseRules(s[j + 1..])
        case None => None
        case Some(rest) => Some([s[2..j]] + rest)
  }

  /** A single-line rule's line is read off the front of any text, and
      reading goes on with what follows it. */
  lemma ParseRuleLine(rule: string, rest: string)
    requires SingleLine(rule)
    ensures ParseRules(RuleLine(rule) + rest)
      == match ParseRules(rest)
         case None => None
         case Some(rs) => Some([rule] + rs)
  {
    var s := RuleLine(rule) + rest;
    var j := 2 + |rule|;
    assert s[0] == '-' && s[1] == ' ' && s[j] == '\n';
    forall k | 2 <= k < j ensures s[k] != '\n' {
      assert s[k] == rule[k - 2];
    }
    assert CharFrom(s, '\n', 2) == Some(j);
    assert s[j + 1..] == rest;
    assert s[2..j] == rule;
  }

  /** Reading the rules back recovers the list, provided no rule spans
      several lines. */
  lemma {:induction false} ParseRenderRules(rules: seq<string>)
    requires forall i :: 0 <= i < |rules| ==> SingleLine(rules[i])
    ensures ParseRules(RenderRules(rules)) == Some(rules)
    decreases |rules|
  {
    if rules != [] {
      var tail := RenderRules(rules[1..]);
      RenderRulesFirst(rules);
      ParseRenderRules(rules[1..]);
      ParseRuleLine(rules[0], tail);
      assert ParseRules(RuleLine(rules[0]) + tail) == Some([rules[0]] + rules[1..]);
      assert [rules[0]] + rules[1..] == rules;
    }
  }

  /** Splits `s` around the leftmost occurrence of `marker`: the text
      before it and the text after it. */
  function SplitAtMarker(s: string, marker: string): (r: Option<(string, string)>) {
    match FindFrom(s, marker, 0)
    case None => None
    case Some(i) => Some((s[..i], s[i + |marker|..]))
  }

  /** Splits `d` into its sections: `d` must open with `header`, each
      section ends at the leftmost occurrence of its marker, and the last
      section is read as rule lines. */
  function ReadSections(d: string, header: string, m1: string, m2: string, m3: string): (r: Option<Sections>) {
    if !OccursAt(d, header, 0) then None
    else
      match SplitAtMarker(d[|header|..], m1)
      case None => None
      case Some((schema, r1)) =>
        match SplitAtMarker(r1, m2)
        case None => None
        case Some((table, r2)) =>
          match SplitAtMarker(r2, m3)
          case None => None
          case Some((meta, r3)) =>
            match ParseRules(r3)
            case None => None
            case Some(rules) => Some(Sections(schema, table, meta, rules))
  }

  /** Splits a description into its sections at the leftmost occurrence of
      each header. */
  function ReadDescription(d: string): (r: Option<Sections>) {
    ReadSections(d, SchemaHeader, TableMarker, MetadataMarker, RulesMarker)
  }

  /** A marker opens with a blank line and then `#`. */
  predicate IsMarker(m: string) {
    |m| >= 3 && m[0] == '\n' && m[1] == '\n' && m[2] == '#'
  }

  /** A marker is found right after a section text that holds no `#`. */
  lemma FindMarker(content: string, marker: string, rest: string)
    requires IsMarker(marker) && HashFree(content)
    ensures FindFrom(Section(content, marker, rest), marker, 0) == Some(|content|)
  {
    var s := Section(content, marker, rest);
    assert s[|content|..|content| + |marker|] == marker;
    forall k | 0 <= k < |content| ensures !OccursAt(s, marker, k) {
      if k + 2 < |content| {
        assert s[k + 2] == content[k + 2];
      } else {
        assert s[k + 2] == marker[k + 2 - |content|];
      }
      assert s[k + 2] != marker[2];
      assert s[k..k + |marker|][2] == s[k + 2];
    }
    FindFromFirst(s, marker, 0, |content|);
  }

  /** Splitting a section at its marker gives back its text and the rest. */
  lemma SplitSection(content: string, marker: string, rest: string)
    requires IsMarker(marker) && HashFree(content)
    ensures SplitAtMarker(Section(content, marker, rest), marker) == Some((content, rest))
  {
    var s := Section(content, marker, rest);
    FindMarker(content, marker, rest);
    assert s[..|content|] == content;
    assert s[|content| + |marker|..] == rest;
  }

  /** The splitter recovers the sections of any join whose markers open
      with a blank line and `#` and whose section texts hold no `#`. */
  lemma ReadJoin(header: string, m1: string, m2: string, m3: string,
                 schema: string, table: string, meta: string, rules: seq<string>)
    requires IsMarker(m1) && IsMarker(m2) && IsMarker(m3)
    requires HashFree(schema) && HashFree(table) && HashFree(meta)
    requires forall i :: 0 <= i < |rules| ==> SingleLine(rules[i])
    ensures ReadSections(Join(header, m1, m2, m3, schema, table, meta, RenderRules(rules)), header, m1, m2, m3)
      == Some(Sections(schema, table, meta, rules))
  {
    var rulesText := RenderRules(rules);
    var r2 := Section(meta, m3, rulesText);
    var r1 := Section(table, m2, r2);
    var body := Section(schema, m1, r1);
    var d := header + body;
    assert d[..|header|] == header;
    assert d[|header|..] == body;
    SplitSection(schema, m1, r1);
    SplitSection(table, m2, r2);
    SplitSection(meta, m3, rulesText);
    ParseRenderRules(rules);
  }

  /** The reader recovers every section of a layout whose schema, table
      and metadata texts contain no `#` and whose rules are single lines. */
  lemma ReadLayout(schema: string, table: string, meta: string, rules: seq<string>)
    requires HashFree(schema) && HashFree(table) && HashFree(meta)
    requires forall i :: 0 <= i < |rules| ==> SingleLine(rules[i])
    ensures ReadDescription(Layout(schema, table, meta, RenderRules(rules)))
      == Some(Sections(schema, table, meta, rules))
  {
    MarkersOfLayout();
    ReadJoin(SchemaHeader, TableMarker, MetadataMarker, RulesMarker, schema, table, meta, rules);
  }

  /** The three markers of a description each open with a blank line and `#`. */
  lemma MarkersOfLayout()
    ensures IsMarker(TableMarker) && IsMarker(MetadataMarker) && IsMarker(RulesMarker)
  {
  }

  /** The reader recovers every section of an assembled description,
      provided the schema, table-name and metadata texts contain no `#` and
      no rule spans several lines. */
  lemma ReadBuildRoundTrip(st: SchemaState, frontend: Option<string>, dump: Json -> string)
    requires HashFree(FinalSchema(st, frontend, dump))
    requires HashFree(TableNameText(st.tableName))
    requires HashFree(dump(st.metadata))
    requires forall i :: 0 <= i < |st.businessRules| ==> SingleLine(st.businessRules[i])
    ensures ReadDescription(BuildFinalSchemaDescription(st, frontend, dump))
      == Some(Sections(FinalSchema(st, frontend, dump), TableNameText(st.tableName),
                       dump(st.metadata), st.businessRules))
  {
    DescriptionLayout(st, frontend, dump);
    ReadLayout(FinalSchema(st, frontend, dump), TableNameText(st.tableName),
               dump(st.metadata), st.businessRules);
  }
}
