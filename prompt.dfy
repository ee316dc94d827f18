/** The prompt builder: `getPromptForAI` assembles the text sent to the
    language model by appending one segment after another to a single local
    string. The table-name resolution, the chart alias lookup and the
    timestamp formatting it calls are not part of this model: they are
    passed in as functions. */
module PromptBuilder {
  import opened JavaStrings
  import Guardrail

  /** A date of the request, as the instant it denotes. */
  datatype Date = Date(epochMillis: int)

  /** The fields of the request the builder reads. A date that is null is
      None. */
  datatype DashboardRequest = DashboardRequest(
    prompt: String,
    dashboardType: String,
    startDate: Option<Date>,
    endDate: Option<Date>)

  /** What table-name resolution yields: the user prompt with table names
      resolved, and the text of the schema object it filled in. */
  datatype PromptInfo = PromptInfo(prompt: String, schema: String)

  /** The helpers the builder calls, whose code is not modelled. */
  datatype Helpers = Helpers(
    aliasForChart: String -> String,
    resolveTables: String -> PromptInfo,
    timestampForSql: Date -> String)

  const INSTRUCTION: String := "Give ClickHouse sql query with correct syntax"
  const TABULAR_SHAPE: String := " with less than 15 essential columns and with limit 10000"
  const CHART_SHAPE_HEAD: String := " with required columns for making "
  const ALIAS_OPEN: String := ", adding any alias names ("
  const ALIAS_CLOSE: String := ") ie, like `column_name as alias`"
  const VALUE_RULE: String := " column used for alias `value` must be a number datatype and type will be the meaningful name of the column used for alias `value`"
  const TYPE_RULE: String := " also there can be multiple different type, hence value can be calculated based on type"
  const IGNORE_ID_COLUMNS: String := " and ignore selecting columns: id, cm_id and foreign key id"
  const TENANT_OPEN: String := "\nand include "
  const TENANT_CLOSE: String := " in where clause"
  const PROMPT_LABEL: String := "\nfor prompt: "
  const DATE_RANGE_LABEL: String := "\nin date range: "
  const DATE_RANGE_TO: String := " to "
  const SCHEMA_LABEL: String := "\nfor tables schema: "

  /** Dashboard types answered with rows: `table` and `text`, in any case. */
  predicate IsTabular(dashboardType: String) {
    EqualsIgnoreCase(dashboardType, "table") || EqualsIgnoreCase(dashboardType, "text")
  }

  /** The instruction for a chart: the columns it needs and the aliases that
      name them. */
  function ChartShape(dashboardType: String, alias: String): String {
    CHART_SHAPE_HEAD + ChartDetails(dashboardType, alias)
  }

  function ChartDetails(dashboardType: String, alias: String): String {
    dashboardType + ALIAS_OPEN + alias + ALIAS_CLOSE + VALUE_RULE + TYPE_RULE
  }

  /** The shape of the result asked for, by dashboard type. */
  function Shape(dashboardType: String, aliasForChart: String -> String): String {
    if IsTabular(dashboardType) then TABULAR_SHAPE
    else ChartShape(dashboardType, aliasForChart(dashboardType))
  }

  /** The request to keep to the tenant, with the condition the guardrail
      adds. */
  function TenantInstruction(cmId: Int32): String {
    TENANT_OPEN + Guardrail.TenantCondition(cmId) + TENANT_CLOSE
  }

  function PromptSegment(resolvedPrompt: String): String {
    PROMPT_LABEL + resolvedPrompt
  }

  function DateRangeSegment(start: String, end: String): String {
    DATE_RANGE_LABEL + start + DATE_RANGE_TO + end
  }

  /** The date range, or nothing unless both dates are present. */
  function DateRange(req: DashboardRequest, timestampForSql: Date -> String): String {
    if req.startDate.Some? && req.endDate.Some? then
      DateRangeSegment(timestampForSql(req.startDate.value), timestampForSql(req.endDate.value))
    else []
  }

  function SchemaSegment(schema: String): String {
    SCHEMA_LABEL + schema
  }

  /** The text obtained by appending the segments one after another. */
  function Join(segments: seq<String>): String {
    if segments == [] then [] else Join(segments[..|segments| - 1]) + segments[|segments| - 1]
  }

  /** Where segment `i` starts in Join(segments). */
  function Offset(segments: seq<String>, i: nat): nat
    requires i <= |segments|
  {
    |Join(segments[..i])|
  }

  /** Join lays the segments end to end: each starts where the previous one
      ends, and the last ends where the text does. */
  lemma {:induction false} JoinPlacesSegments(segments: seq<String>, i: nat)
    requires i < |segments|
    ensures OccursAt(Join(segments), segments[i], Offset(segments, i))
    ensures Offset(segments, i + 1) == Offset(segments, i) + |segments[i]|
    decreases |segments|
  {
    var n := |segments|;
    var init := segments[..n - 1];
    assert segments[..n] == segments;
    if i == n - 1 {
      assert segments[..i] == init;
      OccursAtEnd(Join(init), segments[i]);
    } else {
      JoinPlacesSegments(init, i);
      assert init[..i] == segments[..i];
      assert init[..i + 1] == segments[..i + 1];
      OccursInLonger(Join(init), segments[i], Offset(init, i), segments[n - 1]);
    }
  }

  /** The segments of the prompt, in the order lines 121-138 append them. */
  function PromptSegments(cmId: Int32, req: DashboardRequest, helpers: Helpers): (segments: seq<String>)
    ensures |segments| == 7
  {
    var info := helpers.resolveTables(req.prompt);
    [ INSTRUCTION,
      Shape(req.dashboardType, helpers.aliasForChart),
      IGNORE_ID_COLUMNS,
      TenantInstruction(cmId),
      PromptSegment(info.prompt),
      DateRange(req, helpers.timestampForSql),
      SchemaSegment(info.schema) ]
  }

  /** `getPromptForAI(cmId, reqDto)`: it opens with the instruction and
      closes with the schema. */
  function PromptForAi(cmId: Int32, req: DashboardRequest, helpers: Helpers): (prompt: String)
    ensures StartsWith(prompt, INSTRUCTION)
    ensures EndsWith(prompt, SchemaSegment(helpers.resolveTables(req.prompt).schema))
  {
    var segments := PromptSegments(cmId, req, helpers);
    JoinPlacesSegments(segments, 0);
    JoinPlacesSegments(segments, 6);
    assert segments[..0] == [] && segments[..7] == segments;
    Join(segments)
  }

  // ---------------------------------------------------------------------
  // Properties

  /** The prompt is exactly its seven segments, laid end to end in order:
      instruction, shape, ignored columns, tenant, user prompt, date range
      (possibly empty) and schema. */
  lemma SegmentsInOrder(cmId: Int32, req: DashboardRequest, helpers: Helpers)
    ensures var prompt, segments := PromptForAi(cmId, req, helpers), PromptSegments(cmId, req, helpers);
            && Offset(segments, 0) == 0
            && Offset(segments, 7) == |prompt|
            && forall i :: 0 <= i < 7 ==>
                 && OccursAt(prompt, segments[i], Offset(segments, i))
                 && Offset(segments, i + 1) == Offset(segments, i) + |segments[i]|
  {
    var segments := PromptSegments(cmId, req, helpers);
    assert segments[..7] == segments;
    forall i | 0 <= i < 7
      ensures OccursAt(Join(segments), segments[i], Offset(segments, i))
      ensures Offset(segments, i + 1) == Offset(segments, i) + |segments[i]|
    {
      JoinPlacesSegments(segments, i);
    }
  }

  /** The shape segment comes right after the instruction. */
  lemma ShapeAfterInstruction(cmId: Int32, req: DashboardRequest, helpers: Helpers)
    ensures OccursAt(PromptForAi(cmId, req, helpers),
                     Shape(req.dashboardType, helpers.aliasForChart), |INSTRUCTION|)
  {
    var segments := PromptSegments(cmId, req, helpers);
    SegmentsInOrder(cmId, req, helpers);
    assert segments[..1] == [INSTRUCTION];
    assert Offset(segments, 1) == |INSTRUCTION|;
  }

  lemma TabularShapeFollows(cmId: Int32, req: DashboardRequest, helpers: Helpers)
    requires IsTabular(req.dashboardType)
    ensures var prompt := PromptForAi(cmId, req, helpers);
            OccursAt(prompt, TABULAR_SHAPE, |INSTRUCTION|) && !OccursAt(prompt, CHART_SHAPE_HEAD, |INSTRUCTION|)
  {
    ShapeAfterInstruction(cmId, req, helpers);
    ShapeTextsDiffer();
    OccursExcludes(PromptForAi(cmId, req, helpers), TABULAR_SHAPE, CHART_SHAPE_HEAD, |INSTRUCTION|, 33);
  }

  lemma ChartShapeFollows(cmId: Int32, req: DashboardRequest, helpers: Helpers)
    requires !IsTabular(req.dashboardType)
    ensures var prompt, t := PromptForAi(cmId, req, helpers), req.dashboardType;
            && OccursAt(prompt, ChartShape(t, helpers.aliasForChart(t)), |INSTRUCTION|)
            && !OccursAt(prompt, TABULAR_SHAPE, |INSTRUCTION|)
  {
    var t := req.dashboardType;
    var chart := ChartShape(t, helpers.aliasForChart(t));
    var prompt := PromptForAi(cmId, req, helpers);
    ShapeAfterInstruction(cmId, req, helpers);
    ChartShapeAt33(t, helpers.aliasForChart(t));
    ShapeTextsDiffer();
    OccursExcludes(prompt, chart, TABULAR_SHAPE, |INSTRUCTION|, 33);
  }

  /** The two shape texts first differ within their first 34 characters. */
  lemma ShapeTextsDiffer()
    ensures 33 < |TABULAR_SHAPE| && 33 < |CHART_SHAPE_HEAD|
    ensures TABULAR_SHAPE[33] == 'm' && CHART_SHAPE_HEAD[33] == ' '
  {
  }

  lemma ChartShapeAt33(dashboardType: String, alias: String)
    ensures var chart := ChartShape(dashboardType, alias);
            33 < |chart| && chart[33] == ' '
  {
    assert CHART_SHAPE_HEAD[33] == ' ';
  }

  /** Right after the instruction comes the row limit for tables and text,
      and the chart instruction for every other type, never the other one. */
  lemma ShapeFollowsType(cmId: Int32, req: DashboardRequest, helpers: Helpers)
    ensures var prompt, t := PromptForAi(cmId, req, helpers), req.dashboardType;
            && (OccursAt(prompt, TABULAR_SHAPE, |INSTRUCTION|) <==> IsTabular(t))
            && (!IsTabular(t) ==>
                  OccursAt(prompt, ChartShape(t, helpers.aliasForChart(t)), |INSTRUCTION|))
            && (IsTabular(t) ==> !OccursAt(prompt, CHART_SHAPE_HEAD, |INSTRUCTION|))
  {
    if IsTabular(req.dashboardType) {
      TabularShapeFollows(cmId, req, helpers);
    } else {
      ChartShapeFollows(cmId, req, helpers);
    }
  }

  /** Deciding the shape ignores case: the type is tabular exactly when its
      lower-case form is `table` or `text`. */
  lemma ShapeIgnoresCase(dashboardType: String)
    ensures IsTabular(dashboardType) <==>
              LowerAscii(dashboardType) == "table" || LowerAscii(dashboardType) == "text"
  {
    EqualsIgnoreCaseLower(dashboardType, "table");
    EqualsIgnoreCaseLower(dashboardType, "text");
  }

  /** Whatever the type, dates and user prompt, the prompt asks to ignore the
      id columns and to include the very condition the guardrail adds. */
  lemma TenantAlwaysRequested(cmId: Int32, req: DashboardRequest, helpers: Helpers)
    ensures var prompt := PromptForAi(cmId, req, helpers);
            && Contains(prompt, IGNORE_ID_COLUMNS)
            && Contains(prompt, TenantInstruction(cmId))
            && Contains(prompt, Guardrail.TenantCondition(cmId))
  {
    var segments := PromptSegments(cmId, req, helpers);
    var prompt := PromptForAi(cmId, req, helpers);
    SegmentsInOrder(cmId, req, helpers);
    OccursAtContains(prompt, segments[2], Offset(segments, 2));
    OccursAtContains(prompt, segments[3], Offset(segments, 3));
    ContainsMiddle(TENANT_OPEN, Guardrail.TenantCondition(cmId), TENANT_CLOSE);
    ContainsTransitive(prompt, TenantInstruction(cmId), Guardrail.TenantCondition(cmId));
  }

  /** The same request without its dates. */
  function WithoutDates(req: DashboardRequest): DashboardRequest {
    req.(startDate := None, endDate := None)
  }

  /** The date range is there only when both dates are: with a date missing
      the prompt is the one without dates, and with both it is that prompt
      with the range segment put in before the schema. */
  lemma DateRangeNeedsBothDates(cmId: Int32, req: DashboardRequest, helpers: Helpers)
    ensures var prompt, plain := PromptForAi(cmId, req, helpers), PromptForAi(cmId, WithoutDates(req), helpers);
            var schema := SchemaSegment(helpers.resolveTables(req.prompt).schema);
            && (req.startDate.None? || req.endDate.None? ==> prompt == plain)
            && (req.startDate.Some? && req.endDate.Some? ==>
                  var range := DateRangeSegment(helpers.timestampForSql(req.startDate.value),
                                                helpers.timestampForSql(req.endDate.value));
                  && |schema| <= |plain|
                  && prompt == plain[..|plain| - |schema|] + range + schema)
  {
    var segments := PromptSegments(cmId, req, helpers);
    var plainSegments := PromptSegments(cmId, WithoutDates(req), helpers);
    SegmentsWithoutDates(cmId, req, helpers);
    JoinWithoutFifth(segments, plainSegments);
  }

  /** Dropping the dates changes the fifth segment (counting from zero) to
      the empty text and no other. */
  lemma SegmentsWithoutDates(cmId: Int32, req: DashboardRequest, helpers: Helpers)
    ensures var segments, plain := PromptSegments(cmId, req, helpers), PromptSegments(cmId, WithoutDates(req), helpers);
            && segments[..5] == plain[..5] && segments[6] == plain[6] && plain[5] == []
            && segments[5] == DateRange(req, helpers.timestampForSql)
  {
  }

  /** Two joins of seven segments that differ only in the fifth, which is
      empty in the second. */
  lemma JoinWithoutFifth(segments: seq<String>, plain: seq<String>)
    requires |segments| == |plain| == 7
    requires segments[..5] == plain[..5] && segments[6] == plain[6] && plain[5] == []
    ensures segments[5] == [] ==> Join(segments) == Join(plain)
    ensures var last := plain[6];
            && |last| <= |Join(plain)|
            && Join(segments) == Join(plain)[..|Join(plain)| - |last|] + segments[5] + last
  {
    JoinLastTwo(segments);
    JoinLastTwo(plain);
    var head := Join(plain[..5]);
    assert Join(plain) == head + plain[6];
    assert Join(plain)[..|head|] == head;
  }

  /** The join of seven segments, with its last two split off. */
  lemma JoinLastTwo(segments: seq<String>)
    requires |segments| == 7
    ensures Join(segments) == Join(segments[..5]) + segments[5] + segments[6]
  {
    assert segments[..7] == segments;
    assert segments[..6][..5] == segments[..5];
  }
}
