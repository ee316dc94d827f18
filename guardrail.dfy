/** The SQL guardrail: `validateAIGeneratedSQL` takes the language model's
    reply and the tenant id `cmId`, rejects anything that is not a select,
    and tries to scope the statement to the tenant. It is modelled exactly
    as written, including the cases in which the statement is left unscoped;
    `ValidateScoped` is the version with those cases corrected. */
module Guardrail {
  import opened JavaStrings

  /** HttpStatus.UNPROCESSABLE_ENTITY. */
  const UNPROCESSABLE_ENTITY: int := 422
  const ONLY_SELECT_MESSAGE: String := "Only select operation supported!"
  const TENANT_COLUMN: String := "cm_id"

  /** How a call of the guardrail can end without a statement. */
  datatype GuardError =
      /** A KaptureException wrapping an error response: it is caught by its
          own handler and its status and message reach the caller. */
    | Rejected(status: int, message: String)
      /** The ArrayIndexOutOfBoundsException thrown by `split(separator)[1]`:
          only the generic handler catches it, so it becomes a generic error
          response, not a rejection. */
    | SplitIndexOutOfBounds(separator: String)

  datatype Result<+T> = Ok(value: T) | Err(error: GuardError)

  const ONLY_SELECT: GuardError := Rejected(UNPROCESSABLE_ENTITY, ONLY_SELECT_MESSAGE)

  /** `aiReply.replaceAll("[\n;]", " ")`: every line feed and every semicolon
      becomes one space, everything else stays where it was. */
  function Sanitise(reply: String): (sql: String)
    ensures |sql| == |reply|
    ensures forall i :: 0 <= i < |reply| ==>
              sql[i] == if reply[i] == '\n' || reply[i] == ';' then ' ' else reply[i]
  {
    if reply == [] then []
    else [if reply[0] == '\n' || reply[0] == ';' then ' ' else reply[0]] + Sanitise(reply[1..])
  }

  /** The test at line 107, case-sensitive and without trimming. */
  predicate IsSelect(sql: String) {
    StartsWith(sql, "SELECT") || StartsWith(sql, "select")
  }

  /** The test at line 110. */
  predicate HasWhere(sql: String) {
    Contains(sql, "WHERE") || Contains(sql, "where")
  }

  /** The tenant condition `cm_id = <cmId>`, as every text below spells it. */
  function TenantCondition(cmId: Int32): String {
    TENANT_COLUMN + " = " + IntToString(cmId as int)
  }

  /** Text appended to a statement with no where clause:
      ` where cm_id = <cmId>`. */
  function TenantClause(cmId: Int32): String {
    " where " + TenantCondition(cmId)
  }

  /** Text every lower-case `where` is replaced with:
      `where cm_id = <cmId> and `. */
  function TenantRewrite(cmId: Int32): String {
    "where " + TenantCondition(cmId) + " and "
  }

  /** `sql.split(separator)[1].contains("cm_id")`, which may throw. */
  function SegmentHasTenant(sql: String, separator: String): Result<bool>
    requires |separator| > 0
  {
    match SplitSecond(sql, separator)
    case None => Err(SplitIndexOutOfBounds(separator))
    case Some(segment) => Ok(Contains(segment, TENANT_COLUMN))
  }

  /** The second disjunct at line 113, as written (no negation). */
  function LowercaseDisjunct(sql: String): Result<bool> {
    if !Contains(sql, "where") then Ok(false)
    else SegmentHasTenant(sql, " where ")
  }

  /** The condition at lines 112-113 with Java's precedence (`&&` before
      `||`) and left-to-right short-circuit evaluation. It can only fail in
      one of the two splits, and it fails in the first whenever `WHERE`
      occurs without ` WHERE `. */
  function RewriteCondition(sql: String): (r: Result<bool>)
    ensures r.Err? ==> r.error == SplitIndexOutOfBounds(" WHERE ") || r.error == SplitIndexOutOfBounds(" where ")
    ensures !HasWhere(sql) ==> r == Ok(false)
    ensures Contains(sql, "WHERE") && !Contains(sql, " WHERE ") ==> r == Err(SplitIndexOutOfBounds(" WHERE "))
  {
    if !Contains(sql, "WHERE") then LowercaseDisjunct(sql)
    else match SegmentHasTenant(sql, " WHERE ")
      case Err(e) => Err(e)
      case Ok(hasTenant) => if !hasTenant then Ok(true) else LowercaseDisjunct(sql)
  }

  /** `validateAIGeneratedSQL(cmId, aiReply)`. */
  function ValidateAiGeneratedSql(cmId: Int32, aiReply: String): (r: Result<String>)
    ensures r == Err(ONLY_SELECT) <==> !IsSelect(Sanitise(aiReply))
    ensures r.Err? && r.error.Rejected? ==> r.error == ONLY_SELECT
  {
    var sql := Sanitise(aiReply);
    if !IsSelect(sql) then Err(ONLY_SELECT)
    else if !HasWhere(sql) then Ok(sql + TenantClause(cmId))
    else match RewriteCondition(sql)
      case Err(e) => Err(e)
      case Ok(rewrite) => Ok(if rewrite then Replace(sql, "where", TenantRewrite(cmId)) else sql)
  }

  // ---------------------------------------------------------------------
  // Sanitising

  /** Sanitised text holds no line feed and no semicolon. */
  lemma SanitiseRemovesSeparators(reply: String)
    ensures '\n' !in Sanitise(reply) && ';' !in Sanitise(reply)
  {
    var sql := Sanitise(reply);
    forall i | 0 <= i < |sql| ensures sql[i] != '\n' && sql[i] != ';' {
    }
  }

  /** Text without line feeds and semicolons is left as it is, so sanitising
      twice is sanitising once. */
  lemma SanitiseIdempotent(reply: String)
    ensures '\n' !in reply && ';' !in reply ==> Sanitise(reply) == reply
    ensures Sanitise(Sanitise(reply)) == Sanitise(reply)
  {
    SanitiseRemovesSeparators(reply);
    var once := Sanitise(reply);
    assert Sanitise(once) == once;
  }

  // ---------------------------------------------------------------------
  // Rejection

  /** A reply is rejected, with status 422 and "Only select operation
      supported!", exactly when its sanitised text starts with neither
      `SELECT` nor `select`; every other failure is a split error. */
  lemma RejectsExactlyNonSelect(cmId: Int32, aiReply: String)
    ensures ValidateAiGeneratedSql(cmId, aiReply).Err? &&
            ValidateAiGeneratedSql(cmId, aiReply).error.Rejected?
            <==> !IsSelect(Sanitise(aiReply))
    ensures ValidateAiGeneratedSql(cmId, aiReply).Err? && IsSelect(Sanitise(aiReply)) ==>
              ValidateAiGeneratedSql(cmId, aiReply).error.SplitIndexOutOfBounds?
  {
  }

  /** Any other capitalisation of `select` (`Select`, `SeLeCt`, ...) is
      rejected: the test is not case-insensitive. */
  lemma RejectsOtherCapitalisations(cmId: Int32, aiReply: String)
    requires |aiReply| >= 6 && LowerAscii(aiReply[..6]) == "select"
    requires aiReply[..6] != "SELECT" && aiReply[..6] != "select"
    ensures ValidateAiGeneratedSql(cmId, aiReply) == Err(ONLY_SELECT)
  {
    var sql := Sanitise(aiReply);
    forall i | 0 <= i < 6 ensures sql[i] == aiReply[i] {
      assert LowerAscii(aiReply[..6])[i] == ToLowerAscii(aiReply[i]);
    }
    assert sql[..6] == aiReply[..6];
  }

  /** A reply that starts with white space, a line feed or a semicolon is
      rejected: nothing is trimmed before the test. */
  lemma RejectsLeadingWhitespace(cmId: Int32, aiReply: String)
    requires |aiReply| > 0 && aiReply[0] in " \t\r\n;"
    ensures ValidateAiGeneratedSql(cmId, aiReply) == Err(ONLY_SELECT)
  {
    var sql := Sanitise(aiReply);
    assert sql[0] in " \t\r";
    if |sql| >= 6 {
      assert sql[..6][0] == sql[0];
    }
  }

  // ---------------------------------------------------------------------
  // What an accepted statement looks like

  lemma TenantTextsHaveNoSeparators(cmId: Int32)
    ensures '\n' !in TenantClause(cmId) && ';' !in TenantClause(cmId)
    ensures '\n' !in TenantRewrite(cmId) && ';' !in TenantRewrite(cmId)
    ensures 'w' !in "SELECT" && 'w' !in "select"
  {
    var d := IntToString(cmId as int);
    assert forall i :: 0 <= i < |d| ==> d[i] != '\n' && d[i] != ';';
    var c := TenantCondition(cmId);
    assert c == TENANT_COLUMN + " = " + d;
    assert '\n' !in c && ';' !in c;
  }

  /** An accepted statement holds no line feed and no semicolon, so it is a
      single line and a single statement. */
  lemma AcceptedHasNoSeparators(cmId: Int32, aiReply: String)
    requires ValidateAiGeneratedSql(cmId, aiReply).Ok?
    ensures '\n' !in ValidateAiGeneratedSql(cmId, aiReply).value
    ensures ';' !in ValidateAiGeneratedSql(cmId, aiReply).value
  {
    var sql := Sanitise(aiReply);
    SanitiseRemovesSeparators(aiReply);
    TenantTextsHaveNoSeparators(cmId);
    ReplaceKeepsCharOut(sql, "where", TenantRewrite(cmId), '\n');
    ReplaceKeepsCharOut(sql, "where", TenantRewrite(cmId), ';');
  }

  /** An accepted statement keeps the leading `SELECT`/`select` of the
      sanitised reply and is never shorter than it. */
  lemma AcceptedKeepsSelect(cmId: Int32, aiReply: String)
    requires ValidateAiGeneratedSql(cmId, aiReply).Ok?
    ensures var sql, out := Sanitise(aiReply), ValidateAiGeneratedSql(cmId, aiReply).value;
            && IsSelect(out) && out[..6] == sql[..6]
            && |out| >= |sql|
  {
    var sql := Sanitise(aiReply);
    var head := sql[..6];
    TenantTextsHaveNoSeparators(cmId);
    assert head == "SELECT" || head == "select";
    ReplaceKeepsPrefix(sql, "where", TenantRewrite(cmId), head);
    ReplaceGrows(sql, "where", TenantRewrite(cmId));
    var out := ValidateAiGeneratedSql(cmId, aiReply).value;
    assert out == sql || out == sql + TenantClause(cmId) || out == Replace(sql, "where", TenantRewrite(cmId));
    assert (sql + TenantClause(cmId))[..6] == head;
  }

  // ---------------------------------------------------------------------
  // Tenant scoping, branch by branch

  /** Without `WHERE` or `where`, the tenant clause is appended: the
      sanitised reply is a prefix of the result and the clause ends it. */
  lemma UnscopedReplyGetsTenantClause(cmId: Int32, aiReply: String)
    requires IsSelect(Sanitise(aiReply)) && !HasWhere(Sanitise(aiReply))
    ensures ValidateAiGeneratedSql(cmId, aiReply) == Ok(Sanitise(aiReply) + TenantClause(cmId))
    ensures StartsWith(ValidateAiGeneratedSql(cmId, aiReply).value, Sanitise(aiReply))
    ensures EndsWith(ValidateAiGeneratedSql(cmId, aiReply).value, TenantClause(cmId))
  {
    var sql := Sanitise(aiReply);
    var out := sql + TenantClause(cmId);
    assert out[..|sql|] == sql;
    assert out[|out| - |TenantClause(cmId)|..] == TenantClause(cmId);
  }

  /** A clause written only in upper case is never changed: the rewrite
      replaces lower-case `where` only, so the statement comes back as it
      is, or the split at line 112 throws. */
  lemma UppercaseClauseNeverRewritten(cmId: Int32, aiReply: String)
    requires IsSelect(Sanitise(aiReply))
    requires Contains(Sanitise(aiReply), "WHERE") && !Contains(Sanitise(aiReply), "where")
    ensures var sql := Sanitise(aiReply);
            ValidateAiGeneratedSql(cmId, aiReply) ==
              if SplitSecond(sql, " WHERE ").None? then Err(SplitIndexOutOfBounds(" WHERE ")) else Ok(sql)
  {
    ReplaceAbsent(Sanitise(aiReply), "where", TenantRewrite(cmId));
  }

  /** With lower-case `where` only, the rewrite fires exactly when the text
      after the first ` where ` already names `cm_id`; otherwise the
      statement comes back unchanged. */
  lemma LowercaseClauseRewrittenOnlyWhenScoped(cmId: Int32, aiReply: String)
    requires IsSelect(Sanitise(aiReply))
    requires !Contains(Sanitise(aiReply), "WHERE") && Contains(Sanitise(aiReply), "where")
    ensures var sql := Sanitise(aiReply);
            ValidateAiGeneratedSql(cmId, aiReply) ==
              match SplitSecond(sql, " where ")
              case None => Err(SplitIndexOutOfBounds(" where "))
              case Some(segment) =>
                if Contains(segment, TENANT_COLUMN) then Ok(Replace(sql, "where", TenantRewrite(cmId)))
                else Ok(sql)
  {
  }

  /** The rewrite puts the tenant condition after every lower-case `where`
      it finds, so when it fires on a clause that already names `cm_id` the
      result holds the added condition and, after it, the `cm_id` that was
      already there. */
  lemma LowercaseScopedClauseDuplicated(cmId: Int32, aiReply: String)
    requires IsSelect(Sanitise(aiReply)) && !Contains(Sanitise(aiReply), "WHERE")
    requires SplitSecond(Sanitise(aiReply), " where ").Some?
    requires Contains(SplitSecond(Sanitise(aiReply), " where ").value, TENANT_COLUMN)
    ensures ValidateAiGeneratedSql(cmId, aiReply).Ok?
    ensures Contains(ValidateAiGeneratedSql(cmId, aiReply).value, TenantRewrite(cmId))
    ensures var out, rewrite := ValidateAiGeneratedSql(cmId, aiReply).value, TenantRewrite(cmId);
            exists k :: OccursAt(out, rewrite, k) && Contains(out[k + |rewrite|..], TENANT_COLUMN)
  {
    var sql := Sanitise(aiReply);
    FirstWhereBeforeClause(sql);
    LowercaseClauseRewrittenOnlyWhenScoped(cmId, aiReply);
    ClauseAfterFirstWhere(sql);
    RewriteKeepsLaterTenant(sql, cmId);
    ReplaceInserts(sql, "where", TenantRewrite(cmId));
  }

  /** The first lower-case `where` ends before the clause that
      `split(" where ")[1]` yields. */
  lemma FirstWhereBeforeClause(sql: String)
    requires SplitSecond(sql, " where ").Some?
    ensures Contains(sql, "where")
    ensures IndexOf(sql, "where", 0).value + 5 < SecondStart(sql, " where ")
  {
    SplitSecondNeedsSeparator(sql, " where ");
    var k := IndexOf(sql, " where ", 0).value;
    OccursAtPart(sql, " where ", k, 1, 6);
    assert " where "[1..6] == "where";
    OccursAtContains(sql, "where", k + 1);
  }

  /** A clause after the first ` where ` that names `cm_id` lies in the
      text after the first `where`. */
  lemma ClauseAfterFirstWhere(sql: String)
    requires SplitSecond(sql, " where ").Some?
    requires Contains(SplitSecond(sql, " where ").value, TENANT_COLUMN)
    requires Contains(sql, "where") && IndexOf(sql, "where", 0).value + 5 < SecondStart(sql, " where ")
    ensures Contains(sql[IndexOf(sql, "where", 0).value + 5..], TENANT_COLUMN)
  {
    SplitSecondSpec(sql, " where ");
    ContainsWithinTail(sql, SplitSecond(sql, " where ").value, SecondStart(sql, " where "),
                       IndexOf(sql, "where", 0).value + 5, TENANT_COLUMN);
  }

  lemma TenantColumnOutsideWhere()
    ensures forall j :: 0 <= j < |TENANT_COLUMN| ==> TENANT_COLUMN[j] !in "where"
  {
  }

  /** After the rewrite at the first `where`, a `cm_id` that followed it
      still follows the inserted text. */
  lemma RewriteKeepsLaterTenant(sql: String, cmId: Int32)
    requires Contains(sql, "where") && Contains(sql[IndexOf(sql, "where", 0).value + 5..], TENANT_COLUMN)
    ensures var out, rewrite := Replace(sql, "where", TenantRewrite(cmId)), TenantRewrite(cmId);
            exists k :: OccursAt(out, rewrite, k) && Contains(out[k + |rewrite|..], TENANT_COLUMN)
  {
    var k := IndexOf(sql, "where", 0).value;
    var rest := sql[k + 5..];
    var rewrite := TenantRewrite(cmId);
    var tail := Replace(rest, "where", rewrite);
    TenantColumnOutsideWhere();
    ReplaceKeepsOccurrence(rest, "where", rewrite, TENANT_COLUMN, IndexOf(rest, TENANT_COLUMN, 0).value);
    ReplaceStep(sql, "where", rewrite);
    var out := Replace(sql, "where", rewrite);
    OccursAtEnd(sql[..k], rewrite);
    OccursInLonger(sql[..k] + rewrite, rewrite, k, tail);
    assert out[k + |rewrite|..] == tail;
    assert OccursAt(out, rewrite, k) && Contains(out[k + |rewrite|..], TENANT_COLUMN);
  }

  /** `split(" WHERE ")[1]` throws when `WHERE` occurs but ` WHERE ` does
      not (for example `WHERE` at the very end, or after a tab); the same
      for lower case when only `where` occurs (for example in a table name
      such as `somewhere`). Either way the caller gets a generic error, not
      a rejection. */
  lemma MissingSeparatorFails(cmId: Int32, aiReply: String)
    requires IsSelect(Sanitise(aiReply))
    ensures Contains(Sanitise(aiReply), "WHERE") && !Contains(Sanitise(aiReply), " WHERE ") ==>
              ValidateAiGeneratedSql(cmId, aiReply) == Err(SplitIndexOutOfBounds(" WHERE "))
    ensures !Contains(Sanitise(aiReply), "WHERE") && Contains(Sanitise(aiReply), "where")
            && !Contains(Sanitise(aiReply), " where ") ==>
              ValidateAiGeneratedSql(cmId, aiReply) == Err(SplitIndexOutOfBounds(" where "))
  {
    var sql := Sanitise(aiReply);
    SplitSecondFails(sql, " WHERE ");
    SplitSecondFails(sql, " where ");
  }

  // ---------------------------------------------------------------------
  // Statements left without a tenant condition, and the corrected guardrail

  /** What the corrected guardrail puts in place of an upper-case `WHERE`. */
  function UpperTenantRewrite(cmId: Int32): String {
    "WHERE " + TenantCondition(cmId) + " and "
  }

  lemma TenantTextsNameTenant(cmId: Int32)
    ensures Contains(TenantClause(cmId), TenantCondition(cmId))
    ensures Contains(TenantRewrite(cmId), TenantCondition(cmId))
    ensures Contains(UpperTenantRewrite(cmId), TenantCondition(cmId))
    ensures Contains(TenantCondition(cmId), TENANT_COLUMN)
  {
    var c := TenantCondition(cmId);
    ContainsEnd(" where ", c);
    ContainsMiddle("where ", c, " and ");
    ContainsMiddle("WHERE ", c, " and ");
    ContainsStart(TENANT_COLUMN, " = ");
    ContainsStart(TENANT_COLUMN + " = ", IntToString(cmId as int));
    ContainsTransitive(c, TENANT_COLUMN + " = ", TENANT_COLUMN);
  }

  /** A segment produced by split lies inside the statement, so when the
      segment names `cm_id` the statement does too. */
  lemma SegmentTenantInStatement(sql: String, separator: String)
    requires |separator| > 0
    ensures SegmentHasTenant(sql, separator) == Ok(true) ==> Contains(sql, TENANT_COLUMN)
  {
    if SplitSecond(sql, separator).Some? {
      var segment := SplitSecond(sql, separator).value;
      SplitSecondSpec(sql, separator);
      if Contains(segment, TENANT_COLUMN) {
        ContainsWithin(sql, segment, SecondStart(sql, separator), TENANT_COLUMN);
      }
    }
  }

  /** An upper-case clause that does not name `cm_id` satisfies the first
      disjunct at line 112, but the rewrite at line 114 replaces lower-case
      `where` only: the statement is accepted without any tenant condition. */
  lemma UppercaseClauseLeftUnscoped(cmId: Int32, aiReply: String)
    requires IsSelect(Sanitise(aiReply))
    requires !Contains(Sanitise(aiReply), "where") && !Contains(Sanitise(aiReply), TENANT_COLUMN)
    requires SplitSecond(Sanitise(aiReply), " WHERE ").Some?
    ensures ValidateAiGeneratedSql(cmId, aiReply) == Ok(Sanitise(aiReply))
    ensures !Contains(ValidateAiGeneratedSql(cmId, aiReply).value, TENANT_COLUMN)
  {
    var sql := Sanitise(aiReply);
    SplitSecondNeedsSeparator(sql, " WHERE ");
    var k := IndexOf(sql, " WHERE ", 0).value;
    OccursAtPart(sql, " WHERE ", k, 1, 6);
    assert " WHERE "[1..6] == "WHERE";
    OccursAtContains(sql, "WHERE", k + 1);
    UppercaseClauseNeverRewritten(cmId, aiReply);
  }

  /** The second disjunct at line 113 lacks its negation: a lower-case clause
      that does not name `cm_id` is accepted without any tenant condition. */
  lemma LowercaseClauseLeftUnscoped(cmId: Int32, aiReply: String)
    requires IsSelect(Sanitise(aiReply))
    requires !Contains(Sanitise(aiReply), "WHERE") && !Contains(Sanitise(aiReply), TENANT_COLUMN)
    requires SplitSecond(Sanitise(aiReply), " where ").Some?
    ensures ValidateAiGeneratedSql(cmId, aiReply) == Ok(Sanitise(aiReply))
    ensures !Contains(ValidateAiGeneratedSql(cmId, aiReply).value, TENANT_COLUMN)
  {
    var sql := Sanitise(aiReply);
    SplitSecondNeedsSeparator(sql, " where ");
    var k := IndexOf(sql, " where ", 0).value;
    OccursAtPart(sql, " where ", k, 1, 6);
    assert " where "[1..6] == "where";
    OccursAtContains(sql, "where", k + 1);
    SegmentTenantInStatement(sql, " where ");
  }

  /** `sql.contains(keyword) && !sql.split(" " + keyword + " ")[1].contains("cm_id")`:
      the keyword opens a clause that does not yet name the tenant column. */
  function NeedsTenant(sql: String, keyword: String): Result<bool>
    requires |keyword| > 0
  {
    if !Contains(sql, keyword) then Ok(false)
    else match SegmentHasTenant(sql, " " + keyword + " ")
      case Err(e) => Err(e)
      case Ok(hasTenant) => Ok(!hasTenant)
  }

  /** The guardrail with both findings corrected: the keyword is rewritten
      in the case in which it was found, and a lower-case clause is
      rewritten when it does NOT yet name `cm_id`. Rejection, the appended
      clause and the split errors are as in ValidateAiGeneratedSql. */
  function ValidateScoped(cmId: Int32, aiReply: String): Result<String> {
    var sql := Sanitise(aiReply);
    if !IsSelect(sql) then Err(ONLY_SELECT)
    else if !HasWhere(sql) then Ok(sql + TenantClause(cmId))
    else match NeedsTenant(sql, "WHERE")
      case Err(e) => Err(e)
      case Ok(upper) =>
        if upper then Ok(Replace(sql, "WHERE", UpperTenantRewrite(cmId)))
        else match NeedsTenant(sql, "where")
          case Err(e) => Err(e)
          case Ok(lower) => Ok(if lower then Replace(sql, "where", TenantRewrite(cmId)) else sql)
  }

  lemma ReplaceNamesTenant(sql: String, keyword: String, rewrite: String, cmId: Int32)
    requires |keyword| > 0 && Contains(sql, keyword)
    requires Contains(rewrite, TenantCondition(cmId))
    ensures Contains(Replace(sql, keyword, rewrite), TenantCondition(cmId))
  {
    ReplaceInserts(sql, keyword, rewrite);
    ContainsTransitive(Replace(sql, keyword, rewrite), rewrite, TenantCondition(cmId));
  }

  /** A keyword whose clause already names `cm_id` means the statement does. */
  lemma NoRewriteMeansScoped(sql: String, keyword: String)
    requires |keyword| > 0 && Contains(sql, keyword) && NeedsTenant(sql, keyword) == Ok(false)
    ensures Contains(sql, TENANT_COLUMN)
  {
    SegmentTenantInStatement(sql, " " + keyword + " ");
  }

  /** The four shapes an accepted statement of the corrected guardrail can
      have. */
  lemma ScopedOutcomes(cmId: Int32, aiReply: String)
    ensures var sql, r := Sanitise(aiReply), ValidateScoped(cmId, aiReply);
            r.Ok? ==>
              || r.value == sql + TenantClause(cmId)
              || (Contains(sql, "WHERE") && r.value == Replace(sql, "WHERE", UpperTenantRewrite(cmId)))
              || (Contains(sql, "where") && r.value == Replace(sql, "where", TenantRewrite(cmId)))
              || (r.value == sql && Contains(sql, TENANT_COLUMN))
  {
    var sql := Sanitise(aiReply);
    if IsSelect(sql) && HasWhere(sql) {
      if Contains(sql, "WHERE") && NeedsTenant(sql, "WHERE") == Ok(false) {
        NoRewriteMeansScoped(sql, "WHERE");
      }
      if Contains(sql, "where") && NeedsTenant(sql, "where") == Ok(false) {
        NoRewriteMeansScoped(sql, "where");
      }
    }
  }

  /** The appended clause and both rewrites carry the tenant condition. */
  lemma AddedTextsNameTenant(cmId: Int32, sql: String)
    ensures Contains(sql + TenantClause(cmId), TenantCondition(cmId))
    ensures Contains(sql, "WHERE") ==>
              Contains(Replace(sql, "WHERE", UpperTenantRewrite(cmId)), TenantCondition(cmId))
    ensures Contains(sql, "where") ==>
              Contains(Replace(sql, "where", TenantRewrite(cmId)), TenantCondition(cmId))
  {
    TenantTextsNameTenant(cmId);
    ContainsEnd(sql, TenantClause(cmId));
    ContainsTransitive(sql + TenantClause(cmId), TenantClause(cmId), TenantCondition(cmId));
    if Contains(sql, "WHERE") {
      ReplaceNamesTenant(sql, "WHERE", UpperTenantRewrite(cmId), cmId);
    }
    if Contains(sql, "where") {
      ReplaceNamesTenant(sql, "where", TenantRewrite(cmId), cmId);
    }
  }

  /** Corrected guardrail: a statement that does not mention `cm_id` at all
      is accepted only with the condition `cm_id = <cmId>` in it. */
  lemma ScopedOutputNamesTenant(cmId: Int32, aiReply: String)
    requires !Contains(Sanitise(aiReply), TENANT_COLUMN)
    ensures ValidateScoped(cmId, aiReply).Ok? ==>
              Contains(ValidateScoped(cmId, aiReply).value, TenantCondition(cmId))
  {
    ScopedOutcomes(cmId, aiReply);
    AddedTextsNameTenant(cmId, Sanitise(aiReply));
  }

  /** Corrected guardrail: every accepted statement names the tenant column,
      either because it already did or because the condition was added. */
  lemma ScopedOutputReferencesTenant(cmId: Int32, aiReply: String)
    ensures ValidateScoped(cmId, aiReply).Ok? ==>
              Contains(ValidateScoped(cmId, aiReply).value, TENANT_COLUMN)
  {
    var r := ValidateScoped(cmId, aiReply);
    ScopedOutcomes(cmId, aiReply);
    AddedTextsNameTenant(cmId, Sanitise(aiReply));
    TenantTextsNameTenant(cmId);
    if r.Ok? && Contains(r.value, TenantCondition(cmId)) {
      ContainsTransitive(r.value, TenantCondition(cmId), TENANT_COLUMN);
    }
  }

  /** The correction touches only the rewrite of an existing clause:
      rejection and the appended clause are unchanged. */
  lemma ScopedAgreesOutsideRewrite(cmId: Int32, aiReply: String)
    requires !IsSelect(Sanitise(aiReply)) || !HasWhere(Sanitise(aiReply))
    ensures ValidateScoped(cmId, aiReply) == ValidateAiGeneratedSql(cmId, aiReply)
  {
  }
}
