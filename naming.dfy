/** Table and view naming: `QualifiedViewName`, the free function
    `table_name` and the temporary-table decisions of `SnapshotInfoMixin`. */
module Naming {
  import opened Wrappers
  import opened Categories

  /** Library-wide constants used to build names. */
  const SQLMESH: string := "sqlmesh"
  const DEFAULT_SCHEMA: string := "default"
  const PROD: string := "prod"

  /** Python's `a or b` on an optional string: `None` and `""` are falsy. */
  function OrElse(a: Option<string>, b: string): (r: string)
    ensures a.Some? && a.value != "" ==> r == a.value
    ensures a.None? || a.value == "" ==> r == b
  {
    if a.Some? && a.value != "" then a.value else b
  }

  function LowerChar(c: char): char {
    if 'A' <= c <= 'Z' then (c as int + 32) as char else c
  }

  /** `str.lower()` on the ASCII range. */
  function Lower(s: string): (r: string)
    ensures |r| == |s|
    ensures forall i :: 0 <= i < |s| ==> r[i] == LowerChar(s[i])
  {
    if s == [] then [] else Lower(s[..|s| - 1]) + [LowerChar(s[|s| - 1])]
  }

  // ---------------------------------------------------------------------
  // View names

  /** The view a model is exposed under, with `parse_model_name`'s pieces. */
  datatype QualifiedViewName = QualifiedViewName(catalog: Option<string>, schemaName: Option<string>, table: string)
  {
    /** The schema of the view outside any environment. */
    function BaseSchema(): string {
      OrElse(schemaName, DEFAULT_SCHEMA)
    }

    /** `schema_for_environment`: every environment except `prod` (in any
        letter case) gets its own schema by suffixing `__<environment>`. */
    function SchemaForEnvironment(environment: string): string {
      if Lower(environment) != PROD then BaseSchema() + "__" + environment else BaseSchema()
    }

    /** `for_environment`: the parts that are not `None`, joined with dots. */
    function ForEnvironment(environment: string): string {
      JoinDots((if catalog.Some? then [catalog.value] else []) + [SchemaForEnvironment(environment), table])
    }
  }

  function JoinDots(parts: seq<string>): string {
    if parts == [] then ""
    else if |parts| == 1 then parts[0]
    else parts[0] + "." + JoinDots(parts[1..])
  }

  lemma LowerProd(environment: string)
    requires Lower(environment) == PROD
    ensures |environment| == 4
  {
  }

  /** The production environment reads the base schema; every other
      environment reads a schema that extends it with `__` and its name. */
  lemma SchemaForEnvironmentCases(v: QualifiedViewName, environment: string)
    ensures Lower(environment) == PROD ==> v.SchemaForEnvironment(environment) == v.BaseSchema()
    ensures Lower(environment) != PROD ==>
      v.SchemaForEnvironment(environment)[..|v.BaseSchema()| + 2] == v.BaseSchema() + "__" &&
      v.SchemaForEnvironment(environment)[|v.BaseSchema()| + 2..] == environment
  {
  }

  /** Environments are isolated: two different non-production environments
      never share a schema, and none shares the production schema. */
  lemma EnvironmentsIsolated(v: QualifiedViewName, e1: string, e2: string)
    requires Lower(e1) != PROD
    ensures v.SchemaForEnvironment(e1) != v.SchemaForEnvironment("prod")
    ensures Lower(e2) != PROD && e1 != e2 ==> v.SchemaForEnvironment(e1) != v.SchemaForEnvironment(e2)
  {
    assert Lower("prod") == PROD;
    var b := v.BaseSchema();
    if Lower(e2) != PROD && v.SchemaForEnvironment(e1) == v.SchemaForEnvironment(e2) {
      assert (b + "__" + e1)[|b| + 2..] == e1;
      assert (b + "__" + e2)[|b| + 2..] == e2;
    }
  }

  /** The dotted view name: `catalog.schema.table`, or `schema.table` when
      there is no catalog. */
  lemma ForEnvironmentShape(v: QualifiedViewName, environment: string)
    ensures v.catalog.None? ==>
      v.ForEnvironment(environment) == v.SchemaForEnvironment(environment) + "." + v.table
    ensures v.catalog.Some? ==>
      v.ForEnvironment(environment) == v.catalog.value + "." + v.SchemaForEnvironment(environment) + "." + v.table
  {
    var schema := v.SchemaForEnvironment(environment);
    assert JoinDots([v.table]) == v.table;
    assert JoinDots([schema, v.table]) == schema + "." + v.table by {
      assert [schema, v.table][1..] == [v.table];
    }
    if v.catalog.Some? {
      assert ([v.catalog.value] + [schema, v.table])[1..] == [schema, v.table];
    } else {
      assert [] + [schema, v.table] == [schema, v.table];
    }
  }

  // ---------------------------------------------------------------------
  // Physical table names

  /** `name.replace(".", "__")`. */
  function ReplaceDots(s: string): (r: string)
    ensures '.' !in r
    ensures '.' !in s ==> r == s
  {
    if s == [] then []
    else
      var init := ReplaceDots(s[..|s| - 1]);
      var last := if s[|s| - 1] == '.' then "__" else [s[|s| - 1]];
      assert s == s[..|s| - 1] + [s[|s| - 1]];
      init + last
  }

  /** What follows the schema and its dot in a physical table name: the
      model name with its dots turned into `__`, `__`, the version, and a
      `__temp` suffix for a temporary table. */
  function TablePart(name: string, version: string, isTemp: bool): string {
    ReplaceDots(name) + "__" + version + (if isTemp then "__temp" else "")
  }

  /** The free function `table_name`: the physical schema, a dot, and the
      table part. */
  function TableName(physicalSchema: string, name: string, version: string, isTemp: bool): string {
    physicalSchema + "." + TablePart(name, version, isTemp)
  }

  /** When neither the schema nor the version holds a dot, the name holds
      exactly one: it splits back into the physical schema and a dot-free
      table part. */
  lemma TableNameSplits(physicalSchema: string, name: string, version: string, isTemp: bool)
    requires '.' !in physicalSchema && '.' !in version
    ensures var t := TableName(physicalSchema, name, version, isTemp);
      t[..|physicalSchema|] == physicalSchema && t[|physicalSchema|] == '.' &&
      t[|physicalSchema| + 1..] == TablePart(name, version, isTemp) &&
      '.' !in TablePart(name, version, isTemp)
  {
    TablePartHasNoDot(ReplaceDots(name), version, isTemp);
  }

  /** The part of a table name after the schema holds no dot when neither
      the rewritten name nor the version does. */
  lemma TablePartHasNoDot(rd: string, version: string, isTemp: bool)
    requires '.' !in rd && '.' !in version
    ensures '.' !in rd + "__" + version + (if isTemp then "__temp" else "")
  {
    assert '.' !in "__" by {
      assert "__" == ['_', '_'];
    }
    if isTemp {
      assert "__temp" == ['_', '_', 't', 'e', 'm', 'p'];
    }
  }

  /** The table part starts with the rewritten model name and `__`. */
  lemma TablePartStartsWithName(name: string, version: string, isTemp: bool)
    ensures TablePart(name, version, isTemp)[..|ReplaceDots(name)| + 2] == ReplaceDots(name) + "__"
  {
    var suffix := if isTemp then "__temp" else "";
    assert TablePart(name, version, isTemp) == (ReplaceDots(name) + "__") + (version + suffix);
  }

  /** A temporary table never shares its name with the regular table. */
  lemma TemporaryNameDistinct(physicalSchema: string, name: string, version: string)
    ensures TableName(physicalSchema, name, version, true) != TableName(physicalSchema, name, version, false)
    ensures TableName(physicalSchema, name, version, true)[|TableName(physicalSchema, name, version, false)|..] == "__temp"
  {
  }

  // ---------------------------------------------------------------------
  // Temporary-table decisions

  /** `is_temporary_table(is_dev)`: in development, forward-only and
      indirect non-breaking snapshots write to a temporary table (or clone). */
  predicate IsTemporaryTable(category: Option<ChangeCategory>, isDev: bool) {
    isDev && (OptIsForwardOnly(category) || OptIsIndirectNonBreaking(category))
  }

  /** The `is_temp` decision of `_table_name`. */
  function UsesTemp(category: Option<ChangeCategory>, isDev: bool, forRead: bool): bool {
    if isDev && forRead then OptIsForwardOnly(category)
    else if isDev then OptIsForwardOnly(category) || OptIsIndirectNonBreaking(category)
    else false
  }

  /** Production never uses a temporary table; writing in development uses
      one exactly when `is_temporary_table` holds; reading in development
      uses one only for a direct forward-only change, so every temporary
      table that is read is also one that is written. */
  lemma UsesTempDecisions(category: Option<ChangeCategory>, isDev: bool, forRead: bool)
    ensures !isDev ==> !UsesTemp(category, isDev, forRead)
    ensures UsesTemp(category, isDev, false) <==> IsTemporaryTable(category, isDev)
    ensures UsesTemp(category, isDev, true) <==> isDev && category == Some(ForwardOnly)
    ensures UsesTemp(category, isDev, true) ==> UsesTemp(category, isDev, false)
  {
  }

  /** `_table_name`: the physical table a snapshot with these attributes
      reads or writes. A temporary table takes `temp_version`, or the
      fingerprint's own version when that is unset or empty. */
  function ResolvedTableName(
    physicalSchema: string, name: string, category: Option<ChangeCategory>,
    tempVersion: Option<string>, fingerprintVersion: string,
    version: string, isDev: bool, forRead: bool): (r: string)
    ensures !UsesTemp(category, isDev, forRead) ==> r == TableName(physicalSchema, name, version, false)
    ensures UsesTemp(category, isDev, forRead) ==>
      r == TableName(physicalSchema, name, OrElse(tempVersion, fingerprintVersion), true)
  {
    var isTemp := UsesTemp(category, isDev, forRead);
    TableName(physicalSchema, name, if isTemp then OrElse(tempVersion, fingerprintVersion) else version, isTemp)
  }
}
