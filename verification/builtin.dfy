/**
 The built-in registration table of `TypeMap`'s static initialiser and the registry it
 produces. The table is written in the source's order, cut into the groups the source
 itself has (the standard types alphabetically, the Oracle time-zone timestamps, the
 JDK 1.4 types, the Torque aliases, the national-character and XML types); the
 standard types are further cut alphabetically into groups of seven, so that facts about
 the table can be checked group by group.

 Codes the source takes from `ColumnTypes` (not part of this model) are the fields of
 `VendorCodes`; the answers of the `PlatformUtils` probes are the fields of `Platform`.
 */
module BuiltinTypes {
  import opened Optional
  import Ascii
  import opened TypeMap
  import opened Registration
  import opened JdbcTypes

  /** The `ColumnTypes` codes the table uses, left as parameters. */
  datatype VendorCodes = VendorCodes(
    oracleTimestampTz: int,
    oracleTimestampLtz: int,
    sqlXml: int,
    nChar: int,
    nClob: int,
    nVarchar: int,
    longNVarchar: int)

  /**
   The runtime probes: whether the JDK has the JDBC 3 types, and the codes it reports
   for BOOLEAN and DATALINK.
   */
  datatype Platform = Platform(
    supportsJava14JdbcTypes: bool,
    booleanTypeCode: int,
    datalinkTypeCode: int)

  const StandardAtoC: seq<Step> := [
    Reg(ARRAY, "ARRAY", Special),
    Reg(BIGINT, "BIGINT", Numeric),
    Reg(BINARY, "BINARY", Binary),
    Reg(BIT, "BIT", Numeric),
    Reg(BLOB, "BLOB", Binary),
    Reg(CHAR, "CHAR", Textual),
    Reg(CLOB, "CLOB", Textual)]

  const StandardDtoJ: seq<Step> := [
    Reg(DATE, "DATE", DateTime),
    Reg(DECIMAL, "DECIMAL", Numeric),
    Reg(DISTINCT, "DISTINCT", Special),
    Reg(DOUBLE, "DOUBLE", Numeric),
    Reg(FLOAT, "FLOAT", Numeric),
    Reg(INTEGER, "INTEGER", Numeric),
    Reg(JAVA_OBJECT, "JAVA_OBJECT", Special)]

  const StandardLtoR: seq<Step> := [
    Reg(LONGVARBINARY, "LONGVARBINARY", Binary),
    Reg(LONGVARCHAR, "LONGVARCHAR", Textual),
    Reg(NULL, "NULL", Special),
    Reg(NUMERIC, "NUMERIC", Numeric),
    Reg(OTHER, "OTHER", Special),
    Reg(REAL, "REAL", Numeric),
    Reg(REF, "REF", Special)]

  const StandardStoV: seq<Step> := [
    Reg(SMALLINT, "SMALLINT", Numeric),
    Reg(STRUCT, "STRUCT", Special),
    Reg(TIME, "TIME", DateTime),
    Reg(TIMESTAMP, "TIMESTAMP", DateTime),
    Reg(TINYINT, "TINYINT", Numeric),
    Reg(VARBINARY, "VARBINARY", Binary),
    Reg(VARCHAR, "VARCHAR", Textual)]

  function OracleTypes(v: VendorCodes): seq<Step> {
    [Reg(v.oracleTimestampTz, "TIMESTAMPTZ", DateTime),
     Reg(v.oracleTimestampLtz, "TIMESTAMPLTZ", DateTime)]
  }

  /** Registered only when the platform reports JDK 1.4 JDBC types. */
  function Java14Types(p: Platform): seq<Step> {
    if p.supportsJava14JdbcTypes then
      [Reg(p.booleanTypeCode, "BOOLEAN", Numeric),
       Reg(p.datalinkTypeCode, "DATALINK", Special)]
    else []
  }

  /** The Torque/Turbine extensions: name-map entries only. */
  const TorqueAliases: seq<Step> := [
    Alias("BOOLEANINT", TINYINT),
    Alias("BOOLEANCHAR", CHAR)]

  function NationalTypes(v: VendorCodes): seq<Step> {
    [Reg(v.sqlXml, "SQLXML", Textual),
     Reg(v.nChar, "NCHAR", Textual),
     Reg(v.nClob, "NCLOB", Textual),
     Reg(v.nVarchar, "NVARCHAR", Textual),
     Reg(v.longNVarchar, "LONGNVARCHAR", Textual)]
  }

  /** The `java.sql.Types` registrations, alphabetical as in the source. */
  const StandardTypes: seq<Step> := StandardAtoC + StandardDtoJ + StandardLtoR + StandardStoV

  /** Everything the static initialiser does after the standard types, in order. */
  function LaterTypes(v: VendorCodes, p: Platform): seq<Step> {
    OracleTypes(v) + Java14Types(p) + TorqueAliases + NationalTypes(v)
  }

  /** The whole static initialiser, in order. */
  function Table(v: VendorCodes, p: Platform): seq<Step> {
    StandardTypes + LaterTypes(v, p)
  }

  /** The registry once class initialisation has finished. */
  function Builtin(v: VendorCodes, p: Platform): Registry {
    Replay(Table(v, p))
  }

  // ---------------------------------------------------------------------------
  // The names of the table
  // ---------------------------------------------------------------------------

  const AtoCNames: set<string> := {"ARRAY", "BIGINT", "BINARY", "BIT", "BLOB", "CHAR", "CLOB"}
  const DtoJNames: set<string> := {"DATE", "DECIMAL", "DISTINCT", "DOUBLE", "FLOAT", "INTEGER", "JAVA_OBJECT"}
  const LtoRNames: set<string> := {"LONGVARBINARY", "LONGVARCHAR", "NULL", "NUMERIC", "OTHER", "REAL", "REF"}
  const StoVNames: set<string> := {"SMALLINT", "STRUCT", "TIME", "TIMESTAMP", "TINYINT", "VARBINARY", "VARCHAR"}
  const OracleNames: set<string> := {"TIMESTAMPTZ", "TIMESTAMPLTZ"}
  const AliasNames: set<string> := {"BOOLEANINT", "BOOLEANCHAR"}
  const NationalNames: set<string> := {"SQLXML", "NCHAR", "NCLOB", "NVARCHAR", "LONGNVARCHAR"}

  const Java14Names: set<string> := {"BOOLEAN", "DATALINK"}

  const StandardNames: set<string> := {
    "ARRAY", "BIGINT", "BINARY", "BIT", "BLOB", "CHAR", "CLOB",
    "DATE", "DECIMAL", "DISTINCT", "DOUBLE", "FLOAT", "INTEGER", "JAVA_OBJECT",
    "LONGVARBINARY", "LONGVARCHAR", "NULL", "NUMERIC", "OTHER", "REAL", "REF",
    "SMALLINT", "STRUCT", "TIME", "TIMESTAMP", "TINYINT", "VARBINARY", "VARCHAR"}

  /** The names written after the standard types (the JDK 1.4 ones only on such platforms). */
  const LaterNames: set<string> := {
    "TIMESTAMPTZ", "TIMESTAMPLTZ", "BOOLEAN", "DATALINK", "BOOLEANINT", "BOOLEANCHAR",
    "SQLXML", "NCHAR", "NCLOB", "NVARCHAR", "LONGNVARCHAR"}

  /** Every name the table may write into the name map. */
  const TableNames: set<string> := StandardNames + LaterNames

  /** The names `TypeMap` declares as constants but never registers. */
  const DeclaredOnlyNames: set<string> :=
    {"GEOMETRY", "GEOGRAPHY", "POINT", "LINESTRING", "POLYGON", "UUID", "VARBIT", "INTERVAL", "IMAGE", "DATETIME2", "TSVECTOR"}

  lemma StandardAtoCNames()
    ensures UniqueNames(StandardAtoC) && NamesWithin(StandardAtoC, AtoCNames)
  {
  }

  lemma StandardDtoJNames()
    ensures UniqueNames(StandardDtoJ) && NamesWithin(StandardDtoJ, DtoJNames)
  {
  }

  lemma StandardLtoRNames()
    ensures UniqueNames(StandardLtoR) && NamesWithin(StandardLtoR, LtoRNames)
  {
  }

  lemma StandardStoVNames()
    ensures UniqueNames(StandardStoV) && NamesWithin(StandardStoV, StoVNames)
  {
  }

  lemma OracleTypesNames(v: VendorCodes)
    ensures UniqueNames(OracleTypes(v)) && NamesWithin(OracleTypes(v), OracleNames)
  {
  }

  lemma TorqueAliasesNames()
    ensures UniqueNames(TorqueAliases) && NamesWithin(TorqueAliases, AliasNames)
  {
  }

  lemma NationalTypesNames(v: VendorCodes)
    ensures UniqueNames(NationalTypes(v)) && NamesWithin(NationalTypes(v), NationalNames)
  {
  }

  lemma Java14TypesNames(p: Platform)
    ensures UniqueNames(Java14Types(p)) && NamesWithin(Java14Types(p), Java14Names)
  {
  }

  lemma StandardFirstHalfNames()
    ensures UniqueNames(StandardAtoC + StandardDtoJ)
    ensures NamesWithin(StandardAtoC + StandardDtoJ, AtoCNames + DtoJNames)
  {
    StandardAtoCNames();
    StandardDtoJNames();
    UniqueNamesAppend(StandardAtoC, StandardDtoJ, AtoCNames, DtoJNames);
  }

  lemma StandardSecondHalfNames()
    ensures UniqueNames(StandardLtoR + StandardStoV)
    ensures NamesWithin(StandardLtoR + StandardStoV, LtoRNames + StoVNames)
  {
    StandardLtoRNames();
    StandardStoVNames();
    UniqueNamesAppend(StandardLtoR, StandardStoV, LtoRNames, StoVNames);
  }

  lemma StandardHalvesDisjoint()
    ensures (AtoCNames + DtoJNames) !! (LtoRNames + StoVNames)
  {
  }

  lemma StandardTypesNames()
    ensures UniqueNames(StandardTypes) && NamesWithin(StandardTypes, StandardNames)
  {
    var ac := StandardAtoC + StandardDtoJ;
    var lv := StandardLtoR + StandardStoV;
    StandardFirstHalfNames();
    StandardSecondHalfNames();
    StandardHalvesDisjoint();
    UniqueNamesAppend(ac, lv, AtoCNames + DtoJNames, LtoRNames + StoVNames);
    assert StandardTypes == ac + lv;
    StandardGroupsCovered();
    NamesWithinMonotonic(StandardTypes, AtoCNames + DtoJNames + (LtoRNames + StoVNames), StandardNames);
  }

  lemma StandardGroupsCovered()
    ensures AtoCNames + DtoJNames + (LtoRNames + StoVNames) <= StandardNames
    ensures StandardNames <= AtoCNames + DtoJNames + (LtoRNames + StoVNames)
  {
  }

  lemma AtoCNamesUpper()
    ensures UpperCaseSet(AtoCNames)
  {
  }

  lemma DtoJNamesUpper()
    ensures UpperCaseSet(DtoJNames)
  {
  }

  lemma LtoRNamesUpper()
    ensures UpperCaseSet(LtoRNames)
  {
  }

  lemma StoVNamesUpper()
    ensures UpperCaseSet(StoVNames)
  {
  }

  lemma StandardNamesUpper()
    ensures UpperCaseSet(StandardNames)
  {
    AtoCNamesUpper();
    DtoJNamesUpper();
    LtoRNamesUpper();
    StoVNamesUpper();
    UpperCaseSetUnion(AtoCNames, DtoJNames);
    UpperCaseSetUnion(LtoRNames, StoVNames);
    UpperCaseSetUnion(AtoCNames + DtoJNames, LtoRNames + StoVNames);
    StandardGroupsCovered();
    UpperCaseSetSubset(StandardNames, AtoCNames + DtoJNames + (LtoRNames + StoVNames));
  }

  lemma LaterNamesUpper()
    ensures UpperCaseSet(LaterNames)
  {
  }

  lemma LaterTypesNames(v: VendorCodes, p: Platform)
    ensures UniqueNames(LaterTypes(v, p)) && NamesWithin(LaterTypes(v, p), LaterNames)
  {
    OracleTypesNames(v);
    Java14TypesNames(p);
    TorqueAliasesNames();
    NationalTypesNames(v);
    UniqueNamesAppend(OracleTypes(v), Java14Types(p), OracleNames, Java14Names);
    UniqueNamesAppend(OracleTypes(v) + Java14Types(p), TorqueAliases, OracleNames + Java14Names, AliasNames);
    UniqueNamesAppend(OracleTypes(v) + Java14Types(p) + TorqueAliases, NationalTypes(v),
      OracleNames + Java14Names + AliasNames, NationalNames);
    LaterGroupsCovered();
    NamesWithinMonotonic(LaterTypes(v, p),
      OracleNames + Java14Names + AliasNames + NationalNames, LaterNames);
  }

  lemma LaterGroupsCovered()
    ensures OracleNames + Java14Names + AliasNames + NationalNames <= LaterNames
  {
  }

  lemma NamesDisjoint()
    ensures StandardNames !! LaterNames
  {
  }

  /**
   No two steps of the table write the same name key, and every key written is one of
   `TableNames`: all built-in names are distinct and already upper-case.
   */
  lemma TableKeysUnique(v: VendorCodes, p: Platform)
    ensures UniqueKeys(Table(v, p)) && KeysWithin(Table(v, p), TableNames)
    ensures NamesWithin(Table(v, p), TableNames) && UpperCaseSet(TableNames)
    ensures forall i :: 0 <= i < |Table(v, p)| ==> Key(Table(v, p)[i]) == Name(Table(v, p)[i])
  {
    StandardTypesNames();
    LaterTypesNames(v, p);
    NamesDisjoint();
    UniqueNamesAppend(StandardTypes, LaterTypes(v, p), StandardNames, LaterNames);
    StandardNamesUpper();
    LaterNamesUpper();
    UpperNamesAreKeys(Table(v, p), TableNames);
  }
}
